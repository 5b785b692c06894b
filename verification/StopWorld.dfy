/** The signal handshake that stops and restarts the world.  One thread, holding the
    allocator lock, runs GC_stop_world and GC_start_world; the others run the suspend
    handler whenever a suspend signal is delivered to them.  Signals may be lost, and
    thread steps interleave with the steps of the stopping thread in any order. */
module StopWorld {
  import opened Basics

  const THREAD_RESTARTED := 1
  const RESEND_SIGNALS_LIMIT := 150

  /** Where a thread is in GC_suspend_handler_inner; my is its copy of GC_stop_count. */
  datatype Pc =
    | Running             // not in the handler
    | Entered(my: nat)    // has read an even GC_stop_count
    | Checked(my: nat)    // it is not a duplicate signal
    | Saved(my: nat)      // GC_store_stack_ptr done
    | Posted(my: nat)     // sem_post done
    | Held(my: nat)       // last_stop_count stored; in the sigsuspend loop
    | Woken(my: nat)      // has left the loop
    | Acked(my: nat)      // has posted again to acknowledge the restart

  datatype Thread = Thread(pc: Pc, last: nat, savedFor: nat, pending: bool, blocking: bool, gone: bool)

  /** A resend in progress: how many acknowledgements are still expected, what was sent
      last time, and how often that did not change. */
  datatype Resend = Resend(n: nat, prev: nat, tries: nat)

  /** Waiting for acknowledgements. */
  datatype WaitOp =
    | Timed(i: nat, n: nat)          // sem_timedwait loop
    | Poll(r: Resend)                // loop of resend_lost_signals
    | Correct(sent: nat, r: Resend)  // about to look for lost threads
    | Barrier(k: nat)                // suspend_restart_barrier, k waits to go

  /** Where the stopping thread is; Scan is GC_suspend_all or GC_restart_all at thread i,
      having sent n signals, and `sends` says that thread i is going to get one. */
  datatype Op =
    | Idle
    | Scan(i: nat, n: nat, sends: bool, again: Option<Resend>)
    | Wait(wait: WaitOp)
    | Stopped
    | Aborted

  /** count is GC_stop_count; used counts the successful waits on the semaphore since the
      world began to be stopped or started. */
  datatype World = World(count: nat, sem: nat, used: nat, op: Op, ts: seq<Thread>)

  predicate Even(n: nat) {
    n % 2 == 0
  }

  // ---------------------------------------------------------------- steps

  /** What thread t can do next: its new state and how often it posts. */
  function ThreadStep(retry: bool, count: nat, t: Thread): Option<(Thread, nat)> {
    match t.pc
    case Running =>
      if !t.pending then None
      else if count % 2 == THREAD_RESTARTED then Some((t.(pending := false), 0))
      else Some((t.(pending := false, pc := Entered(count)), 0))
    case Entered(my) =>
      Some((t.(pc := if t.last - t.last % 2 == my then Running else Checked(my)), 0))
    case Checked(my) =>
      Some((t.(pc := Saved(my), savedFor := my), 0))
    case Saved(my) =>
      Some((t.(pc := Posted(my)), 1))
    case Posted(my) =>
      Some((t.(pc := Held(my), last := my), 0))
    case Held(my) =>
      if count == my then None else Some((t.(pc := Woken(my)), 0))
    case Woken(my) =>
      if retry then Some((t.(pc := Acked(my)), 1)) else Some((t.(pc := Running), 0))
    case Acked(my) =>
      Some((t.(pc := Running, last := my + THREAD_RESTARTED), 0))
  }

  /** Choices of the environment: whether a signal gets lost, whether a wait times out,
      whether the polling loop sleeps on or resends. */
  datatype Choice = Yes | No

  /** GC_suspend_all skips a thread that has acknowledged; GC_restart_all does so only
      while resending. */
  predicate SkipsThread(retry: bool, count: nat, t: Thread, again: Option<Resend>) {
    || t.blocking
    || (if Even(count) then t.last == count else retry && t.last == count && again.Some?)
  }

  function AfterScan(retry: bool, count: nat, n: nat, again: Option<Resend>): Op {
    match again
    case None =>
      if retry then Wait(if n > 0 then Timed(0, n) else Barrier(0))
      else if Even(count) then Wait(Barrier(n))
      else Idle
    case Some(r) =>
      if n != r.prev then Wait(Correct(n, r.(tries := 0)))
      else if r.tries + 1 >= RESEND_SIGNALS_LIMIT then Aborted
      else Wait(Correct(n, r.(tries := r.tries + 1)))
  }

  function ScanStep(retry: bool, w: World, i: nat, n: nat, sends: bool, again: Option<Resend>, c: Choice): Option<World> {
    if i >= |w.ts| then
      Some(w.(op := AfterScan(retry, w.count, n, again)))
    else if !sends then
      Some(w.(op := if SkipsThread(retry, w.count, w.ts[i], again) then Scan(i + 1, n, false, again)
                    else Scan(i, n, true, again)))
    else if w.ts[i].gone then
      Some(w.(op := Scan(i + 1, n, false, again)))  // ESRCH
    else if Even(w.count) && c.Yes? then
      Some(w.(op := Scan(i + 1, n + 1, false, again), ts := w.ts[i := w.ts[i].(pending := true)]))
    else
      Some(w.(op := Scan(i + 1, n + 1, false, again)))  // lost, or a restart signal
  }

  function WaitStep(w: World, op: WaitOp, c: Choice): Option<World> {
    match op
    case Timed(i, n) =>
      if i >= n then Some(w.(op := Wait(Barrier(0))))
      else if c.No? then Some(w.(op := Wait(Poll(Resend(n - i, 0, 0)))))  // timed out
      else if w.sem > 0 then Some(w.(sem := w.sem - 1, used := w.used + 1, op := Wait(Timed(i + 1, n))))
      else None
    case Poll(r) =>
      if w.sem == r.n then Some(w.(op := Wait(Barrier(r.n))))
      else if c.Yes? then Some(w.(op := Scan(0, 0, false, Some(r))))
      else Some(w)  // sleep on
    case Correct(sent, r) =>
      Some(w.(op := Wait(Poll(r.(n := if sent < r.n - w.sem then w.sem + sent else r.n, prev := sent)))))
    case Barrier(k) =>
      if k == 0 then Some(w.(op := if Even(w.count) then Stopped else Idle))
      else if w.sem > 0 then Some(w.(sem := w.sem - 1, used := w.used + 1, op := Wait(Barrier(k - 1))))
      else None
  }

  /** GC_stop_world and GC_start_world both begin by incrementing GC_stop_count. */
  function BeginStep(w: World): World {
    w.(count := w.count + THREAD_RESTARTED, used := 0, op := Scan(0, 0, false, None))
  }

  /** The next step of the stopping thread, if it is not blocked. */
  function OpStep(retry: bool, w: World, c: Choice): Option<World> {
    match w.op
    case Idle => Some(BeginStep(w))
    case Stopped => Some(BeginStep(w))
    case Aborted => None
    case Scan(i, n, sends, again) => ScanStep(retry, w, i, n, sends, again, c)
    case Wait(op) => WaitStep(w, op, c)
  }

  /** A step of thread i, a step of the stopping thread, or a running thread entering or
      leaving a blocking section while nobody holds the allocator lock. */
  datatype Step = ByThread(i: nat) | ByStopper(c: Choice) | ByMutator(i: nat)

  function Do(retry: bool, w: World, s: Step): Option<World> {
    match s
    case ByThread(i) =>
      if i >= |w.ts| || w.ts[i].gone then None
      else
        (match ThreadStep(retry, w.count, w.ts[i])
         case None => None
         case Some(r) => Some(w.(ts := w.ts[i := r.0], sem := w.sem + r.1)))
    case ByStopper(c) => OpStep(retry, w, c)
    case ByMutator(i) =>
      if i < |w.ts| && w.op.Idle? && w.ts[i].pc.Running? && !w.ts[i].gone then
        Some(w.(ts := w.ts[i := w.ts[i].(blocking := !w.ts[i].blocking)]))
      else None
  }

  // ---------------------------------------------------------------- invariants

  /** The threads that take part. */
  ghost function Members(ts: seq<Thread>, upTo: nat): set<nat> {
    set i: nat | 0 <= i < |ts| && i < upTo && !ts[i].blocking && !ts[i].gone
  }

  predicate HasAcked(count: nat, t: Thread) {
    if Even(count) then t.pc == Posted(count) || t.pc == Held(count)
    else (count > 0 && t.pc == Acked(count - 1)) || (t.pc == Running && t.last == count)
  }

  /** Members that have posted for the current GC_stop_count. */
  ghost function Acks(count: nat, ts: seq<Thread>): set<nat> {
    set i: nat | 0 <= i < |ts| && !ts[i].blocking && !ts[i].gone && HasAcked(count, ts[i])
  }

  ghost predicate ThreadInv(retry: bool, count: nat, t: Thread) {
    && (t.gone ==> t.pc == Running && !t.pending)
    && (t.blocking ==> t.pc == Running && (Even(count) ==> !t.pending))
    && t.last <= count
    && (match t.pc
        case Running => Even(count) ==> t.last < count
        case Entered(my) => Even(count) && my == count && t.last < count
        case Checked(my) => Even(count) && my == count && t.last < count
        case Saved(my) => Even(count) && my == count && t.last < count && t.savedFor == my
        case Posted(my) => Even(my) && my <= count && t.last < count && t.savedFor == my && (retry ==> my + 1 >= count)
        case Held(my) => Even(my) && my <= count && t.last == my && t.savedFor == my && (retry ==> my + 1 >= count)
        case Woken(my) => Even(my) && my < count && t.last < count && (retry ==> my + 1 == count)
        case Acked(my) => Even(my) && my < count && t.last < count && retry)
  }

  /** Nothing has happened yet to the threads that the first scan has still to reach. */
  ghost predicate Untouched(count: nat, t: Thread) {
    !t.pending && (t.pc.Entered? || t.pc.Checked? || t.pc.Saved? ==> false) && !HasAcked(count, t)
  }

  ghost predicate OpInv(retry: bool, w: World) {
    match w.op
    case Idle => !Even(w.count) && w.sem == 0 && (retry ==> forall i :: 0 <= i < |w.ts| ==> Resting(w.ts[i]))
    case Scan(i, n, sends, again) =>
      && i <= |w.ts|
      && (sends ==> i < |w.ts| && !w.ts[i].blocking)
      && (if again.None? then FirstScan(w, i, n) else retry && Rescan(w, i, n, again.value))
    case Wait(op) => WaitInv(retry, w, op)
    case Stopped =>
      Even(w.count) && w.sem == 0 && Acks(w.count, w.ts) == Members(w.ts, |w.ts|) && w.used == |Members(w.ts, |w.ts|)|
    case Aborted => true
  }

  ghost predicate WaitInv(retry: bool, w: World, op: WaitOp) {
    var m := Members(w.ts, |w.ts|);
    match op
    case Timed(i, n) => retry && i <= n && i == w.used && n == |m|
    case Poll(r) => retry && r.n + w.used == |m|
    case Correct(sent, r) => retry && r.n + w.used == |m| && |m - Acks(w.count, w.ts)| <= sent
    case Barrier(k) => (Even(w.count) || retry) && k + w.used == |m|
  }

  ghost predicate Rescan(w: World, i: nat, n: nat, r: Resend) {
    && r.n + w.used == |Members(w.ts, |w.ts|)|
    && |Members(w.ts, i) - Acks(w.count, w.ts)| <= n
  }

  ghost predicate FirstScan(w: World, i: nat, n: nat) {
    && w.used == 0
    && n == |Members(w.ts, i)|
    && (Even(w.count) ==> forall j :: i <= j < |w.ts| ==> Untouched(w.count, w.ts[j]))
  }

  /** Between restart and the next stop, with restart acknowledgements. */
  ghost predicate Resting(t: Thread) {
    t.pc.Running? || t.pc.Acked?
  }

  ghost predicate Inv(retry: bool, w: World) {
    && (forall i :: 0 <= i < |w.ts| ==> ThreadInv(retry, w.count, w.ts[i]))
    && OpInv(retry, w)
    && (w.op.Idle? || w.op.Aborted? || w.op.Stopped? ||
        (if Even(w.count) || retry then w.sem + w.used == |Acks(w.count, w.ts)| else w.sem == 0 && w.used == 0))
  }

  /** A thread step keeps what is known of the thread, and it posts exactly when the
      thread acknowledges. */
  lemma {:induction false} ThreadStepInv(retry: bool, count: nat, t: Thread)
    requires ThreadInv(retry, count, t) && !t.gone && !t.blocking && ThreadStep(retry, count, t).Some?
    ensures
      var (t', posts) := ThreadStep(retry, count, t).value;
      && ThreadInv(retry, count, t')
      && !t'.gone && !t'.blocking
      && (HasAcked(count, t) ==> HasAcked(count, t') && posts == 0)
      && (!HasAcked(count, t) ==> posts == (if HasAcked(count, t') then 1 else 0))
      && (Untouched(count, t) ==> Untouched(count, t') || !Even(count))
      && (Resting(t) && !Even(count) ==> Resting(t') && posts == 0)
      && (!retry && !Even(count) ==> posts == 0)
  {
  }

  lemma AcksUpdate(count: nat, ts: seq<Thread>, i: nat, t': Thread)
    requires i < |ts| && !ts[i].gone && !ts[i].blocking && !t'.gone && !t'.blocking
    requires HasAcked(count, ts[i]) ==> HasAcked(count, t')
    ensures Acks(count, ts[i := t']) == Acks(count, ts) + (if HasAcked(count, t') then {i} else {})
    ensures forall n :: Members(ts[i := t'], n) == Members(ts, n)
  {
  }

  lemma SubsetSize(a: set<nat>, b: set<nat>)
    requires a <= b
    ensures |a| <= |b|
    ensures |a| == |b| ==> a == b
    ensures |b - a| == |b| - |a|
  {
    assert b == a + (b - a);
  }

  lemma AcksAreMembers(count: nat, ts: seq<Thread>)
    ensures Acks(count, ts) <= Members(ts, |ts|)
  {
  }

  /** What a step of thread i means for the stopping thread. */
  ghost predicate ThreadMoves(retry: bool, w: World, i: nat, t': Thread, posts: nat) {
    && i < |w.ts|
    && (forall n :: Members(w.ts[i := t'], n) == Members(w.ts, n))
    && Acks(w.count, w.ts) <= Acks(w.count, w.ts[i := t'])
    && |Acks(w.count, w.ts[i := t'])| == |Acks(w.count, w.ts)| + posts
    && (Untouched(w.count, w.ts[i]) ==> Untouched(w.count, t') || !Even(w.count))
    && (Resting(w.ts[i]) && !Even(w.count) ==> Resting(t') && posts == 0)
    && (!retry && !Even(w.count) ==> posts == 0)
    && t'.blocking == w.ts[i].blocking
  }

  /** All a thread in a blocking section can do is to discard an old signal. */
  lemma {:induction false} BlockedMoves(retry: bool, w: World, i: nat)
    requires i < |w.ts| && ThreadInv(retry, w.count, w.ts[i]) && !w.ts[i].gone && w.ts[i].blocking
    requires ThreadStep(retry, w.count, w.ts[i]).Some?
    ensures ThreadStep(retry, w.count, w.ts[i]).value == (w.ts[i].(pending := false), 0)
    ensures ThreadMoves(retry, w, i, w.ts[i].(pending := false), 0)
  {
    var ts' := w.ts[i := w.ts[i].(pending := false)];
    assert Acks(w.count, ts') == Acks(w.count, w.ts);
    assert forall n :: Members(ts', n) == Members(w.ts, n);
  }

  lemma {:induction false} ByThreadMoves(retry: bool, w: World, i: nat)
    requires i < |w.ts| && ThreadInv(retry, w.count, w.ts[i]) && !w.ts[i].gone
    requires ThreadStep(retry, w.count, w.ts[i]).Some?
    ensures
      var (t', posts) := ThreadStep(retry, w.count, w.ts[i]).value;
      ThreadMoves(retry, w, i, t', posts) && ThreadInv(retry, w.count, t')
  {
    if w.ts[i].blocking {
      BlockedMoves(retry, w, i);
      return;
    }
    ThreadStepInv(retry, w.count, w.ts[i]);
    var t' := ThreadStep(retry, w.count, w.ts[i]).value.0;
    AcksUpdate(w.count, w.ts, i, t');
    var acks := Acks(w.count, w.ts);
    assert i in acks <==> HasAcked(w.count, w.ts[i]);
    assert HasAcked(w.count, w.ts[i]) || !HasAcked(w.count, t') ==> Acks(w.count, w.ts[i := t']) == acks;
    assert i !in acks ==> |acks + {i}| == |acks| + 1;
  }

  lemma {:induction false} ByThreadScan(retry: bool, w: World, i: nat, t': Thread, posts: nat)
    requires ThreadMoves(retry, w, i, t', posts) && OpInv(retry, w) && w.op.Scan?
    ensures OpInv(retry, w.(ts := w.ts[i := t'], sem := w.sem + posts))
  {
    var k := w.op.i;
    SubsetSize(Members(w.ts, k) - Acks(w.count, w.ts[i := t']), Members(w.ts, k) - Acks(w.count, w.ts));
  }

  lemma {:induction false} ByThreadOther(retry: bool, w: World, i: nat, t': Thread, posts: nat)
    requires ThreadMoves(retry, w, i, t', posts) && OpInv(retry, w) && !w.op.Scan?
    requires w.op.Idle? && retry ==> Resting(w.ts[i])
    requires w.op.Idle? ==> posts == 0
    ensures OpInv(retry, w.(ts := w.ts[i := t'], sem := w.sem + posts))
  {
    var m, acks, acks' := Members(w.ts, |w.ts|), Acks(w.count, w.ts), Acks(w.count, w.ts[i := t']);
    SubsetSize(m - acks', m - acks);
    AcksAreMembers(w.count, w.ts[i := t']);
    SubsetSize(acks, acks');
    SubsetSize(acks', m);
  }

  lemma {:induction false} ByThreadInv(retry: bool, w: World, i: nat, w': World)
    requires Inv(retry, w) && Do(retry, w, ByThread(i)) == Some(w')
    ensures Inv(retry, w')
  {
    ByThreadMoves(retry, w, i);
    var (t', posts) := ThreadStep(retry, w.count, w.ts[i]).value;
    if w.op.Scan? {
      ByThreadScan(retry, w, i, t', posts);
    } else {
      ByThreadOther(retry, w, i, t', posts);
    }
  }

  // ---------------------------------------------------------------- the stopping thread

  /** No suspend signal of an earlier stop is still on its way. */
  predicate NothingPending(ts: seq<Thread>) {
    forall i | 0 <= i < |ts| :: !ts[i].pending
  }

  lemma BeginStopInv(retry: bool, w: World)
    requires Inv(retry, w) && w.op.Idle? && NothingPending(w.ts)
    ensures Inv(retry, BeginStep(w))
  {
    var w' := BeginStep(w);
    assert Even(w'.count);
    forall i | 0 <= i < |w.ts| ensures ThreadInv(retry, w'.count, w.ts[i]) && Untouched(w'.count, w.ts[i]) {
      assert ThreadInv(retry, w.count, w.ts[i]);
    }
    assert Acks(w'.count, w'.ts) == {};
    assert Members(w'.ts, 0) == {};
  }

  lemma BeginStartInv(retry: bool, w: World)
    requires Inv(retry, w) && w.op.Stopped?
    ensures Inv(retry, BeginStep(w))
  {
    var w' := BeginStep(w);
    assert !Even(w'.count);
    forall i | 0 <= i < |w.ts| ensures ThreadInv(retry, w'.count, w.ts[i]) && !HasAcked(w'.count, w.ts[i]) {
      assert ThreadInv(retry, w.count, w.ts[i]);
      if i in Members(w.ts, |w.ts|) {
        assert i in Acks(w.count, w.ts);
      }
    }
    assert Acks(w'.count, w'.ts) == {};
    assert Members(w'.ts, 0) == {};
  }

  lemma MembersNext(ts: seq<Thread>, i: nat)
    requires i < |ts|
    ensures Members(ts, i + 1) == Members(ts, i) + (if ts[i].blocking || ts[i].gone then {} else {i})
    ensures i !in Members(ts, i)
  {
  }

  /** Raising the suspend signal changes nothing but the pending signal. */
  lemma RaiseKeeps(retry: bool, count: nat, ts: seq<Thread>, i: nat)
    requires i < |ts| && !ts[i].blocking && !ts[i].gone
    requires forall k :: 0 <= k < |ts| ==> ThreadInv(retry, count, ts[k])
    ensures
      var ts' := ts[i := ts[i].(pending := true)];
      && (forall k :: 0 <= k < |ts'| ==> ThreadInv(retry, count, ts'[k]))
      && Acks(count, ts') == Acks(count, ts)
      && (forall n :: Members(ts', n) == Members(ts, n))
  {
    var ts' := ts[i := ts[i].(pending := true)];
    forall k | 0 <= k < |ts'| ensures ThreadInv(retry, count, ts'[k]) {
      assert ThreadInv(retry, count, ts[k]);
    }
  }

  lemma {:induction false} FirstScanInv(retry: bool, w: World, c: Choice, w': World)
    requires Inv(retry, w) && w.op.Scan? && w.op.again.None?
    requires ScanStep(retry, w, w.op.i, w.op.n, w.op.sends, None, c) == Some(w')
    ensures Inv(retry, w')
  {
    if w.op.i < |w.ts| {
      FirstScanThreadInv(retry, w, c, w');
    } else {
      assert Members(w.ts, w.op.i) == Members(w.ts, |w.ts|);
    }
  }

  lemma {:induction false} FirstScanThreadInv(retry: bool, w: World, c: Choice, w': World)
    requires Inv(retry, w) && w.op.Scan? && w.op.again.None? && w.op.i < |w.ts|
    requires ScanStep(retry, w, w.op.i, w.op.n, w.op.sends, None, c) == Some(w')
    ensures Inv(retry, w')
  {
    if w.op.sends {
      FirstScanSends(retry, w, c, w');
    } else {
      MembersNext(w.ts, w.op.i);
      assert ThreadInv(retry, w.count, w.ts[w.op.i]);
    }
  }

  lemma {:induction false} FirstScanSends(retry: bool, w: World, c: Choice, w': World)
    requires Inv(retry, w) && w.op.Scan? && w.op.again.None? && w.op.i < |w.ts| && w.op.sends
    requires ScanStep(retry, w, w.op.i, w.op.n, w.op.sends, None, c) == Some(w')
    ensures Inv(retry, w')
  {
    var i := w.op.i;
    MembersNext(w.ts, i);
    assert ThreadInv(retry, w.count, w.ts[i]);
    if !w.ts[i].blocking && !w.ts[i].gone {
      RaiseKeeps(retry, w.count, w.ts, i);
    }
  }

  /** Going past thread i leaves at most one more member unaccounted for, and none if the
      thread does not take part or has acknowledged. */
  lemma {:induction false} RescanCount(count: nat, ts: seq<Thread>, i: nat)
    requires i < |ts|
    ensures |Members(ts, i + 1) - Acks(count, ts)| <= |Members(ts, i) - Acks(count, ts)| + 1
    ensures ts[i].blocking || ts[i].gone || HasAcked(count, ts[i]) ==>
      |Members(ts, i + 1) - Acks(count, ts)| == |Members(ts, i) - Acks(count, ts)|
  {
    var acks := Acks(count, ts);
    MembersNext(ts, i);
    SubsetSize(Members(ts, i + 1) - acks, (Members(ts, i) - acks) + {i});
    if ts[i].blocking || ts[i].gone || HasAcked(count, ts[i]) {
      assert Members(ts, i + 1) - acks == Members(ts, i) - acks;
    }
  }

  /** A thread that a resend leaves out because of its last_stop_count has acknowledged. */
  lemma SkippedHasAcked(retry: bool, count: nat, t: Thread, again: Option<Resend>)
    requires ThreadInv(retry, count, t) && SkipsThread(retry, count, t, again)
    ensures t.blocking || HasAcked(count, t)
  {
  }

  lemma {:induction false} RescanInv(retry: bool, w: World, c: Choice, w': World)
    requires Inv(retry, w) && w.op.Scan? && w.op.again.Some?
    requires ScanStep(retry, w, w.op.i, w.op.n, w.op.sends, w.op.again, c) == Some(w')
    ensures Inv(retry, w')
  {
    if w.op.i >= |w.ts| {
      assert Members(w.ts, w.op.i) == Members(w.ts, |w.ts|);
    } else if w.op.sends {
      RescanSends(retry, w, c, w');
    } else {
      RescanChecks(retry, w, c, w');
    }
  }

  lemma {:induction false} RescanChecks(retry: bool, w: World, c: Choice, w': World)
    requires Inv(retry, w) && w.op.Scan? && w.op.again.Some? && w.op.i < |w.ts| && !w.op.sends
    requires ScanStep(retry, w, w.op.i, w.op.n, w.op.sends, w.op.again, c) == Some(w')
    ensures Inv(retry, w')
  {
    var i := w.op.i;
    RescanCount(w.count, w.ts, i);
    assert ThreadInv(retry, w.count, w.ts[i]);
    if SkipsThread(retry, w.count, w.ts[i], w.op.again) {
      SkippedHasAcked(retry, w.count, w.ts[i], w.op.again);
    }
  }

  lemma {:induction false} RescanSends(retry: bool, w: World, c: Choice, w': World)
    requires Inv(retry, w) && w.op.Scan? && w.op.again.Some? && w.op.i < |w.ts| && w.op.sends
    requires ScanStep(retry, w, w.op.i, w.op.n, w.op.sends, w.op.again, c) == Some(w')
    ensures Inv(retry, w')
  {
    if !w.ts[w.op.i].gone && Even(w.count) && c.Yes? {
      RescanRaises(retry, w, w');
    } else {
      RescanQuiet(retry, w, w');
    }
  }

  /** A signal that gets lost, or is not raised at all. */
  lemma {:induction false} RescanQuiet(retry: bool, w: World, w': World)
    requires Inv(retry, w) && w.op.Scan? && w.op.again.Some? && w.op.i < |w.ts| && w.op.sends
    requires w' == w.(op := Scan(w.op.i + 1, if w.ts[w.op.i].gone then w.op.n else w.op.n + 1, false, w.op.again))
    ensures Inv(retry, w')
  {
    RescanCount(w.count, w.ts, w.op.i);
  }

  lemma {:induction false} RescanRaises(retry: bool, w: World, w': World)
    requires Inv(retry, w) && w.op.Scan? && w.op.again.Some? && w.op.i < |w.ts| && w.op.sends
    requires !w.ts[w.op.i].gone && Even(w.count)
    requires w' == w.(op := Scan(w.op.i + 1, w.op.n + 1, false, w.op.again), ts := w.ts[w.op.i := w.ts[w.op.i].(pending := true)])
    ensures Inv(retry, w')
  {
    RaiseKeeps(retry, w.count, w.ts, w.op.i);
    RescanGoesOn(retry, w, w');
  }

  lemma {:induction false} RescanGoesOn(retry: bool, w: World, w': World)
    requires retry && w.op.Scan? && w.op.again.Some? && w.op.i < |w.ts| && |w'.ts| == |w.ts|
    requires Rescan(w, w.op.i, w.op.n, w.op.again.value)
    requires w'.op == Scan(w.op.i + 1, w.op.n + 1, false, w.op.again) && w'.count == w.count && w'.used == w.used
    requires Acks(w.count, w'.ts) == Acks(w.count, w.ts) && forall n :: Members(w'.ts, n) == Members(w.ts, n)
    ensures OpInv(retry, w')
  {
    RescanCount(w.count, w.ts, w.op.i);
  }

  /** The correction for "lost threads" never applies: every member was either sent a
      signal in the resend just made, or has posted by now. */
  lemma NoThreadIsLost(retry: bool, w: World)
    requires Inv(retry, w) && w.op.Wait? && w.op.wait.Correct?
    ensures w.op.wait.r.n - w.sem <= w.op.wait.sent
  {
    var m, acks := Members(w.ts, |w.ts|), Acks(w.count, w.ts);
    AcksAreMembers(w.count, w.ts);
    SubsetSize(acks, m);
  }

  lemma {:induction false} WaitStepInv(retry: bool, w: World, c: Choice, w': World)
    requires Inv(retry, w) && w.op.Wait?
    requires WaitStep(w, w.op.wait, c) == Some(w')
    ensures Inv(retry, w')
  {
    var m, acks := Members(w.ts, |w.ts|), Acks(w.count, w.ts);
    AcksAreMembers(w.count, w.ts);
    SubsetSize(acks, m);
    assert Members(w.ts, 0) - acks == {};
    match w.op.wait {
      case Timed(_, _) =>
      case Poll(_) =>
      case Correct(_, _) => NoThreadIsLost(retry, w);
      case Barrier(k) =>
        if k == 0 {
          forall i | 0 <= i < |w.ts| ensures !Even(w.count) ==> Resting(w.ts[i]) {
            assert ThreadInv(retry, w.count, w.ts[i]);
            if i in m { assert i in acks; }
          }
        }
    }
  }

  // ---------------------------------------------------------------- safety of a stop

  /** What GC_stop_world promises when it returns: every thread that takes part has saved
      its stack pointer for this stop and is held in the handler, as many posts have been
      taken as there are such threads, and the semaphore is back to 0. */
  ghost predicate SafelyStopped(w: World) {
    && (forall i :: 0 <= i < |w.ts| && !w.ts[i].blocking && !w.ts[i].gone ==>
          (w.ts[i].pc == Posted(w.count) || w.ts[i].pc == Held(w.count)) && w.ts[i].savedFor == w.count)
    && w.sem == 0
    && w.used == |Members(w.ts, |w.ts|)|
  }

  lemma StoppedIsSafe(retry: bool, w: World)
    requires Inv(retry, w) && w.op.Stopped?
    ensures SafelyStopped(w)
  {
    forall i | 0 <= i < |w.ts| && !w.ts[i].blocking && !w.ts[i].gone
      ensures (w.ts[i].pc == Posted(w.count) || w.ts[i].pc == Held(w.count)) && w.ts[i].savedFor == w.count
    {
      assert i in Members(w.ts, |w.ts|);
      assert i in Acks(w.count, w.ts);
      assert ThreadInv(retry, w.count, w.ts[i]);
    }
  }

  /** Does the step begin to stop the world while an old suspend signal is on its way? */
  predicate Clean(w: World, s: Step) {
    w.op.Idle? && s.ByStopper? ==> NothingPending(w.ts)
  }

  lemma {:induction false} StepInv(retry: bool, w: World, s: Step, w': World)
    requires Inv(retry, w) && Do(retry, w, s) == Some(w') && Clean(w, s)
    ensures Inv(retry, w')
  {
    match s {
      case ByThread(i) => ByThreadInv(retry, w, i, w');
      case ByMutator(i) =>
        forall k | 0 <= k < |w'.ts| ensures ThreadInv(retry, w'.count, w'.ts[k]) && (retry ==> Resting(w'.ts[k])) {
          assert ThreadInv(retry, w.count, w.ts[k]);
          assert retry ==> Resting(w.ts[k]);
        }
      case ByStopper(c) =>
        match w.op {
          case Idle => BeginStopInv(retry, w);
          case Stopped => BeginStartInv(retry, w);
          case Scan(_, _, _, again) =>
            if again.None? { FirstScanInv(retry, w, c, w'); } else { RescanInv(retry, w, c, w'); }
          case Wait(_) => WaitStepInv(retry, w, c, w');
          case Aborted =>
        }
    }
  }

  /** GC_stop_init. */
  ghost predicate Init(w: World) {
    && w.count == THREAD_RESTARTED && w.sem == 0 && w.op == Idle
    && forall i :: 0 <= i < |w.ts| ==> w.ts[i].pc == Running && w.ts[i].last == 0 && !w.ts[i].pending
  }

  /** The states and steps of a run of any number of stops and starts. */
  ghost predicate Run(retry: bool, ws: seq<World>, steps: seq<Step>) {
    && |ws| == |steps| + 1
    && Init(ws[0])
    && (forall k :: 0 <= k < |steps| ==> Do(retry, ws[k], steps[k]) == Some(ws[k + 1]))
  }

  ghost predicate CleanRun(ws: seq<World>, steps: seq<Step>)
    requires |ws| == |steps| + 1
  {
    forall k :: 0 <= k < |steps| ==> Clean(ws[k], steps[k])
  }

  lemma {:induction false} RunInv(retry: bool, ws: seq<World>, steps: seq<Step>, k: nat)
    requires Run(retry, ws, steps) && CleanRun(ws, steps) && k < |ws|
    ensures Inv(retry, ws[k])
  {
    if k == 0 {
      assert forall i :: 0 <= i < |ws[0].ts| ==> ThreadInv(retry, 1, ws[0].ts[i]);
    } else {
      RunInv(retry, ws, steps, k - 1);
      StepInv(retry, ws[k - 1], steps[k - 1], ws[k]);
    }
  }

  /** Whatever signals get lost and whenever they are sent again, over any number of stops
      and starts: a stop is safe, and no thread is ever taken for lost, provided no stop
      begins while a suspend signal of an earlier one is still on its way. */
  lemma StopsAreSafe(retry: bool, ws: seq<World>, steps: seq<Step>, k: nat)
    requires Run(retry, ws, steps) && CleanRun(ws, steps) && k < |ws|
    ensures ws[k].op.Stopped? ==> SafelyStopped(ws[k])
    ensures ws[k].op.Wait? && ws[k].op.wait.Correct? ==> ws[k].op.wait.r.n - ws[k].sem <= ws[k].op.wait.sent
    ensures ws[k].op.Idle? ==> ws[k].sem == 0
  {
    RunInv(retry, ws, steps, k);
    if ws[k].op.Stopped? {
      StoppedIsSafe(retry, ws[k]);
    } else if ws[k].op.Wait? && ws[k].op.wait.Correct? {
      NoThreadIsLost(retry, ws[k]);
    }
  }

  /** Without resending, a pending signal is always one of the stop in progress. */
  ghost predicate SentOnce(w: World) {
    forall i :: 0 <= i < |w.ts| && w.ts[i].pending ==>
      && Even(w.count)
      && (w.ts[i].pc == Running || w.ts[i].pc.Posted? || w.ts[i].pc.Held? || w.ts[i].pc.Woken?)
      && !HasAcked(w.count, w.ts[i])
  }

  lemma {:induction false} StepSentOnce(w: World, s: Step, w': World)
    requires Inv(false, w) && SentOnce(w) && Do(false, w, s) == Some(w')
    ensures Clean(w, s) && SentOnce(w')
  {
    match s {
      case ByThread(i) => assert ThreadInv(false, w.count, w.ts[i]);
      case ByMutator(i) =>
      case ByStopper(c) =>
        forall i | 0 <= i < |w.ts| ensures w.op.Stopped? ==> !w.ts[i].pending {
          assert ThreadInv(false, w.count, w.ts[i]);
          if w.op.Stopped? && !w.ts[i].blocking && !w.ts[i].gone {
            assert i in Members(w.ts, |w.ts|);
            assert i in Acks(w.count, w.ts);
          }
        }
    }
  }

  lemma {:induction false} NoRetryRunClean(ws: seq<World>, steps: seq<Step>, k: nat)
    requires Run(false, ws, steps) && k < |ws|
    ensures Inv(false, ws[k]) && SentOnce(ws[k])
    ensures forall j :: 0 <= j < k ==> Clean(ws[j], steps[j])
  {
    if k == 0 {
      assert forall i :: 0 <= i < |ws[0].ts| ==> ThreadInv(false, 1, ws[0].ts[i]);
    } else {
      NoRetryRunClean(ws, steps, k - 1);
      StepSentOnce(ws[k - 1], steps[k - 1], ws[k]);
      StepInv(false, ws[k - 1], steps[k - 1], ws[k]);
    }
  }

  /** With GC_retry_signals unset every run is clean, so every stop is safe. */
  lemma NoRetryStopsAreSafe(ws: seq<World>, steps: seq<Step>, k: nat)
    requires Run(false, ws, steps) && k < |ws|
    ensures ws[k].op.Stopped? ==> SafelyStopped(ws[k])
  {
    NoRetryRunClean(ws, steps, k);
    if ws[k].op.Stopped? {
      StoppedIsSafe(false, ws[k]);
    }
  }
}
