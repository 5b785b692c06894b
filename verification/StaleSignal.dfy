/** Resending can leave a second suspend signal pending for a thread that is already in
    the handler.  If it is delivered during the next stop, that stop is not safe.  This
    module shows that this is the only way a stop can go wrong, and that it always can. */
module StaleSignal {
  import opened Basics
  import opened StopWorld

  /** The result of some steps, all of which must be possible. */
  function Exec(retry: bool, w: World, steps: seq<Step>): Option<World>
    decreases |steps|
  {
    if steps == [] then Some(w)
    else
      match Do(retry, w, steps[0])
      case None => None
      case Some(w') => Exec(retry, w', steps[1..])
  }

  lemma {:induction false} ExecAppend(retry: bool, w: World, s: seq<Step>, t: seq<Step>)
    ensures Exec(retry, w, s + t) == (match Exec(retry, w, s) case None => None case Some(w') => Exec(retry, w', t))
    decreases |s|
  {
    if s == [] {
      assert s + t == t;
    } else {
      assert (s + t)[1..] == s[1..] + t;
      if Do(retry, w, s[0]).Some? {
        ExecAppend(retry, Do(retry, w, s[0]).value, s[1..], t);
      }
    }
  }

  /** Every way to complete the stop that begins in w leaves the world safely stopped. */
  ghost predicate StopIsSafe(retry: bool, w: World) {
    forall steps :: StopsSafely(retry, BeginStep(w), steps)
  }

  ghost predicate StopsSafely(retry: bool, w: World, steps: seq<Step>) {
    match Exec(retry, w, steps)
    case None => true
    case Some(w') => w'.op.Stopped? && w'.count == w.count ==> SafelyStopped(w')
  }

  lemma {:induction false} CountGrows(retry: bool, w: World, steps: seq<Step>)
    requires Exec(retry, w, steps).Some?
    ensures w.count <= Exec(retry, w, steps).value.count
    decreases |steps|
  {
    if steps != [] {
      CountGrows(retry, Do(retry, w, steps[0]).value, steps[1..]);
    }
  }

  lemma {:induction false} ExecInv(retry: bool, w: World, steps: seq<Step>)
    requires Inv(retry, w) && !w.op.Idle?
    requires Exec(retry, w, steps).Some? && Exec(retry, w, steps).value.count == w.count
    requires Even(w.count)
    ensures Inv(retry, Exec(retry, w, steps).value)
    decreases |steps|
  {
    if steps != [] {
      var w' := Do(retry, w, steps[0]).value;
      StepInv(retry, w, steps[0], w');
      CountGrows(retry, w', steps[1..]);
      ExecInv(retry, w', steps[1..]);
    }
  }

  lemma {:induction false} NothingPendingIsSafe(retry: bool, w: World, steps: seq<Step>)
    requires Inv(retry, w) && w.op.Idle? && NothingPending(w.ts)
    ensures StopsSafely(retry, BeginStep(w), steps)
  {
    var b := BeginStep(w);
    BeginStopInv(retry, w);
    if Exec(retry, b, steps).Some? && Exec(retry, b, steps).value.op.Stopped? && Exec(retry, b, steps).value.count == b.count {
      ExecInv(retry, b, steps);
      StoppedIsSafe(retry, Exec(retry, b, steps).value);
    }
  }

  // ---------------------------------------------------------------- the bad run

  ghost predicate Reaches(retry: bool, w: World, w': World) {
    exists steps :: Exec(retry, w, steps) == Some(w')
  }

  lemma ReachesStep(retry: bool, w: World, s: Step, w': World)
    requires Do(retry, w, s) == Some(w')
    ensures Reaches(retry, w, w')
  {
    assert Exec(retry, w', []) == Some(w');
    assert [s][1..] == [];
    assert Exec(retry, w, [s]) == Some(w');
  }

  lemma ReachesSelf(retry: bool, w: World)
    ensures Reaches(retry, w, w)
  {
    assert Exec(retry, w, []) == Some(w);
  }

  lemma ReachesTransitive(retry: bool, w: World, w': World, w'': World)
    requires Reaches(retry, w, w') && Reaches(retry, w', w'')
    ensures Reaches(retry, w, w'')
  {
    var s :| Exec(retry, w, s) == Some(w');
    var t :| Exec(retry, w', t) == Some(w'');
    ExecAppend(retry, w, s, t);
    assert Exec(retry, w, s + t) == Some(w'');
  }

  /** A thread as it is once it has gone through the handler for the stop c. */
  function HeldFor(t: Thread, c: nat): Thread {
    t.(pc := Held(c), last := c, savedFor := c, pending := false)
  }

  /** Having the signal delivered, thread i can run through the handler at once. */
  lemma {:induction false} Deliver(retry: bool, w: World, i: nat, w': World)
    requires i < |w.ts| && w.ts[i].pc == Running && w.ts[i].pending && !w.ts[i].gone
    requires Even(w.count) && w.ts[i].last < w.count
    requires w' == w.(sem := w.sem + 1, ts := w.ts[i := HeldFor(w.ts[i], w.count)])
    ensures Reaches(retry, w, w')
  {
    var s, c := ByThread(i), w.count;
    var t1 := w.ts[i].(pending := false, pc := Entered(c));
    var t2 := t1.(pc := Checked(c));
    var t3 := t2.(pc := Saved(c), savedFor := c);
    var t4 := t3.(pc := Posted(c));
    var w1, w2, w3 := w.(ts := w.ts[i := t1]), w.(ts := w.ts[i := t2]), w.(ts := w.ts[i := t3]);
    var w4 := w.(ts := w.ts[i := t4], sem := w.sem + 1);
    assert w1.ts[i := t2] == w2.ts && w2.ts[i := t3] == w3.ts && w3.ts[i := t4] == w4.ts;
    assert w4.ts[i := HeldFor(w.ts[i], c)] == w'.ts;
    ReachesStep(retry, w, s, w1);
    ReachesStep(retry, w1, s, w2);
    ReachesStep(retry, w2, s, w3);
    ReachesStep(retry, w3, s, w4);
    ReachesStep(retry, w4, s, w');
    ReachesTransitive(retry, w, w1, w2);
    ReachesTransitive(retry, w, w2, w3);
    ReachesTransitive(retry, w, w3, w4);
    ReachesTransitive(retry, w, w4, w');
  }

  predicate TakesPart(t: Thread) {
    !t.blocking && !t.gone
  }

  /** Is the thread held for c, or still running and without a signal? */
  predicate Ready(t: Thread, c: nat) {
    t.gone || t == HeldFor(t, c) || (t.pc == Running && !t.pending && t.last < c)
  }

  /** A thread that has just been restarted, as the next stop (to c) finds it. */
  predicate Resumed(t: Thread, c: nat) {
    !t.gone ==> t.last < c && (t.pc == Running || (t.pc.Acked? && t.pc.my + 1 < c))
  }

  /** Threads n, n+1, ... finish the handler for the last stop, and where an old signal is
      pending they go on to run it for this one. */
  lemma {:induction false} OldSignalsDelivered(w: World, n: nat) returns (w': World)
    requires n <= |w.ts| && Even(w.count)
    requires forall i :: n <= i < |w.ts| ==> Resumed(w.ts[i], w.count)
    ensures Reaches(true, w, w')
    ensures w' == w.(sem := w'.sem, ts := w'.ts) && |w'.ts| == |w.ts| && w.sem <= w'.sem
    ensures forall i :: 0 <= i < n ==> w'.ts[i] == w.ts[i]
    ensures forall i :: n <= i < |w.ts| ==> Ready(w'.ts[i], w.count) && TakesPart(w'.ts[i]) == TakesPart(w.ts[i])
    ensures forall i :: n <= i < |w.ts| && !w.ts[i].gone && !w.ts[i].pending ==> w'.ts[i].pc == Running
    ensures (exists i :: n <= i < |w.ts| && !w.ts[i].gone && w.ts[i].pending) ==> w.sem < w'.sem
    decreases |w.ts| - n
  {
    if n == |w.ts| {
      ReachesSelf(true, w);
      return w;
    }
    var t := w.ts[n];
    var w1 := w;
    if !t.gone && t.pc.Acked? {
      t := t.(pc := Running, last := t.pc.my + 1);
      w1 := w.(ts := w.ts[n := t]);
      ReachesStep(true, w, ByThread(n), w1);
    } else {
      ReachesSelf(true, w);
    }
    var w2 := w1;
    if !t.gone && t.pending {
      w2 := w1.(sem := w1.sem + 1, ts := w1.ts[n := HeldFor(t, w.count)]);
      Deliver(true, w1, n, w2);
    } else {
      ReachesSelf(true, w1);
    }
    w' := OldSignalsDelivered(w2, n + 1);
    ReachesTransitive(true, w, w1, w2);
    ReachesTransitive(true, w, w2, w');
  }

  /** What the first scan does with thread i: the signal of thread x gets lost, the others
      are delivered at once. */
  lemma ScanThread(w: World, i: nat, n: nat, x: nat) returns (w': World, n': nat)
    requires w.op == Scan(i, n, false, None) && Even(w.count) && i < |w.ts|
    requires Ready(w.ts[i], w.count)
    requires i == x ==> TakesPart(w.ts[x]) && w.ts[x].pc == Running
    ensures Reaches(true, w, w')
    ensures w' == w.(sem := w'.sem, ts := w'.ts, op := Scan(i + 1, n', false, None)) && |w'.ts| == |w.ts|
    ensures forall k :: 0 <= k < |w.ts| && k != i ==> w'.ts[k] == w.ts[k]
    ensures i == x ==> w'.ts[x] == w.ts[x]
    ensures n <= n' && w'.sem == w.sem + (n' - n) - (if i == x then 1 else 0)
  {
    var t, c := w.ts[i], w.count;
    if t.blocking || t.last == c {
      w', n' := w.(op := Scan(i + 1, n, false, None)), n;
      ReachesStep(true, w, ByStopper(Yes), w');
      return;
    }
    var w1 := w.(op := Scan(i, n, true, None));
    ReachesStep(true, w, ByStopper(Yes), w1);
    if t.gone {
      w', n' := w.(op := Scan(i + 1, n, false, None)), n;
      ReachesStep(true, w1, ByStopper(Yes), w');
    } else if i == x {
      w', n' := w.(op := Scan(i + 1, n + 1, false, None)), n + 1;
      ReachesStep(true, w1, ByStopper(No), w');
    } else {
      n' := n + 1;
      var w2 := w.(op := Scan(i + 1, n', false, None), ts := w.ts[i := t.(pending := true)]);
      ReachesStep(true, w1, ByStopper(Yes), w2);
      w' := w2.(sem := w.sem + 1, ts := w2.ts[i := HeldFor(w2.ts[i], c)]);
      Deliver(true, w2, i, w');
      ReachesTransitive(true, w1, w2, w');
    }
    ReachesTransitive(true, w, w1, w');
  }

  lemma {:induction false} ScanCompletes(w: World, i: nat, n: nat, x: nat) returns (w': World, n': nat)
    requires w.op == Scan(i, n, false, None) && Even(w.count) && i <= |w.ts|
    requires forall k :: i <= k < |w.ts| ==> Ready(w.ts[k], w.count)
    requires i <= x < |w.ts| ==> TakesPart(w.ts[x]) && w.ts[x].pc == Running
    ensures Reaches(true, w, w')
    ensures w' == w.(sem := w'.sem, ts := w'.ts, op := Scan(|w.ts|, n', false, None)) && |w'.ts| == |w.ts|
    ensures x < |w.ts| ==> w'.ts[x] == w.ts[x] || x < i
    ensures forall k :: 0 <= k < i ==> w'.ts[k] == w.ts[k]
    ensures n <= n' && w'.sem == w.sem + (n' - n) - (if i <= x < |w.ts| then 1 else 0)
    decreases |w.ts| - i
  {
    if i == |w.ts| {
      ReachesSelf(true, w);
      return w, n;
    }
    var w1, n1 := ScanThread(w, i, n, x);
    w', n' := ScanCompletes(w1, i + 1, n1, x);
    ReachesTransitive(true, w, w1, w');
  }

  lemma {:induction false} WaitsSucceed(w: World, i: nat, n: nat) returns (w': World)
    requires w.op == Wait(Timed(i, n)) && i <= n && n - i <= w.sem
    ensures Reaches(true, w, w')
    ensures w' == w.(sem := w.sem - (n - i), used := w.used + (n - i), op := Wait(Timed(n, n)))
    decreases n - i
  {
    if i == n {
      ReachesSelf(true, w);
      return w;
    }
    var w1 := w.(sem := w.sem - 1, used := w.used + 1, op := Wait(Timed(i + 1, n)));
    ReachesStep(true, w, ByStopper(Yes), w1);
    w' := WaitsSucceed(w1, i + 1, n);
    ReachesTransitive(true, w, w1, w');
  }

  /** From the end of the first scan to the end of the stop, if enough has been posted. */
  lemma {:induction false} StopCompletes(w: World, n: nat) returns (w': World)
    requires w.op == Scan(|w.ts|, n, false, None) && Even(w.count) && n <= w.sem
    ensures Reaches(true, w, w')
    ensures w' == w.(sem := w.sem - n, used := w.used + n, op := Stopped)
  {
    var b := w.(sem := w.sem - n, used := w.used + n, op := Wait(Barrier(0)));
    if n > 0 {
      var w1 := w.(op := Wait(Timed(0, n)));
      ReachesStep(true, w, ByStopper(Yes), w1);
      var w2 := WaitsSucceed(w1, 0, n);
      ReachesStep(true, w2, ByStopper(Yes), b);
      ReachesTransitive(true, w, w1, w2);
      ReachesTransitive(true, w, w2, b);
    } else {
      ReachesStep(true, w, ByStopper(Yes), b);
    }
    w' := b.(op := Stopped);
    ReachesStep(true, b, ByStopper(Yes), w');
    ReachesTransitive(true, w, b, w');
  }

  /** With an old signal pending, the stop can end with the semaphore not back to 0 or,
      if some other thread has no signal pending, with that thread still running. */
  lemma {:induction false} StaleSignalBreaksStop(w: World) returns (w': World)
    requires Inv(true, w) && w.op.Idle? && !NothingPending(w.ts)
    ensures Reaches(true, BeginStep(w), w') && w'.op.Stopped? && w'.count == w.count + 1
    ensures !SafelyStopped(w')
    ensures (exists x :: 0 <= x < |w.ts| && TakesPart(w.ts[x]) && !w.ts[x].pending) ==>
      exists x :: 0 <= x < |w'.ts| && TakesPart(w'.ts[x]) && w'.ts[x].pc == Running
  {
    var b := BeginStep(w);
    forall i | 0 <= i < |w.ts| ensures Resumed(w.ts[i], b.count) && (w.ts[i].pending ==> !w.ts[i].gone) {
      assert ThreadInv(true, w.count, w.ts[i]);
      assert Resting(w.ts[i]);
    }
    var w1 := OldSignalsDelivered(b, 0);
    var x := |w.ts|;
    if y :| 0 <= y < |w.ts| && TakesPart(w.ts[y]) && !w.ts[y].pending {
      x := y;
    }
    var w2, n := ScanCompletes(w1, 0, 0, x);
    w' := StopCompletes(w2, n);
    ReachesTransitive(true, b, w1, w2);
    ReachesTransitive(true, b, w2, w');
    if x < |w.ts| {
      assert w'.ts[x].pc == Running;
    }
  }

  /** With GC_retry_signals, a stop is safe whatever happens during it if and only if no
      suspend signal of an earlier stop is still on its way when it begins. */
  lemma StopIsSafeIff(w: World)
    requires Inv(true, w) && w.op.Idle?
    ensures StopIsSafe(true, w) <==> NothingPending(w.ts)
  {
    if NothingPending(w.ts) {
      forall steps ensures StopsSafely(true, BeginStep(w), steps) {
        NothingPendingIsSafe(true, w, steps);
      }
    } else {
      var w' := StaleSignalBreaksStop(w);
      var steps :| Exec(true, BeginStep(w), steps) == Some(w');
      assert !StopsSafely(true, BeginStep(w), steps);
    }
  }

  /** The signal is delivered just before it is sent again. */
  lemma {:induction false} SignalSentTwice(w: World, w': World)
    requires w == World(1, 0, 0, Idle, [Thread(Running, 0, 0, false, false, false)])
    requires w' == World(2, 0, 0, Scan(1, 1, false, Some(Resend(1, 0, 0))), [Thread(Entered(2), 0, 0, true, false, false)])
    ensures Reaches(true, w, w')
  {
    var w1 := World(2, 0, 0, Scan(0, 0, false, None), [Thread(Running, 0, 0, false, false, false)]);
    ReachesStep(true, w, ByStopper(Yes), w1);
    var w2 := World(2, 0, 0, Scan(0, 0, true, None), [Thread(Running, 0, 0, false, false, false)]);
    ReachesStep(true, w1, ByStopper(Yes), w2);
    ReachesTransitive(true, w, w1, w2);
    var w3 := World(2, 0, 0, Scan(1, 1, false, None), [Thread(Running, 0, 0, true, false, false)]);
    assert w2.ts[0 := w3.ts[0]] == w3.ts;
    ReachesStep(true, w2, ByStopper(Yes), w3);
    ReachesTransitive(true, w, w2, w3);
    var w4 := World(2, 0, 0, Wait(Timed(0, 1)), [Thread(Running, 0, 0, true, false, false)]);
    ReachesStep(true, w3, ByStopper(Yes), w4);
    ReachesTransitive(true, w, w3, w4);
    var w5 := World(2, 0, 0, Wait(Poll(Resend(1, 0, 0))), [Thread(Running, 0, 0, true, false, false)]);
    ReachesStep(true, w4, ByStopper(No), w5);
    ReachesTransitive(true, w, w4, w5);
    var w6 := World(2, 0, 0, Wait(Poll(Resend(1, 0, 0))), [Thread(Entered(2), 0, 0, false, false, false)]);
    assert w5.ts[0 := w6.ts[0]] == w6.ts;
    ReachesStep(true, w5, ByThread(0), w6);
    ReachesTransitive(true, w, w5, w6);
    var w7 := World(2, 0, 0, Scan(0, 0, false, Some(Resend(1, 0, 0))), [Thread(Entered(2), 0, 0, false, false, false)]);
    ReachesStep(true, w6, ByStopper(Yes), w7);
    ReachesTransitive(true, w, w6, w7);
    var w8 := World(2, 0, 0, Scan(0, 0, true, Some(Resend(1, 0, 0))), [Thread(Entered(2), 0, 0, false, false, false)]);
    ReachesStep(true, w7, ByStopper(Yes), w8);
    ReachesTransitive(true, w, w7, w8);
    assert w8.ts[0 := w'.ts[0]] == w'.ts;
    ReachesStep(true, w8, ByStopper(Yes), w');
    ReachesTransitive(true, w, w8, w');
  }

  /** The second signal is blocked while the thread runs the handler for the first. */
  lemma {:induction false} StopCompletesWithSecondSignal(w: World, w': World)
    requires w == World(2, 0, 0, Scan(1, 1, false, Some(Resend(1, 0, 0))), [Thread(Entered(2), 0, 0, true, false, false)])
    requires w' == World(2, 0, 1, Stopped, [Thread(Held(2), 2, 2, true, false, false)])
    ensures Reaches(true, w, w')
  {
    var w1 := World(2, 0, 0, Scan(1, 1, false, Some(Resend(1, 0, 0))), [Thread(Checked(2), 0, 0, true, false, false)]);
    assert w.ts[0 := w1.ts[0]] == w1.ts;
    ReachesStep(true, w, ByThread(0), w1);
    var w2 := World(2, 0, 0, Scan(1, 1, false, Some(Resend(1, 0, 0))), [Thread(Saved(2), 0, 2, true, false, false)]);
    assert w1.ts[0 := w2.ts[0]] == w2.ts;
    ReachesStep(true, w1, ByThread(0), w2);
    ReachesTransitive(true, w, w1, w2);
    var w3 := World(2, 1, 0, Scan(1, 1, false, Some(Resend(1, 0, 0))), [Thread(Posted(2), 0, 2, true, false, false)]);
    assert w2.ts[0 := w3.ts[0]] == w3.ts;
    ReachesStep(true, w2, ByThread(0), w3);
    ReachesTransitive(true, w, w2, w3);
    var w4 := World(2, 1, 0, Scan(1, 1, false, Some(Resend(1, 0, 0))), [Thread(Held(2), 2, 2, true, false, false)]);
    assert w3.ts[0 := w4.ts[0]] == w4.ts;
    ReachesStep(true, w3, ByThread(0), w4);
    ReachesTransitive(true, w, w3, w4);
    var w5 := World(2, 1, 0, Wait(Correct(1, Resend(1, 0, 0))), [Thread(Held(2), 2, 2, true, false, false)]);
    ReachesStep(true, w4, ByStopper(Yes), w5);
    ReachesTransitive(true, w, w4, w5);
    var w6 := World(2, 1, 0, Wait(Poll(Resend(1, 1, 0))), [Thread(Held(2), 2, 2, true, false, false)]);
    ReachesStep(true, w5, ByStopper(Yes), w6);
    ReachesTransitive(true, w, w5, w6);
    var w7 := World(2, 1, 0, Wait(Barrier(1)), [Thread(Held(2), 2, 2, true, false, false)]);
    ReachesStep(true, w6, ByStopper(Yes), w7);
    ReachesTransitive(true, w, w6, w7);
    var w8 := World(2, 0, 1, Wait(Barrier(0)), [Thread(Held(2), 2, 2, true, false, false)]);
    ReachesStep(true, w7, ByStopper(Yes), w8);
    ReachesTransitive(true, w, w7, w8);
    ReachesStep(true, w8, ByStopper(Yes), w');
    ReachesTransitive(true, w, w8, w');
  }

  /** And it stays pending until the world has been restarted. */
  lemma {:induction false} SecondSignalSurvivesRestart(w: World, w': World)
    requires w == World(2, 0, 1, Stopped, [Thread(Held(2), 2, 2, true, false, false)])
    requires w' == World(3, 0, 1, Idle, [Thread(Acked(2), 2, 2, true, false, false)])
    ensures Reaches(true, w, w')
  {
    var w1 := World(3, 0, 0, Scan(0, 0, false, None), [Thread(Held(2), 2, 2, true, false, false)]);
    ReachesStep(true, w, ByStopper(Yes), w1);
    var w2 := World(3, 0, 0, Scan(0, 0, false, None), [Thread(Woken(2), 2, 2, true, false, false)]);
    assert w1.ts[0 := w2.ts[0]] == w2.ts;
    ReachesStep(true, w1, ByThread(0), w2);
    ReachesTransitive(true, w, w1, w2);
    var w3 := World(3, 1, 0, Scan(0, 0, false, None), [Thread(Acked(2), 2, 2, true, false, false)]);
    assert w2.ts[0 := w3.ts[0]] == w3.ts;
    ReachesStep(true, w2, ByThread(0), w3);
    ReachesTransitive(true, w, w2, w3);
    var w4 := World(3, 1, 0, Scan(0, 0, true, None), [Thread(Acked(2), 2, 2, true, false, false)]);
    ReachesStep(true, w3, ByStopper(Yes), w4);
    ReachesTransitive(true, w, w3, w4);
    var w5 := World(3, 1, 0, Scan(1, 1, false, None), [Thread(Acked(2), 2, 2, true, false, false)]);
    ReachesStep(true, w4, ByStopper(Yes), w5);
    ReachesTransitive(true, w, w4, w5);
    var w6 := World(3, 1, 0, Wait(Timed(0, 1)), [Thread(Acked(2), 2, 2, true, false, false)]);
    ReachesStep(true, w5, ByStopper(Yes), w6);
    ReachesTransitive(true, w, w5, w6);
    var w7 := World(3, 0, 1, Wait(Timed(1, 1)), [Thread(Acked(2), 2, 2, true, false, false)]);
    ReachesStep(true, w6, ByStopper(Yes), w7);
    ReachesTransitive(true, w, w6, w7);
    var w8 := World(3, 0, 1, Wait(Barrier(0)), [Thread(Acked(2), 2, 2, true, false, false)]);
    ReachesStep(true, w7, ByStopper(Yes), w8);
    ReachesTransitive(true, w, w7, w8);
    ReachesStep(true, w8, ByStopper(Yes), w');
    ReachesTransitive(true, w, w8, w');
  }

  /** So a state from which a stop is not safe does come up. */
  lemma {:induction false} StaleSignalArises() returns (w0: World, w: World)
    ensures Init(w0) && Reaches(true, w0, w)
    ensures Inv(true, w) && w.op.Idle? && !StopIsSafe(true, w)
  {
    w0 := World(1, 0, 0, Idle, [Thread(Running, 0, 0, false, false, false)]);
    var w1 := World(2, 0, 0, Scan(1, 1, false, Some(Resend(1, 0, 0))), [Thread(Entered(2), 0, 0, true, false, false)]);
    var w2 := World(2, 0, 1, Stopped, [Thread(Held(2), 2, 2, true, false, false)]);
    w := World(3, 0, 1, Idle, [Thread(Acked(2), 2, 2, true, false, false)]);
    SignalSentTwice(w0, w1);
    StopCompletesWithSecondSignal(w1, w2);
    SecondSignalSurvivesRestart(w2, w);
    ReachesTransitive(true, w0, w1, w2);
    ReachesTransitive(true, w0, w2, w);
    assert w.ts[0].pending;
    StopIsSafeIff(w);
  }
}
