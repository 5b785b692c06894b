/** Stops and starts get done: from every state of one, the stopping thread and the threads
    can complete it, and a thread that has been restarted can leave the handler by itself. */
module StopProgress {
  import opened Basics
  import opened StopWorld
  import opened StaleSignal

  // ---------------------------------------------------------------- leaving the handler

  /** n steps of thread i. */
  function Alone(i: nat, n: nat): seq<Step> {
    seq(n, _ => ByThread(i))
  }

  /** How far it is out of the handler after a restart. */
  function StepsOut(pc: Pc): nat {
    match pc
    case Posted(_) => 3
    case Held(_) => 2
    case Woken(_) => 1
    case Acked(_) => 1
    case _ => 0
  }

  /** Once the world has been restarted, every thread can get out of the handler by its own
      steps, which change nothing but this thread.  With acknowledgements one step is enough. */
  lemma {:induction false} Resumes(retry: bool, w: World, i: nat) returns (n: nat, t: Thread)
    requires Inv(retry, w) && w.op.Idle? && i < |w.ts| && !w.ts[i].gone
    ensures Exec(retry, w, Alone(i, n)) == Some(w.(ts := w.ts[i := t]))
    ensures t.pc == Running && t.pending == w.ts[i].pending
    ensures n == StepsOut(w.ts[i].pc)
    decreases StepsOut(w.ts[i].pc)
  {
    assert ThreadInv(retry, w.count, w.ts[i]);
    assert retry ==> Resting(w.ts[i]);
    if w.ts[i].pc == Running {
      n, t := 0, w.ts[i];
      assert w.ts[i := t] == w.ts;
    } else {
      var w' := Do(retry, w, ByThread(i)).value;
      StepInv(retry, w, ByThread(i), w');
      assert w' == w.(ts := w.ts[i := w'.ts[i]]);
      n, t := Resumes(retry, w', i);
      n := n + 1;
      assert Alone(i, n)[1..] == Alone(i, n - 1);
      assert w'.ts[i := t] == w.ts[i := t];
    }
  }

  // ---------------------------------------------------------------- what else is known of a run

  predicate InHandler(pc: Pc) {
    pc.Entered? || pc.Checked? || pc.Saved?
  }

  predicate UnderWay(op: Op) {
    op.Scan? || op.Wait?
  }

  /** With resending, the last wait has enough posts, and whoever has not yet acknowledged the
      restart is on its way to it. */
  ghost predicate WaitsCovered(retry: bool, w: World) {
    retry && UnderWay(w.op) ==>
      && (w.op.Wait? && w.op.wait.Barrier? ==> w.op.wait.k <= w.sem)
      && (!Even(w.count) ==> forall i :: 0 <= i < |w.ts| ==> OnItsWay(w.count, w.ts[i]))
  }

  ghost predicate OnItsWay(count: nat, t: Thread) {
    TakesPart(t) ==> HasAcked(count, t) || t.pc.Posted? || t.pc.Held? || t.pc.Woken?
  }

  lemma {:induction false} ThreadCovered(w: World, i: nat, w': World)
    requires Inv(true, w) && WaitsCovered(true, w) && Do(true, w, ByThread(i)) == Some(w')
    ensures WaitsCovered(true, w')
  {
    if UnderWay(w.op) && !Even(w.count) {
      assert ThreadInv(true, w.count, w.ts[i]) && OnItsWay(w.count, w.ts[i]);
      forall k | 0 <= k < |w'.ts| ensures OnItsWay(w'.count, w'.ts[k]) {
        assert OnItsWay(w.count, w.ts[k]);
      }
    }
  }

  lemma {:induction false} BeginCovered(w: World)
    requires Inv(true, w) && (w.op.Idle? || w.op.Stopped?)
    ensures WaitsCovered(true, BeginStep(w))
  {
    if w.op.Stopped? {
      forall i | 0 <= i < |w.ts| ensures OnItsWay(w.count + 1, w.ts[i]) {
        if TakesPart(w.ts[i]) {
          assert i in Members(w.ts, |w.ts|);
          assert i in Acks(w.count, w.ts);
        }
      }
    }
  }

  lemma {:induction false} ScanCovered(w: World, c: Choice, w': World)
    requires WaitsCovered(true, w) && w.op.Scan?
    requires ScanStep(true, w, w.op.i, w.op.n, w.op.sends, w.op.again, c) == Some(w')
    ensures WaitsCovered(true, w')
  {
    assert !Even(w.count) ==> w'.ts == w.ts;
  }

  lemma {:induction false} WaitCovered(w: World, c: Choice, w': World)
    requires WaitsCovered(true, w) && w.op.Wait? && WaitStep(w, w.op.wait, c) == Some(w')
    ensures WaitsCovered(true, w')
  {
  }

  lemma {:induction false} StepCovered(retry: bool, w: World, s: Step, w': World)
    requires Inv(retry, w) && WaitsCovered(retry, w) && Do(retry, w, s) == Some(w')
    ensures WaitsCovered(retry, w')
  {
    if retry {
      match s {
        case ByThread(i) => ThreadCovered(w, i, w');
        case ByMutator(i) =>
        case ByStopper(c) =>
          match w.op {
            case Scan(_, _, _, _) => ScanCovered(w, c, w');
            case Wait(_) => WaitCovered(w, c, w');
            case _ => BeginCovered(w);
          }
      }
    }
  }

  lemma {:induction false} RunCovered(retry: bool, ws: seq<World>, steps: seq<Step>, k: nat)
    requires Run(retry, ws, steps) && CleanRun(ws, steps) && k < |ws|
    ensures Inv(retry, ws[k]) && WaitsCovered(retry, ws[k])
  {
    RunInv(retry, ws, steps, k);
    if k > 0 {
      RunCovered(retry, ws, steps, k - 1);
      StepCovered(retry, ws[k - 1], steps[k - 1], ws[k]);
    }
  }

  // ---------------------------------------------------------------- what is still to be done

  /** A member that has not acknowledged the stop and will not without a signal. */
  predicate Unsignalled(count: nat, t: Thread) {
    TakesPart(t) && !HasAcked(count, t) && !t.pending && !InHandler(t.pc)
  }

  ghost predicate NeedyIn(w: World, a: nat, b: nat) {
    exists j: nat :: a <= j < b && j < |w.ts| && Even(w.count) && Unsignalled(w.count, w.ts[j])
  }

  /** How far the thread is from its acknowledgement. */
  function Need(count: nat, t: Thread): nat {
    if !TakesPart(t) || HasAcked(count, t) then 0
    else
      match t.pc
      case Posted(_) => 9
      case Held(_) => 8
      case Woken(_) => 7
      case Acked(_) => 6
      case Running => if t.pending then 4 else 5
      case Entered(_) => 3
      case Checked(_) => 2
      case Saved(_) => 1
  }

  function SumNeed(count: nat, ts: seq<Thread>): nat {
    if ts == [] then 0 else Need(count, ts[0]) + SumNeed(count, ts[1..])
  }

  lemma {:induction false} SumUpdate(count: nat, ts: seq<Thread>, i: nat, t: Thread)
    requires i < |ts|
    ensures SumNeed(count, ts[i := t]) == SumNeed(count, ts) + Need(count, t) - Need(count, ts[i])
  {
    if i == 0 {
      assert ts[i := t][1..] == ts[1..];
    } else {
      assert ts[i := t][1..] == ts[1..][i - 1 := t];
      SumUpdate(count, ts[1..], i - 1, t);
    }
  }

  /** How far the stopping thread is from the end, when the threads have done what they can: a
      scan with somebody to send a signal to comes before the scans and waits that only count. */
  ghost function OpRank(w: World): nat {
    var n := |w.ts|;
    match w.op
    case Scan(i, _, sends, _) =>
      (if NeedyIn(w, i, n) then 0 else 3 * n + 20) + (if i < n then 2 * (n - i) else 0) + (if sends then 0 else 1)
    case Wait(Timed(_, _)) => 3 * n + 15
    case Wait(Correct(_, _)) => 3 * n + 15
    case Wait(Poll(_)) => 3 * n + 10
    case Wait(Barrier(k)) => k
    case _ => 0
  }

  ghost predicate Less(w': World, w: World) {
    || SumNeed(w'.count, w'.ts) < SumNeed(w.count, w.ts)
    || (SumNeed(w'.count, w'.ts) == SumNeed(w.count, w.ts) && OpRank(w') < OpRank(w))
  }

  /** Where the first scan has got to. */
  function Passed(w: World): nat {
    if w.op.Scan? then w.op.i else |w.ts|
  }

  /** Without resending, no member that the scan has passed waits for a signal that got lost. */
  ghost predicate NoneLost(w: World) {
    Even(w.count) ==> !NeedyIn(w, 0, Passed(w))
  }

  /** Few enough resends in a row have sent the same number of signals: the source gives up at
      RESEND_SIGNALS_LIMIT, and at most two more are needed. */
  ghost predicate Patient(w: World) {
    match w.op
    case Scan(i, _, _, Some(r)) => r.tries + (if NeedyIn(w, 0, i) then 2 else 1) < RESEND_SIGNALS_LIMIT
    case Wait(Poll(r)) => r.tries + (if NeedyIn(w, 0, |w.ts|) then 1 else 0) < RESEND_SIGNALS_LIMIT
    case Wait(Correct(_, r)) => r.tries + (if NeedyIn(w, 0, |w.ts|) then 1 else 0) < RESEND_SIGNALS_LIMIT
    case _ => true
  }

  /** A stop or start from which it is possible to go on to the end. */
  ghost predicate Good(retry: bool, w: World) {
    && Inv(retry, w) && WaitsCovered(retry, w) && UnderWay(w.op)
    && (if retry then Patient(w) else NoneLost(w))
  }

  /** A thread that can do something about its acknowledgement. */
  predicate Movable(retry: bool, w: World, i: nat) {
    && i < |w.ts| && TakesPart(w.ts[i]) && !HasAcked(w.count, w.ts[i])
    && (Even(w.count) || retry) && ThreadStep(retry, w.count, w.ts[i]).Some?
  }

  lemma {:induction false} ThreadNeeds(retry: bool, count: nat, t: Thread)
    requires ThreadInv(retry, count, t) && TakesPart(t) && !HasAcked(count, t) && ThreadStep(retry, count, t).Some?
    requires Even(count) || (retry && OnItsWay(count, t))
    ensures
      var t' := ThreadStep(retry, count, t).value.0;
      Need(count, t') < Need(count, t) && (Unsignalled(count, t') ==> Unsignalled(count, t))
  {
  }

  lemma {:induction false} ThreadProgress(retry: bool, w: World, i: nat, w': World)
    requires Good(retry, w) && Movable(retry, w, i) && Do(retry, w, ByThread(i)) == Some(w')
    ensures Good(retry, w') && Less(w', w)
  {
    assert ThreadInv(retry, w.count, w.ts[i]);
    assert !Even(w.count) ==> OnItsWay(w.count, w.ts[i]);
    ThreadNeeds(retry, w.count, w.ts[i]);
    StepInv(retry, w, ByThread(i), w');
    StepCovered(retry, w, ByThread(i), w');
    SumUpdate(w.count, w.ts, i, w'.ts[i]);
    assert w'.ts == w.ts[i := w'.ts[i]];
    forall a: nat, b: nat | NeedyIn(w', a, b) ensures NeedyIn(w, a, b) {
      var j: nat :| a <= j < b && j < |w'.ts| && Even(w'.count) && Unsignalled(w'.count, w'.ts[j]);
      assert Unsignalled(w.count, w.ts[j]);
    }
  }

  // ---------------------------------------------------------------- the stopping thread goes on

  /** No thread can do anything about its acknowledgement. */
  ghost predicate Still(retry: bool, w: World) {
    forall i: nat :: !Movable(retry, w, i)
  }

  /** Then every member has acknowledged or, in a stop, is waiting for a signal. */
  lemma {:induction false} StillMeans(retry: bool, w: World, i: nat)
    requires Good(retry, w) && Still(retry, w) && i < |w.ts| && TakesPart(w.ts[i]) && (Even(w.count) || retry)
    ensures HasAcked(w.count, w.ts[i]) || (Even(w.count) && Unsignalled(w.count, w.ts[i]) && w.ts[i].pc == Running)
  {
    assert ThreadInv(retry, w.count, w.ts[i]);
    assert !Movable(retry, w, i);
    assert !Even(w.count) ==> OnItsWay(w.count, w.ts[i]);
  }

  lemma {:induction false} AllAcked(retry: bool, w: World)
    requires Good(retry, w) && Still(retry, w) && (Even(w.count) || retry) && !NeedyIn(w, 0, |w.ts|)
    ensures Acks(w.count, w.ts) == Members(w.ts, |w.ts|)
  {
    AcksAreMembers(w.count, w.ts);
    forall i | i in Members(w.ts, |w.ts|) ensures i in Acks(w.count, w.ts) {
      StillMeans(retry, w, i);
    }
  }

  lemma {:induction false} MembersCard(ts: seq<Thread>, n: nat)
    requires n <= |ts|
    ensures |Members(ts, n)| <= n
  {
    if n == 0 {
      assert Members(ts, 0) == {};
    } else {
      MembersCard(ts, n - 1);
      MembersNext(ts, n - 1);
      assert |Members(ts, n)| <= |Members(ts, n - 1)| + 1;
    }
  }

  /** The scan has gone past the last thread. */
  lemma {:induction false} ScanEnds(retry: bool, w: World, w': World)
    requires Good(retry, w) && w.op.Scan? && w.op.i >= |w.ts| && Do(retry, w, ByStopper(Yes)) == Some(w')
    ensures w'.op.Idle? || (Good(retry, w') && Less(w', w))
  {
    StepInv(retry, w, ByStopper(Yes), w');
    StepCovered(retry, w, ByStopper(Yes), w');
    MembersCard(w.ts, |w.ts|);
    assert Members(w.ts, w.op.i) == Members(w.ts, |w.ts|);
    assert !NeedyIn(w, w.op.i, |w.ts|);
    assert NeedyIn(w, 0, w.op.i) <==> NeedyIn(w', 0, |w.ts|);
  }

  /** The scan decides whether thread i gets a signal. */
  lemma {:induction false} ScanChecks(retry: bool, w: World, w': World)
    requires Good(retry, w) && w.op.Scan? && w.op.i < |w.ts| && !w.op.sends && Do(retry, w, ByStopper(Yes)) == Some(w')
    ensures Good(retry, w') && Less(w', w)
  {
    var i, n := w.op.i, |w.ts|;
    StepInv(retry, w, ByStopper(Yes), w');
    StepCovered(retry, w, ByStopper(Yes), w');
    assert ThreadInv(retry, w.count, w.ts[i]);
    assert w'.op.i == i ==> (NeedyIn(w', i, n) <==> NeedyIn(w, i, n)) && (NeedyIn(w', 0, i) <==> NeedyIn(w, 0, i));
    if w'.op.i == i + 1 {
      assert !Even(w.count) || !Unsignalled(w.count, w.ts[i]);
      NeedyPast(w, w', i);
    }
  }

  /** Going past a thread that does not wait for a signal makes no difference. */
  lemma NeedyPast(w: World, w': World, i: nat)
    requires w'.ts == w.ts && w'.count == w.count && i < |w.ts|
    requires !Even(w.count) || !Unsignalled(w.count, w.ts[i])
    ensures NeedyIn(w', i + 1, |w.ts|) <==> NeedyIn(w, i, |w.ts|)
    ensures NeedyIn(w', 0, i + 1) <==> NeedyIn(w, 0, i)
  {
    if j: nat :| i <= j < |w.ts| && j < |w.ts| && Even(w.count) && Unsignalled(w.count, w.ts[j]) {
      assert j != i;
    }
  }

  /** The scan sends the signal, and it is not lost. */
  lemma {:induction false} ScanSends(retry: bool, w: World, w': World)
    requires Good(retry, w) && Still(retry, w)
    requires w.op.Scan? && w.op.i < |w.ts| && w.op.sends && Do(retry, w, ByStopper(Yes)) == Some(w')
    ensures Good(retry, w') && Less(w', w)
  {
    var i := w.op.i;
    StepInv(retry, w, ByStopper(Yes), w');
    StepCovered(retry, w, ByStopper(Yes), w');
    if w.ts[i].gone || !Even(w.count) {
      NeedyPast(w, w', i);
    } else {
      StillMeans(retry, w, i);
      var t := w.ts[i].(pending := true);
      SumUpdate(w.count, w.ts, i, t);
      Raised(w, w', i);
    }
  }

  /** What raising the signal means for those that wait for one. */
  lemma Raised(w: World, w': World, i: nat)
    requires i < |w.ts| && w'.ts == w.ts[i := w.ts[i].(pending := true)] && w'.count == w.count
    ensures NeedyIn(w', 0, i + 1) <==> NeedyIn(w, 0, i)
    ensures !Unsignalled(w.count, w.ts[i]) ==> (NeedyIn(w', i + 1, |w.ts|) <==> NeedyIn(w, i, |w.ts|))
  {
    forall j: nat | j < |w.ts| && j != i ensures w'.ts[j] == w.ts[j] {
    }
    if NeedyIn(w, 0, i) {
      var j: nat :| 0 <= j < i && j < |w.ts| && Even(w.count) && Unsignalled(w.count, w.ts[j]);
      assert Unsignalled(w'.count, w'.ts[j]);
    }
    if NeedyIn(w, i, |w.ts|) && !Unsignalled(w.count, w.ts[i]) {
      var j: nat :| i <= j < |w.ts| && j < |w.ts| && Even(w.count) && Unsignalled(w.count, w.ts[j]);
      assert Unsignalled(w'.count, w'.ts[j]);
    }
  }

  /** The choice that gets a wait over with. */
  function WaitChoice(w: World): Choice {
    if w.op.Wait? && w.op.wait.Timed? then No else Yes
  }

  lemma {:induction false} WaitProgress(retry: bool, w: World) returns (w': World)
    requires Good(retry, w) && Still(retry, w) && w.op.Wait?
    ensures Do(retry, w, ByStopper(WaitChoice(w))) == Some(w')
    ensures w'.op == (if Even(w.count) then Stopped else Idle) || (Good(retry, w') && Less(w', w))
  {
    EnoughPosts(retry, w);
    w' := WaitStep(w, w.op.wait, WaitChoice(w)).value;
    StepInv(retry, w, ByStopper(WaitChoice(w)), w');
    StepCovered(retry, w, ByStopper(WaitChoice(w)), w');
    MembersCard(w.ts, |w.ts|);
    assert NeedyIn(w, 0, |w.ts|) <==> NeedyIn(w', 0, |w.ts|);
    assert !NeedyIn(w', 0, 0);
  }

  /** Nobody who has to be waited for lacks a signal, or the polling loop sends one again. */
  lemma EnoughPosts(retry: bool, w: World)
    requires Good(retry, w) && Still(retry, w) && w.op.Wait?
    ensures w.op.wait.Barrier? && w.op.wait.k > 0 ==> w.sem > 0
    ensures w.op.wait.Poll? && w.sem != w.op.wait.r.n ==> NeedyIn(w, 0, |w.ts|)
  {
    if !NeedyIn(w, 0, |w.ts|) && (Even(w.count) || retry) {
      AllAcked(retry, w);
    }
  }

  lemma {:induction false} ScanProgress(retry: bool, w: World) returns (w': World)
    requires Good(retry, w) && Still(retry, w) && w.op.Scan?
    ensures Do(retry, w, ByStopper(Yes)) == Some(w') && w'.count == w.count
    ensures w'.op == (if Even(w.count) then Stopped else Idle) || (Good(retry, w') && Less(w', w))
  {
    w' := ScanStep(retry, w, w.op.i, w.op.n, w.op.sends, w.op.again, Yes).value;
    if w.op.i >= |w.ts| {
      ScanEnds(retry, w, w');
    } else if w.op.sends {
      ScanSends(retry, w, w');
    } else {
      ScanChecks(retry, w, w');
    }
  }

  /** From every state of a stop or start it is possible to go on. */
  lemma {:induction false} Progress(retry: bool, w: World) returns (s: Step, w': World)
    requires Good(retry, w)
    ensures s.ByThread? || s.ByStopper?
    ensures Do(retry, w, s) == Some(w') && w'.count == w.count
    ensures w'.op == (if Even(w.count) then Stopped else Idle) || (Good(retry, w') && Less(w', w))
  {
    if i: nat :| Movable(retry, w, i) {
      s := ByThread(i);
      w' := Do(retry, w, s).value;
      ThreadProgress(retry, w, i, w');
    } else {
      s := ByStopper(WaitChoice(w));
      if w.op.Wait? {
        w' := WaitProgress(retry, w);
      } else {
        w' := ScanProgress(retry, w);
      }
    }
  }

  /** And to get to the end. */
  lemma {:induction false} CanComplete(retry: bool, w: World) returns (w': World)
    requires Good(retry, w)
    ensures Reaches(retry, w, w') && w'.count == w.count && w'.op == if Even(w.count) then Stopped else Idle
    decreases SumNeed(w.count, w.ts), OpRank(w)
  {
    var s, w1 := Progress(retry, w);
    ReachesStep(retry, w, s, w1);
    if w1.op == if Even(w.count) then Stopped else Idle {
      w' := w1;
    } else {
      w' := CanComplete(retry, w1);
      ReachesTransitive(retry, w, w1, w');
    }
  }

  /** With resending: whatever signals have been lost so far, in every state of a stop or start
      of a clean run it can be completed, until the same number of signals has been sent again
      too often in a row. */
  lemma RetryCompletes(ws: seq<World>, steps: seq<Step>, k: nat) returns (w': World)
    requires Run(true, ws, steps) && CleanRun(ws, steps) && k < |ws|
    requires UnderWay(ws[k].op) && Patient(ws[k])
    ensures Reaches(true, ws[k], w') && w'.count == ws[k].count && w'.op == if Even(w'.count) then Stopped else Idle
  {
    RunCovered(true, ws, steps, k);
    w' := CanComplete(true, ws[k]);
  }

  /** Without resending, a start can always be completed, and a stop if and only if no signal
      has been lost that the scan has already sent. */
  lemma CompletesIff(ws: seq<World>, steps: seq<Step>, k: nat)
    requires Run(false, ws, steps) && k < |ws| && UnderWay(ws[k].op)
    ensures (exists w' :: Reaches(false, ws[k], w') && Completed(ws[k], w')) <==> NoneLost(ws[k])
  {
    NoRetryRunClean(ws, steps, k);
    if NoneLost(ws[k]) {
      var w' := CanComplete(false, ws[k]);
      assert Completed(ws[k], w');
    } else {
      forall w' | Reaches(false, ws[k], w') ensures !Completed(ws[k], w') {
        var t :| Exec(false, ws[k], t) == Some(w');
        LostForGood(ws[k], t);
      }
    }
  }

  predicate Completed(w: World, w': World) {
    w'.count == w.count && w'.op == if Even(w.count) then Stopped else Idle
  }

  /** A member that the scan has passed, whose signal is lost, will never acknowledge. */
  lemma {:induction false} LostForGood(w: World, steps: seq<Step>)
    requires Inv(false, w) && UnderWay(w.op) && Even(w.count) && NeedyIn(w, 0, Passed(w))
    requires Exec(false, w, steps).Some?
    ensures !Completed(w, Exec(false, w, steps).value)
    decreases |steps|
  {
    if steps != [] {
      var w1 := Do(false, w, steps[0]).value;
      StaysLost(w, steps[0], w1);
      StepInv(false, w, steps[0], w1);
      LostForGood(w1, steps[1..]);
    }
  }

  lemma OneMissing(w: World, j: nat)
    requires Inv(false, w) && Even(w.count) && j < |w.ts| && Unsignalled(w.count, w.ts[j])
    ensures w.op.Wait? && w.op.wait.Barrier? ==> w.op.wait.k > 0
  {
    AcksAreMembers(w.count, w.ts);
    SubsetSize(Acks(w.count, w.ts), Members(w.ts, |w.ts|) - {j});
  }

  lemma {:induction false} ThreadStaysLost(count: nat, t: Thread)
    requires ThreadInv(false, count, t) && Even(count) && Unsignalled(count, t) && ThreadStep(false, count, t).Some?
    ensures Unsignalled(count, ThreadStep(false, count, t).value.0)
  {
  }

  /** The stopping thread does nothing any more for a thread it has passed. */
  lemma {:induction false} StopperPassesOn(w: World, c: Choice, w': World, j: nat)
    requires Inv(false, w) && UnderWay(w.op) && Even(w.count) && j < Passed(w) && j < |w.ts|
    requires w.op.Wait? && w.op.wait.Barrier? ==> w.op.wait.k > 0
    requires OpStep(false, w, c) == Some(w')
    ensures UnderWay(w'.op) && w'.count == w.count && j < Passed(w') && |w'.ts| == |w.ts| && w'.ts[j] == w.ts[j]
  {
  }

  lemma {:induction false} StaysLost(w: World, s: Step, w': World)
    requires Inv(false, w) && UnderWay(w.op) && Even(w.count) && NeedyIn(w, 0, Passed(w))
    requires Do(false, w, s) == Some(w')
    ensures UnderWay(w'.op) && w'.count == w.count && NeedyIn(w', 0, Passed(w'))
  {
    var j: nat :| 0 <= j < Passed(w) && j < |w.ts| && Unsignalled(w.count, w.ts[j]);
    assert ThreadInv(false, w.count, w.ts[j]);
    match s {
      case ByThread(i) =>
        if i == j {
          ThreadStaysLost(w.count, w.ts[j]);
        }
      case ByMutator(_) =>
      case ByStopper(c) =>
        OneMissing(w, j);
        StopperPassesOn(w, c, w', j);
    }
    assert Unsignalled(w'.count, w'.ts[j]);
  }

  /** While a stop or start is under way and no signal is lost for good, some step changes the
      state: nobody waits for ever. */
  lemma NoDeadlock(retry: bool, ws: seq<World>, steps: seq<Step>, k: nat) returns (s: Step)
    requires Run(retry, ws, steps) && CleanRun(ws, steps) && k < |ws| && UnderWay(ws[k].op)
    requires !retry ==> NoneLost(ws[k])
    ensures (s.ByThread? || s.ByStopper?) && Do(retry, ws[k], s).Some? && Do(retry, ws[k], s).value != ws[k]
  {
    RunCovered(retry, ws, steps, k);
    if retry {
      s := ByStopper(WaitChoice(ws[k]));
    } else {
      var w';
      s, w' := Progress(retry, ws[k]);
    }
  }

  /** The number of resends in a row, up to this one, that have sent as many signals as before. */
  function InARow(n: nat, r: Resend): nat {
    if n == r.prev then r.tries + 1 else 0
  }

  /** Resending is given up exactly at the 150th of them, and not from a state called patient. */
  lemma GivesUp(w: World, w': World)
    requires w.op.Scan? && w.op.i == |w.ts| && w.op.again.Some? && Do(true, w, ByStopper(Yes)) == Some(w')
    ensures w'.op == if InARow(w.op.n, w.op.again.value) >= 150 then Aborted
                     else Wait(Correct(w.op.n, w.op.again.value.(tries := InARow(w.op.n, w.op.again.value))))
    ensures Patient(w) ==> !w'.op.Aborted?
  {
  }
}
