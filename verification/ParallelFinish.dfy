/** Parallel marking can always be finished: wherever a run has got to, there is a way to go on
    after which every worker has left.  One worker at a time is let run alone, as long as it
    finds anything to do; it never gives back entries because its credit is used up. */
module ParallelFinish {
  import opened Basics
  import opened MarkHeap
  import opened ParallelMark

  // ---------------------------------------------------------------- how much is to be done

  /** Bound on the steps needed to scan an entry; a halved or cut entry has less than the whole. */
  function EntryWork(len: nat): (w: nat)
    ensures len < w
    ensures len > SHARE_WORDS ==> EntryWork(len / 2 + 1) + EntryWork(len - len / 2) < w
    ensures len >= SPLIT_RANGE_PTRS ==> EntryWork(len - (SPLIT_RANGE_PTRS - 1)) + (SPLIT_RANGE_PTRS - 1) < w
    decreases len
  {
    if len < 3 then 4 else 4 * len - 6
  }

  function LocalWork(local: seq<Entry>): nat {
    if local == [] then 0 else LocalWork(local[..|local| - 1]) + EntryWork(local[|local| - 1].len)
  }

  /** An entry not yet stolen has to be moved before it is scanned. */
  function StackWork(stack: seq<Entry>): nat {
    if stack == [] then 0 else StackWork(stack[..|stack| - 1]) + Unstolen(stack[|stack| - 1])
  }

  function Unstolen(e: Entry): nat {
    if e.len == 0 then 0 else EntryWork(e.len) + 4
  }

  lemma {:induction false} StackWorkUpdate(stack: seq<Entry>, p: nat, e: Entry)
    requires p < |stack|
    ensures StackWork(stack[p := e]) == StackWork(stack) + Unstolen(e) - Unstolen(stack[p])
  {
    var n := |stack| - 1;
    if p < n {
      assert stack[p := e][..n] == stack[..n][p := e];
      StackWorkUpdate(stack[..n], p, e);
    } else {
      assert stack[p := e][..n] == stack[..n];
    }
  }

  lemma {:induction false} LocalWorkPush(local: seq<Entry>, e: Entry)
    ensures LocalWork(local + [e]) == LocalWork(local) + EntryWork(e.len)
  {
    assert (local + [e])[..|local|] == local;
  }

  lemma {:induction false} LocalWorkPrefix(local: seq<Entry>, n: nat)
    requires n <= |local|
    ensures LocalWork(local[..n]) <= LocalWork(local)
  {
    if n < |local| {
      assert local[..|local| - 1][..n] == local[..n];
      LocalWorkPrefix(local[..|local| - 1], n);
    } else {
      assert local[..n] == local;
    }
  }

  lemma {:induction false} WordsCard(start: nat, len: nat)
    ensures |Words(Entry(start, len))| <= len
  {
    if len == 0 {
      assert Words(Entry(start, 0)) == {};
    } else {
      WordsCard(start, len - 1);
      assert Words(Entry(start, len)) == Words(Entry(start, len - 1)) + {start + len - 1};
    }
  }

  lemma {:induction false} TakeTopLess(local: seq<Entry>)
    requires |local| > 0
    ensures LocalWork(TakeTop(local).0) + |TakeTop(local).1| < LocalWork(local)
  {
    var e, rest := local[|local| - 1], local[..|local| - 1];
    if e.len < SPLIT_RANGE_PTRS {
      WordsCard(e.start, e.len);
    } else if e.len > SHARE_WORDS && |local| < LOCAL_MARK_STACK_SIZE {
      LocalWorkPush(rest, Entry(e.start, e.len / 2 + 1));
      LocalWorkPush(rest + [Entry(e.start, e.len / 2 + 1)], Entry(e.start + e.len / 2, e.len - e.len / 2));
    } else {
      LocalWorkPush(rest, Entry(e.start + (SPLIT_RANGE_PTRS - 1), e.len - (SPLIT_RANGE_PTRS - 1)));
      WordsCard(e.start, SPLIT_RANGE_PTRS - 1);
    }
  }

  lemma {:induction false} PushLocalWork(local: seq<Entry>, e: Entry)
    ensures LocalWork(PushLocal(local, e).0) <= LocalWork(local) + EntryWork(e.len)
  {
    var n := if |local| >= LOCAL_MARK_STACK_SIZE then |local| - MARK_STACK_DISCARDS else |local|;
    assert local[..|local|] == local;
    assert PushLocal(local, e).0 == local[..n] + [e];
    LocalWorkPush(local[..n], e);
    LocalWorkPrefix(local, n);
  }

  /** The work a worker has in hand at its place in the program. */
  ghost function PcWork(c: Config, g: Shared, pc: Pc): nat
    requires c.h.BlocksValid()
  {
    match pc
    case Steal(p, _, _, _, Store(d)) => if p < |g.stack| && g.stack[p].len != 0 then 0 else EntryWork(d) + 3
    case Steal(_, _, _, _, Copy(d)) => EntryWork(d) + 2
    case Mark(SetBit(_, o)) => if o in g.marked && o in c.h.home then EntryWork(c.h.Fields(o).len) + 2 else 0
    case Mark(PushObject(o)) => if o in c.h.home then EntryWork(c.h.Fields(o).len) + 1 else 0
    case _ => 0
  }

  ghost function Todo(c: Config, g: Shared, w: Worker): nat
    requires c.h.BlocksValid()
  {
    StackWork(g.stack) + LocalWork(w.local) + |w.todo| + PcWork(c, g, w.pc)
  }

  /** How far a worker is from being done with sharing. */
  function Sharing(pc: Pc): nat {
    match pc
    case Share(SeeTop) => 5
    case Share(SeeFirst(_)) => 4
    case Share(SeeHelpers) => 3
    case Share(Notify(_)) => 1
    case Share(_) => 2
    case _ => 0
  }

  /** A thief that will get past the entries it has passed so far. */
  predicate Getting(w: Worker)
    requires w.pc.Steal?
  {
    w.myFirst < w.pc.high && (w.myFirst < w.pc.p || w.pc.taken <= w.pc.wanted)
  }

  /** How far a worker that has nothing to scan is from seeing the stack as it is. */
  function Place(g: Shared, w: Worker): nat {
    var behind, stale := w.myFirst < |g.stack|, g.first < |g.stack|;
    match w.pc
    case Steal(_, _, _, _, _) => if Getting(w) then 20 else 60
    case Mark(Scan) => 50
    case Seek(AtTop) => 40
    case Seek(HaveFirst(f)) => if behind || !stale || f == g.first then 35 else 56
    case Seek(ReadTop) => if behind || !stale then 30 else 55
    case Seek(NeedLock) => if behind || !stale then 25 else 54
    case Wait(WaitTest) => if stale then 53 else 0
    case Wait(ExitTest) => 52
    case _ => 0
  }

  function Stealing(pc: Pc): nat {
    if pc.Steal? && pc.p <= pc.high then
      3 * (pc.high - pc.p) + (match pc.steal case Look => 2 case Store(_) => 1 case Copy(_) => 0)
    else 0
  }

  function Above(stack: seq<Entry>, n: nat): nat {
    if n < |stack| then |stack| - n else 0
  }

  /** Progress of the only worker that runs: objects to mark, sharing, scanning, what is left to
      see of the stack, and the place in the program. */
  ghost predicate Lower(c: Config, g: Shared, w: Worker, e: Effect)
    requires c.h.BlocksValid()
  {
    || g.marked < e.g.marked
    || (e.g.marked == g.marked &&
        (|| Sharing(e.w.pc) < Sharing(w.pc)
         || (Sharing(e.w.pc) == Sharing(w.pc) &&
             (|| Todo(c, e.g, e.w) < Todo(c, g, w)
              || (Todo(c, e.g, e.w) == Todo(c, g, w) && Nearer(g, w, e))))))
  }

  ghost predicate Nearer(g: Shared, w: Worker, e: Effect) {
    || Above(e.g.stack, e.g.first) < Above(g.stack, g.first)
    || (Above(e.g.stack, e.g.first) == Above(g.stack, g.first) &&
        (|| Above(e.g.stack, e.w.myFirst) < Above(g.stack, w.myFirst)
         || (Above(e.g.stack, e.w.myFirst) == Above(g.stack, w.myFirst) &&
             (|| Place(e.g, e.w) < Place(g, w)
              || (Place(e.g, e.w) == Place(g, w) && Stealing(e.w.pc) < Stealing(w.pc))))))
  }

  /** A step that a worker takes when it runs alone. */
  predicate Onward(w: Worker, act: Act) {
    if w.pc == Mark(Scan) && w.todo != {} then act.Pick? && act.a in w.todo else act.Go?
  }

  lemma {:induction false} SeekLower(c: Config, g: Shared, n: nat, i: nat, w: Worker, act: Act)
    requires c.h.BlocksValid() && Ready(c, g, n, i, w, act) && w.pc.Seek?
    ensures Lower(c, g, w, StepSeek(g, i, w, w.pc.seek))
  {
    match w.pc.seek {
      case AtTop =>
      case HaveFirst(f) => FirstLower(c, g, i, w, f);
      case ReadTop =>
      case NeedLock =>
    }
  }

  lemma {:induction false} FirstLower(c: Config, g: Shared, i: nat, w: Worker, f: nat)
    requires c.h.BlocksValid() && w.pc == Seek(HaveFirst(f)) && w.myFirst <= |g.stack| && f <= |g.stack|
    ensures Lower(c, g, w, StepSeek(g, i, w, HaveFirst(f)))
  {
  }

  lemma {:induction false} StealLower(c: Config, g: Shared, n: nat, i: nat, w: Worker, act: Act)
    requires c.h.BlocksValid() && Ready(c, g, n, i, w, act) && w.pc.Steal?
    ensures Lower(c, g, w, StepSteal(g, w))
  {
    match w.pc.steal {
      case Look => LookLower(c, g, w);
      case Store(d) => StackWorkUpdate(g.stack, w.pc.p, Entry(g.stack[w.pc.p].start, 0));
      case Copy(d) => LocalWorkPush(w.local, Entry(g.stack[w.pc.p].start, d));
    }
  }

  lemma {:induction false} LookLower(c: Config, g: Shared, w: Worker)
    requires c.h.BlocksValid() && w.pc.Steal? && w.pc.steal.Look? && StealShape(g.stack, w)
    ensures Lower(c, g, w, StepSteal(g, w))
  {
  }

  lemma {:induction false} MarkLower(c: Config, g: Shared, n: nat, i: nat, w: Worker, act: Act)
    requires c.h.BlocksValid() && c.live <= c.h.Objs()
    requires Ready(c, g, n, i, w, act) && w.pc.Mark? && Onward(w, act)
    ensures Lower(c, g, w, StepMark(c.h, g, w, w.pc.mark, act))
  {
    match w.pc.mark {
      case Scan => ScanLower(c, g, w, act);
      case SetBit(_, o) =>
        assert o in g.marked ==> g.marked + {o} == g.marked;
      case PushObject(o) => PushLower(c, g, w, o, act);
    }
  }

  lemma {:induction false} ScanLower(c: Config, g: Shared, w: Worker, act: Act)
    requires c.h.BlocksValid() && w.pc == Mark(Scan) && Onward(w, act)
    ensures Lower(c, g, w, StepMark(c.h, g, w, Scan, act))
  {
    if act.Go? && |w.local| > 0 {
      TakeTopLess(w.local);
    }
  }

  lemma {:induction false} PushLower(c: Config, g: Shared, w: Worker, o: nat, act: Act)
    requires c.h.BlocksValid() && o in c.h.home && w.pc == Mark(PushObject(o))
    ensures Lower(c, g, w, StepMark(c.h, g, w, PushObject(o), act))
  {
    var e := c.h.Fields(o);
    PushLocalWork(w.local, e);
    assert Todo(c, g, w) == StackWork(g.stack) + LocalWork(w.local) + |w.todo| + EntryWork(e.len) + 1;
    var local := if e.len == 0 then w.local else PushLocal(w.local, e).0;
    var r := StepMark(c.h, g, w, PushObject(o), act);
    assert r.w == w.(pc := Mark(Scan), local := local) && r.g.stack == g.stack && r.g.marked == g.marked;
    assert Todo(c, r.g, r.w) == StackWork(g.stack) + LocalWork(local) + |w.todo|;
  }

  lemma {:induction false} ShareLower(c: Config, g: Shared, n: nat, i: nat, w: Worker, act: Act)
    requires c.h.BlocksValid() && Ready(c, g, n, i, w, act) && w.pc.Share?
    ensures Lower(c, g, w, StepShare(c.size, g, w, w.pc.share))
  {
  }

  /** A worker that has found nothing while something was left on the stack looks again. */
  lemma {:induction false} WaitLower(c: Config, g: Shared, n: nat, i: nat, w: Worker, act: Act)
    requires c.h.BlocksValid() && Ready(c, g, n, i, w, act)
    requires (w.pc == Wait(WaitTest) || w.pc == Wait(ExitTest)) && g.first < |g.stack|
    ensures Lower(c, g, w, StepWait(g, i, w, w.pc.wait))
    ensures var pc := StepWait(g, i, w, w.pc.wait).w.pc; pc == Wait(ExitTest) || pc == Seek(AtTop)
  {
  }

  // ---------------------------------------------------------------- one worker alone

  ghost predicate Reaches(c: Config, s: State, s': State) {
    exists r :: Steps(c, r) && r[0] == s && r[|r| - 1] == s'
  }

  lemma ReachesSelf(c: Config, s: State)
    ensures Reaches(c, s, s)
  {
    assert Steps(c, [s]);
  }

  lemma ReachesStep(c: Config, s: State, i: nat, act: Act, s': State)
    requires NextBy(c, s, i, act, s')
    ensures Reaches(c, s, s')
  {
    assert Steps(c, [s, s']);
  }

  lemma ReachesTransitive(c: Config, s: State, s': State, s'': State)
    requires Reaches(c, s, s') && Reaches(c, s', s'')
    ensures Reaches(c, s, s'')
  {
    var q :| Steps(c, q) && q[0] == s && q[|q| - 1] == s';
    var r :| Steps(c, r) && r[0] == s' && r[|r| - 1] == s'';
    var t := q + r[1..];
    forall j | 0 <= j < |t| - 1 ensures Next(c, t[j], t[j + 1]) {
      if j < |q| - 1 {
        assert Next(c, q[j], q[j + 1]);
      } else {
        assert t[j] == r[j - (|q| - 1)] && t[j + 1] == r[j - (|q| - 1) + 1];
      }
    }
    assert Steps(c, t) && t[0] == s && t[|t| - 1] == s'';
  }

  /** Nothing has happened to the other workers, but that they may have been woken up. */
  ghost predicate OthersSame(s: State, s': State, i: nat) {
    && |s'.ws| == |s.ws|
    && forall k :: 0 <= k < |s.ws| && k != i ==> s'.ws[k] == s.ws[k] || s'.ws[k] == Awake(s.ws[k])
  }

  ghost predicate OthersWithoutLock(s: State, i: nat) {
    forall k :: 0 <= k < |s.ws| && k != i ==> !HoldsLock(s.ws[k].pc)
  }

  /** All entries of the shared stack have been stolen, and the workers can see it. */
  predicate UsedUp(g: Shared) {
    |g.stack| <= g.first
  }

  /** Worker i looks for work or has some. */
  ghost predicate Running(s: State, i: nat) {
    && i < |s.ws| && OthersWithoutLock(s, i)
    && (Active(s.ws[i].pc) || ((s.ws[i].pc == Wait(WaitTest) || s.ws[i].pc == Wait(ExitTest)) && !UsedUp(s.g)))
  }

  lemma {:induction false} SoloStep(c: Config, s: State, i: nat) returns (act: Act, s': State)
    requires Inv(c, s) && Running(s, i)
    ensures NextBy(c, s, i, act, s') && Inv(c, s') && OthersSame(s, s', i)
    ensures Lower(c, s.g, s.ws[i], StepOf(c, s, i, act)) && s'.g == StepOf(c, s, i, act).g && s'.ws[i] == StepOf(c, s, i, act).w
    ensures Running(s', i) || (s'.ws[i].pc == Wait(WaitTest) && UsedUp(s'.g) && OthersWithoutLock(s', i))
  {
    var w := s.ws[i];
    act := Go;
    if w.pc == Mark(Scan) && w.todo != {} {
      var a :| a in w.todo;
      act := Pick(a);
    }
    assert s.g.lock.Some? ==> s.g.lock.value == i;
    var e := StepOf(c, s, i, act);
    s' := Commit(s, i, e);
    NextInv(c, s, i, act, s');
    StepGood(c, s, i, act);
    assert s'.ws[i] == e.w;
    SoloLower(c, s, i, act);
    SoloPlace(c, s, i, act);
  }

  lemma {:induction false} SoloLower(c: Config, s: State, i: nat, act: Act)
    requires Inv(c, s) && Running(s, i) && CanStep(c, s, i, act) && Onward(s.ws[i], act)
    ensures Lower(c, s.g, s.ws[i], StepOf(c, s, i, act))
  {
    var g, n, w := s.g, |s.ws|, s.ws[i];
    assert Ready(c, g, n, i, w, act);
    match w.pc {
      case Seek(_) => SeekLower(c, g, n, i, w, act);
      case Wait(_) => WaitLower(c, g, n, i, w, act);
      case Steal(_, _, _, _, _) => StealLower(c, g, n, i, w, act);
      case Mark(_) => MarkLower(c, g, n, i, w, act);
      case Share(_) => ShareLower(c, g, n, i, w, act);
      case _ =>
    }
  }

  /** It goes on running until it has found the stack used up. */
  lemma {:induction false} SoloPlace(c: Config, s: State, i: nat, act: Act)
    requires Inv(c, s) && Running(s, i) && CanStep(c, s, i, act) && Onward(s.ws[i], act)
    ensures
      var e := StepOf(c, s, i, act);
      Active(e.w.pc) || e.w.pc == Wait(WaitTest) || (e.w.pc == Wait(ExitTest) && !UsedUp(e.g))
  {
    match s.ws[i].pc {
      case Seek(_) =>
      case Wait(_) =>
      case Steal(_, _, _, _, _) =>
      case Mark(_) =>
      case Share(_) =>
      case _ =>
    }
  }

  /** Left alone, a worker gets through all work it finds. */
  lemma {:induction false} Solo(c: Config, s: State, i: nat) returns (s': State)
    requires Inv(c, s) && Running(s, i)
    ensures Reaches(c, s, s') && Inv(c, s') && OthersSame(s, s', i)
    ensures s'.ws[i].pc == Wait(WaitTest) && UsedUp(s'.g) && OthersWithoutLock(s', i)
    decreases c.live - s.g.marked, Sharing(s.ws[i].pc), Todo(c, s.g, s.ws[i]), Above(s.g.stack, s.g.first),
      Above(s.g.stack, s.ws[i].myFirst), Place(s.g, s.ws[i]), Stealing(s.ws[i].pc)
  {
    var act, s1 := SoloStep(c, s, i);
    ReachesStep(c, s, i, act, s1);
    if Running(s1, i) {
      assert s.g.marked < s1.g.marked ==> c.live - s1.g.marked < c.live - s.g.marked;
      s' := Solo(c, s1, i);
      ReachesTransitive(c, s, s1, s');
    } else {
      s' := s1;
    }
  }

  // ---------------------------------------------------------------- everybody leaves

  lemma {:induction false} Take(c: Config, s: State, i: nat, act: Act) returns (s': State)
    requires Inv(c, s) && CanStep(c, s, i, act)
    ensures Reaches(c, s, s') && Inv(c, s') && OthersSame(s, s', i)
    ensures s'.g == StepOf(c, s, i, act).g && s'.ws[i] == StepOf(c, s, i, act).w
  {
    s' := Commit(s, i, StepOf(c, s, i, act));
    NextInv(c, s, i, act, s');
    ReachesStep(c, s, i, act, s');
    StepGood(c, s, i, act);
  }

  lemma OthersTransitive(s: State, s': State, s'': State, i: nat)
    requires OthersSame(s, s', i) && OthersSame(s', s'', i)
    ensures OthersSame(s, s'', i)
  {
    forall k | 0 <= k < |s.ws| && k != i ensures s''.ws[k] == s.ws[k] || s''.ws[k] == Awake(s.ws[k]) {
      assert s'.ws[k] == s.ws[k] || s'.ws[k] == Awake(s.ws[k]);
    }
  }

  predicate Present(pc: Pc) {
    !pc.Absent? && !pc.Gone?
  }

  ghost function Crowd(s: State): nat {
    Count(s.ws, Active) + Count(s.ws, Joined) + Count(s.ws, Present)
  }

  lemma OthersCount(s: State, s': State, i: nat)
    requires i < |s.ws| && OthersSame(s, s', i)
    ensures Count(s'.ws, Active) == Count(s.ws, Active) + (if Active(s'.ws[i].pc) then 1 else 0) - (if Active(s.ws[i].pc) then 1 else 0)
    ensures Count(s'.ws, Joined) == Count(s.ws, Joined) + (if Joined(s'.ws[i].pc) then 1 else 0) - (if Joined(s.ws[i].pc) then 1 else 0)
    ensures Count(s'.ws, Present) == Count(s.ws, Present) + (if Present(s'.ws[i].pc) then 1 else 0) - (if Present(s.ws[i].pc) then 1 else 0)
  {
    var ws := s.ws[i := s'.ws[i]];
    CountUpdate(s.ws, i, s'.ws[i], Active);
    CountUpdate(s.ws, i, s'.ws[i], Joined);
    CountUpdate(s.ws, i, s'.ws[i], Present);
    CountSame(ws, s'.ws, Active);
    CountSame(ws, s'.ws, Joined);
    CountSame(ws, s'.ws, Present);
  }

  /** The initiating thread, with the lock: it waits for helpers, or is through. */
  lemma {:induction false} MainLeaves(c: Config, s: State) returns (s': State)
    requires Inv(c, s) && UsedUp(s.g) && s.ws[0].pc == Leave(MainTest)
    ensures Reaches(c, s, s') && Inv(c, s') && OthersSame(s, s', 0) && s'.g.lock.None? && UsedUp(s'.g)
    ensures s'.ws[0].pc == (if s.g.helpers > 0 then Leave(MainSleep(false)) else Gone)
  {
    s' := Take(c, s, 0, Go);
  }

  /** A worker that has found the stack used up goes to sleep, or leaves when it is the last. */
  lemma {:induction false} Retires(c: Config, s: State, i: nat) returns (s': State)
    requires Inv(c, s) && UsedUp(s.g) && i < |s.ws| && (s.ws[i].pc == Wait(WaitTest) || (s.ws[i].pc == Wait(ExitTest) && s.g.active == 0))
    ensures Reaches(c, s, s') && Inv(c, s') && OthersSame(s, s', i) && s'.g.lock.None? && UsedUp(s'.g)
    ensures if s.g.active > 0 then s'.ws[i].pc == Wait(Sleep(false)) else !Joined(s'.ws[i].pc)
  {
    var s1 := s;
    ReachesSelf(c, s);
    if s.ws[i].pc == Wait(WaitTest) {
      s1 := Take(c, s, i, Go);
    }
    if s.g.active > 0 {
      s' := s1;
    } else {
      s' := Take(c, s1, i, Go);
      OthersTransitive(s, s1, s', i);
      ReachesTransitive(c, s, s1, s');
      if i == 0 {
        var s2 := s';
        s' := MainLeaves(c, s2);
        OthersTransitive(s, s2, s', i);
        ReachesTransitive(c, s, s2, s');
      }
    }
  }

  lemma {:induction false} SoloRetires(c: Config, s: State, i: nat) returns (s': State)
    requires Inv(c, s) && Running(s, i)
    ensures Reaches(c, s, s') && Inv(c, s') && OthersSame(s, s', i) && s'.g.lock.None? && UsedUp(s'.g)
    ensures s'.ws[i].pc == Wait(Sleep(false)) || !Joined(s'.ws[i].pc)
  {
    var s1 := Solo(c, s, i);
    s' := Retires(c, s1, i);
    OthersTransitive(s, s1, s', i);
    ReachesTransitive(c, s, s1, s');
  }

  /** The last workers asleep are woken up and leave. */
  lemma {:induction false} WakesAndLeaves(c: Config, s: State, i: nat) returns (s': State)
    requires Inv(c, s) && UsedUp(s.g) && s.g.lock.None? && i < |s.ws| && s.ws[i].pc.Wait? && s.g.active == 0
    ensures Reaches(c, s, s') && Inv(c, s') && OthersSame(s, s', i) && s'.g.lock.None? && UsedUp(s'.g)
    ensures !Joined(s'.ws[i].pc)
  {
    var s1 := Take(c, s, i, WakeUp);
    s' := Retires(c, s1, i);
    OthersTransitive(s, s1, s', i);
    ReachesTransitive(c, s, s1, s');
  }

  /** The initiating thread is woken up when all helpers have left. */
  lemma {:induction false} LastLeaves(c: Config, s: State, i: nat) returns (s': State)
    requires Inv(c, s) && UsedUp(s.g) && s.g.lock.None? && i < |s.ws| && s.ws[i].pc.Leave? && s.g.helpers == 0
    ensures Reaches(c, s, s') && Inv(c, s') && OthersSame(s, s', i) && s'.g.lock.None? && UsedUp(s'.g)
    ensures s'.ws[i].pc == Gone
  {
    var s1 := Take(c, s, i, WakeUp);
    s' := Take(c, s1, i, Go);
    OthersTransitive(s, s1, s', i);
    ReachesTransitive(c, s, s1, s');
  }

  /** With the stack used up, one more worker can go to sleep or leave. */
  lemma {:induction false} OneGoes(c: Config, s: State) returns (s': State, i: nat)
    requires Inv(c, s) && UsedUp(s.g) && s.g.lock.None?
    requires exists k :: 0 <= k < |s.ws| && Present(s.ws[k].pc)
    ensures Reaches(c, s, s') && Inv(c, s') && s'.g.lock.None? && UsedUp(s'.g)
    ensures i < |s.ws| && OthersSame(s, s', i) && Presence(s'.ws[i].pc) < Presence(s.ws[i].pc)
  {
    if k :| 0 <= k < |s.ws| && Active(s.ws[k].pc) {
      i := k;
      s' := SoloRetires(c, s, i);
      return;
    }
    CountZero(s.ws, Active);
    if k :| 0 <= k < |s.ws| && Joined(s.ws[k].pc) {
      i := k;
      s' := WakesAndLeaves(c, s, i);
      return;
    }
    CountZero(s.ws, Joined);
    i :| 0 <= i < |s.ws| && Present(s.ws[i].pc);
    s' := LastLeaves(c, s, i);
  }

  /** What a worker adds to the crowd. */
  function Presence(pc: Pc): nat {
    (if Active(pc) then 1 else 0) + (if Joined(pc) then 1 else 0) + (if Present(pc) then 1 else 0)
  }

  lemma {:induction false} OneLess(c: Config, s: State) returns (s': State)
    requires Inv(c, s) && UsedUp(s.g) && s.g.lock.None?
    requires exists k :: 0 <= k < |s.ws| && Present(s.ws[k].pc)
    ensures Reaches(c, s, s') && Inv(c, s') && s'.g.lock.None? && UsedUp(s'.g) && Crowd(s') < Crowd(s)
  {
    var i;
    s', i := OneGoes(c, s);
    OthersCount(s, s', i);
  }

  lemma {:induction false} Finish(c: Config, s: State) returns (s': State)
    requires Inv(c, s) && UsedUp(s.g) && s.g.lock.None?
    ensures Reaches(c, s, s') && Inv(c, s') && forall k :: 0 <= k < |s'.ws| ==> !Present(s'.ws[k].pc)
    decreases Crowd(s)
  {
    if exists k :: 0 <= k < |s.ws| && Present(s.ws[k].pc) {
      var s1 := OneLess(c, s);
      s' := Finish(c, s1);
      ReachesTransitive(c, s, s1, s');
    } else {
      s' := s;
      ReachesSelf(c, s);
    }
  }

  /** Whoever holds the lock gives it up. */
  lemma {:induction false} FreesLock(c: Config, s: State, i: nat) returns (s': State)
    requires Inv(c, s) && i < |s.ws| && HoldsLock(s.ws[i].pc)
    ensures Reaches(c, s, s') && Inv(c, s') && s'.g.lock.None? && UsedUp(s'.g)
  {
    var pc := s.ws[i].pc;
    if pc.Wait? && !UsedUp(s.g) {
      s' := SoloRetires(c, s, i);
    } else if pc == Wait(WaitTest) || (pc == Wait(ExitTest) && s.g.active == 0) {
      s' := Retires(c, s, i);
    } else {
      s' := Take(c, s, i, Go);
    }
  }

  /** The stack gets used up. */
  lemma {:induction false} UsesUp(c: Config, s: State) returns (s': State)
    requires Inv(c, s) && s.g.lock.None?
    requires exists k :: 0 <= k < |s.ws| && Present(s.ws[k].pc)
    ensures Reaches(c, s, s') && Inv(c, s') && s'.g.lock.None? && UsedUp(s'.g)
  {
    var i :| 0 <= i < |s.ws| && Present(s.ws[i].pc);
    if UsedUp(s.g) {
      s' := s;
      ReachesSelf(c, s);
    } else if k :| 0 <= k < |s.ws| && Active(s.ws[k].pc) {
      s' := SoloRetires(c, s, k);
    } else {
      assert !Left(s.ws[i].pc);
      var s1 := Take(c, s, i, WakeUp);
      s' := SoloRetires(c, s1, i);
      ReachesTransitive(c, s, s1, s');
    }
  }

  /** Wherever a run has got to, it can be continued until every worker has left, or has never
      come: in no state is marking bound to go on for ever. */
  lemma {:induction false} CanFinish(c: Config, r: seq<State>) returns (s': State)
    requires Run(c, r)
    ensures Reaches(c, r[|r| - 1], s') && Inv(c, s')
    ensures forall k :: 0 <= k < |s'.ws| ==> s'.ws[k].pc.Absent? || s'.ws[k].pc.Gone?
  {
    var s := r[|r| - 1];
    RunInv(c, r);
    s' := s;
    ReachesSelf(c, s);
    if exists k :: 0 <= k < |s.ws| && Present(s.ws[k].pc) {
      var s1 := s;
      if i :| 0 <= i < |s.ws| && HoldsLock(s.ws[i].pc) {
        s1 := FreesLock(c, s, i);
      } else {
        s1 := UsesUp(c, s);
      }
      s' := Finish(c, s1);
      ReachesTransitive(c, s, s1, s');
    }
  }
}
