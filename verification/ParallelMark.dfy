/** Parallel marking: workers steal entries from the shared mark stack, mark on local
    stacks and return what they cannot finish.  Every shared read and write that another
    worker can interleave with is a step of its own; the local work between two such
    accesses is one step. */
module ParallelMark {
  import opened Basics
  import opened MarkHeap
  import MarkPhase
  import MarkSteps

  const ENTRIES_TO_GET := 5
  const LOCAL_MARK_STACK_SIZE := HBLKSIZE
  const SHARE_WORDS := 256   // SHARE_BYTES / sizeof(ptr_t)

  /** GC_mark_local, looking for entries to steal. */
  datatype SeekPc =
    | AtTop               // head of the loop
    | HaveFirst(g: nat)   // has read GC_first_nonempty
    | ReadTop             // about to read GC_mark_stack_top
    | NeedLock            // the shared stack looked empty

  /** GC_mark_local, having found nothing: the two tests are made with the mark lock. */
  datatype WaitPc = WaitTest | ExitTest | Sleep(notified: bool)

  /** GC_steal_mark_stack at entry p: look at its descriptor, store 0, copy the entry. */
  datatype StealPc = Look | Store(d: nat) | Copy(d: nat)

  /** GC_mark_from on the local stack: the mark bit of o has been seen unset (at word a),
      then set; then o has to be pushed. */
  datatype MarkPc = Scan | SetBit(a: nat, o: nat) | PushObject(o: nat)

  /** Is it worth sharing, GC_return_mark_stack, and waking the others up afterwards. */
  datatype SharePc = SeeTop | SeeFirst(t: nat) | SeeHelpers | ReturnAll | ReturnHalf | Notify(more: bool)

  /** The end of GC_do_parallel_mark, in the initiating thread only. */
  datatype LeavePc = MainTest | MainSleep(notified: bool)

  datatype Pc =
    | Absent
    | Seek(seek: SeekPc)
    | Wait(wait: WaitPc)
    | Steal(p: nat, high: nat, taken: nat, wanted: nat, steal: StealPc)
    | Mark(mark: MarkPc)
    | Share(share: SharePc)
    | Leave(leave: LeavePc)
    | Gone

  datatype Worker = Worker(pc: Pc, myFirst: nat, local: seq<Entry>, todo: set<nat>)

  /** What the workers share.  `valid` is GC_mark_state != MS_INVALID; an entry of length
      0 on the stack has been stolen. */
  datatype Shared = Shared(stack: seq<Entry>, first: nat, valid: bool, tooSmall: bool,
                           active: int, helpers: int, helpWanted: bool, lock: Option<nat>,
                           marked: set<nat>)

  datatype State = State(g: Shared, ws: seq<Worker>)

  datatype Config = Config(h: Heap, size: nat, live: set<nat>) {
    ghost predicate Valid() {
      h.Valid() && h.Closed(live)
    }
  }

  /** What a worker does next where it has a choice. */
  datatype Act = Go | Pick(a: nat) | CreditUsedUp | WakeUp

  /** Counted by GC_active_count. */
  predicate Active(pc: Pc) {
    pc.Seek? || pc.Steal? || pc.Mark? || pc.Share?
  }

  /** Counted by GC_helper_count. */
  predicate Joined(pc: Pc) {
    Active(pc) || pc.Wait?
  }

  predicate HoldsLock(pc: Pc) {
    (pc.Wait? && !pc.wait.Sleep?) || (pc.Leave? && pc.leave.MainTest?)
  }

  function Words(e: Entry): set<nat> {
    set a: nat | e.start <= a < e.start + e.len && e.Has(a)
  }

  function Awake(w: Worker): Worker {
    match w.pc
    case Wait(Sleep(_)) => w.(pc := Wait(Sleep(true)))
    case Leave(MainSleep(_)) => w.(pc := Leave(MainSleep(true)))
    case _ => w
  }

  /** GC_notify_all_marker. */
  function NotifyAll(ws: seq<Worker>): (r: seq<Worker>)
    ensures |r| == |ws|
    ensures forall i :: 0 <= i < |ws| ==> r[i] == Awake(ws[i])
  {
    seq(|ws|, i requires 0 <= i < |ws| => Awake(ws[i]))
  }

  /** Can worker i, in state w, take a step of this kind?  n is the number of workers. */
  predicate Enabled(g: Shared, n: nat, i: nat, w: Worker, act: Act) {
    match w.pc
    case Absent => act.Go? && g.lock.None? && g.helpWanted && g.helpers < n
    case Seek(pc) => act.Go? && (pc.NeedLock? ==> g.lock.None?)
    case Wait(pc) => if pc.Sleep? then act.WakeUp? && g.lock.None? else act.Go? && g.lock == Some(i)
    case Steal(_, _, _, _, _) => act.Go?
    case Mark(pc) =>
      if pc.Scan? then
        (match act
         case Go => w.todo == {}
         case Pick(a) => a in w.todo
         case CreditUsedUp => w.todo == {} && |w.local| > 0
         case WakeUp => false)
      else act.Go?
    case Share(pc) => act.Go? && (pc.SeeHelpers? || pc.ReturnAll? || pc.ReturnHalf? ==> g.lock.None?)
    case Leave(pc) => if pc.MainSleep? then act.WakeUp? && g.lock.None? else act.Go? && g.lock == Some(i)
    case Gone => false
  }

  /** The outcome of a step: the new worker, the new shared state, and whether everybody
      is woken up. */
  datatype Effect = Effect(w: Worker, g: Shared, wake: bool)

  /** How many of n entries to steal. */
  function Wanted(n: int): nat {
    if n < 2 * ENTRIES_TO_GET then 1 else ENTRIES_TO_GET
  }

  function Begin(w: Worker, n: int, high: nat): Worker {
    w.(pc := Steal(w.myFirst, high, 0, Wanted(n), Look))
  }

  function StepSeek(g: Shared, i: nat, w: Worker, pc: SeekPc): Effect {
    match pc
    case AtTop =>
      Effect(w.(pc := Seek(HaveFirst(g.first))), g, false)
    case HaveFirst(f) =>
      if w.myFirst < f then
        Effect(w.(pc := Seek(ReadTop), myFirst := f), g, false)
      else if f < w.myFirst && g.first == f then
        Effect(w.(pc := Seek(ReadTop)), g.(first := w.myFirst), false)  // the compare-and-swap succeeds
      else
        Effect(w.(pc := Seek(ReadTop)), g, false)
    case ReadTop =>
      var n := |g.stack| - w.myFirst;
      Effect(if n <= 0 then w.(pc := Seek(NeedLock)) else Begin(w, n, |g.stack|), g, false)
    case NeedLock =>
      var n := |g.stack| - w.myFirst;
      if n == 0 then
        Effect(w.(pc := Wait(WaitTest)), g.(active := g.active - 1, lock := Some(i)), g.active == 1)
      else
        Effect(Begin(w, n, |g.stack|), g, false)
  }

  function StepWait(g: Shared, i: nat, w: Worker, pc: WaitPc): Effect {
    match pc
    case WaitTest =>
      if g.active > 0 && |g.stack| <= g.first then
        Effect(w.(pc := Wait(Sleep(false))), g.(lock := None), false)
      else
        Effect(w.(pc := Wait(ExitTest)), g, false)
    case Sleep(_) =>
      Effect(w.(pc := Wait(WaitTest)), g.(lock := Some(i)), false)
    case ExitTest =>
      if g.active == 0 && |g.stack| <= g.first then
        // The initiating thread keeps the lock and withdraws the call for help.
        Effect(w.(pc := if i == 0 then Leave(MainTest) else Gone),
               g.(helpers := g.helpers - 1,
                  lock := if i == 0 then g.lock else None,
                  helpWanted := g.helpWanted && i != 0),
               g.helpers == 1)
      else
        Effect(w.(pc := Seek(AtTop)), g.(active := g.active + 1, lock := None), false)
  }

  function StepLeave(g: Shared, i: nat, w: Worker, pc: LeavePc): Effect {
    match pc
    case MainTest =>
      if g.helpers > 0 then
        Effect(w.(pc := Leave(MainSleep(false))), g.(lock := None), false)
      else
        Effect(w.(pc := Gone), g.(lock := None), true)
    case MainSleep(_) =>
      Effect(w.(pc := Leave(MainTest)), g.(lock := Some(i)), false)
  }

  function StepSteal(g: Shared, w: Worker): Effect
    requires w.pc.Steal? && w.pc.high <= |g.stack| && (!w.pc.steal.Look? ==> w.pc.p < |g.stack|)
  {
    var pc := w.pc;
    match pc.steal
    case Look =>
      if pc.p < pc.high && pc.taken <= pc.wanted then
        var d := g.stack[pc.p].len;
        Effect(w.(pc := if d != 0 then pc.(steal := Store(d)) else pc.(p := pc.p + 1)), g, false)
      else
        Effect(w.(pc := Mark(Scan), myFirst := pc.p), g, false)
    case Store(d) =>
      Effect(w.(pc := pc.(steal := Copy(d))), g.(stack := g.stack[pc.p := Entry(g.stack[pc.p].start, 0)]), false)
    case Copy(d) =>
      // A big object counts as size / 256 + 1 objects.
      Effect(w.(pc := pc.(p := pc.p + 1, taken := pc.taken + 1 + 8 * d / 256, steal := Look),
                local := w.local + [Entry(g.stack[pc.p].start, d)]), g, false)
  }

  /** One iteration of GC_mark_from: what stays on the stack and which words to scan now. */
  function TakeTop(local: seq<Entry>): (r: (seq<Entry>, set<nat>))
    requires |local| > 0
  {
    var e := local[|local| - 1];
    var rest := local[..|local| - 1];
    if e.len < SPLIT_RANGE_PTRS then
      (rest, Words(e))
    else if e.len > SHARE_WORDS && |local| < LOCAL_MARK_STACK_SIZE then
      // Halve it; the first half gets a word more to catch misaligned pointers.
      (rest + [Entry(e.start, e.len / 2 + 1)] + [Entry(e.start + e.len / 2, e.len - e.len / 2)], {})
    else
      (rest + [Entry(e.start + (SPLIT_RANGE_PTRS - 1), e.len - (SPLIT_RANGE_PTRS - 1))],
       Words(Entry(e.start, SPLIT_RANGE_PTRS - 1)))
  }

  /** GC_push_obj on a local stack; a full one loses its topmost entries, which spoils the marks. */
  function PushLocal(local: seq<Entry>, e: Entry): (r: (seq<Entry>, bool)) {
    if |local| >= LOCAL_MARK_STACK_SIZE then
      (local[..|local| - MARK_STACK_DISCARDS] + [e], true)
    else
      (local + [e], false)
  }

  function StepMark(h: Heap, g: Shared, w: Worker, pc: MarkPc, act: Act): Effect
    requires h.BlocksValid()
    requires pc.PushObject? ==> pc.o in h.home
  {
    match pc
    case Scan =>
      (match act
       case Pick(a) =>
         var t := h.Target(a);
         if t.None? || t.value in g.marked then
           Effect(w.(todo := w.todo - {a}), g, false)
         else
           Effect(w.(pc := Mark(SetBit(a, t.value)), todo := w.todo - {a}), g, false)
       case CreditUsedUp =>
         Effect(w.(pc := Share(if |w.local| - 1 >= LOCAL_MARK_STACK_SIZE / 2 then ReturnAll else SeeTop)), g, false)
       case _ =>
         if |w.local| > 0 then
           Effect(w.(local := TakeTop(w.local).0, todo := TakeTop(w.local).1), g, false)
         else
           Effect(w.(pc := Seek(AtTop)), g, false))
    case SetBit(_, o) =>
      Effect(w.(pc := Mark(PushObject(o))), g.(marked := g.marked + {o}), false)
    case PushObject(o) =>
      var e := h.Fields(o);
      if e.len == 0 then
        Effect(w.(pc := Mark(Scan)), g, false)
      else
        var (l, overflow) := PushLocal(w.local, e);
        Effect(w.(pc := Mark(Scan), local := l), g.(valid := g.valid && !overflow), false)
  }

  /** GC_return_mark_stack of the entries es, under the lock. */
  function Return(size: nat, g: Shared, es: seq<Entry>): Shared {
    if es == [] then
      g
    else if |g.stack| + |es| > size then
      g.(valid := false, tooSmall := true)
    else
      g.(stack := g.stack + es)
  }

  function StepShare(size: nat, g: Shared, w: Worker, pc: SharePc): Effect
    requires pc.ReturnHalf? ==> |w.local| > 2
  {
    match pc
    case SeeTop =>
      Effect(w.(pc := Share(SeeFirst(|g.stack|))), g, false)
    case SeeFirst(t) =>
      Effect(w.(pc := if t <= g.first && |w.local| > 2 then Share(SeeHelpers) else Mark(Scan)), g, false)
    case SeeHelpers =>
      Effect(w.(pc := if g.active < g.helpers then Share(ReturnHalf) else Mark(Scan)), g, false)
    case ReturnAll =>
      Effect(w.(pc := Share(Notify(false)), local := []), Return(size, g, w.local), false)
    case ReturnHalf =>
      var k := (|w.local| - 1) / 2;
      Effect(w.(pc := Share(Notify(true)), local := w.local[k..]), Return(size, g, w.local[..k]), false)
    case Notify(more) =>
      Effect(w.(pc := if more then Mark(Scan) else Seek(AtTop)), g, true)
  }

  // ---------------------------------------------------------------- invariants

  ghost predicate ZeroBelow(stack: seq<Entry>, n: nat) {
    n <= |stack| && forall j :: 0 <= j < n ==> stack[j].len == 0
  }

  /** The shared stack only grows, and only its descriptors change, to 0. */
  ghost predicate Mono(b: seq<Entry>, c: seq<Entry>) {
    && |b| <= |c|
    && (forall j :: 0 <= j < |b| ==> c[j].start == b[j].start && (c[j].len == b[j].len || c[j].len == 0))
  }

  ghost predicate StealShape(stack: seq<Entry>, w: Worker)
    requires w.pc.Steal?
  {
    var p := w.pc.p;
    && w.myFirst <= p <= w.pc.high <= |stack|
    && ZeroBelow(stack, p)
    && (match w.pc.steal
        case Look => true
        case Store(d) => p < w.pc.high && 0 < d && (stack[p].len == d || stack[p].len == 0)
        case Copy(d) => p < w.pc.high && 0 < d && stack[p].len == 0)
  }

  ghost predicate MarkShape(c: Config, marked: set<nat>, pc: MarkPc) {
    match pc
    case Scan => true
    case SetBit(a, o) => o in c.live && c.h.Target(a) == Some(o)
    case PushObject(o) => o in marked && o in c.live
  }

  ghost predicate ShareShape(w: Worker, pc: SharePc) {
    match pc
    case SeeHelpers => |w.local| > 2
    case ReturnHalf => |w.local| > 2
    case Notify(more) => !more ==> w.local == []
    case _ => true
  }

  /** What holds of a worker at each place of its program; in particular only an active
      worker has entries or words of its own. */
  ghost predicate WorkerShape(c: Config, stack: seq<Entry>, marked: set<nat>, w: Worker) {
    && ZeroBelow(stack, w.myFirst)
    && (w.pc.Mark? || w.pc.Steal? || w.pc.Share? || w.local == [])
    && (w.pc.Mark? || w.todo == {})
    && (match w.pc
        case Seek(HaveFirst(f)) => ZeroBelow(stack, f)
        case Steal(_, _, _, _, _) => StealShape(stack, w)
        case Mark(pc) => MarkShape(c, marked, pc)
        case Share(pc) => ShareShape(w, pc)
        case _ => true)
  }

  /** What a step promises about the parts of the state that its worker w touches. */
  ghost predicate GoodEffect(c: Config, g: Shared, i: nat, w: Worker, e: Effect) {
    && Mono(g.stack, e.g.stack)
    && g.marked <= e.g.marked
    && g.first <= e.g.first
    && ZeroBelow(e.g.stack, e.g.first)
    && WorkerShape(c, e.g.stack, e.g.marked, e.w)
    && (e.wake ==> Awake(e.w) == e.w)
    && (if HoldsLock(e.w.pc) then e.g.lock == Some(i) && (g.lock == Some(i) || g.lock.None?)
        else if HoldsLock(w.pc) then e.g.lock.None?
        else e.g.lock == g.lock)
  }

  ghost predicate Ready(c: Config, g: Shared, n: nat, i: nat, w: Worker, act: Act) {
    && ZeroBelow(g.stack, g.first)
    && WorkerShape(c, g.stack, g.marked, w)
    && (HoldsLock(w.pc) ==> g.lock == Some(i))
    && Enabled(g, n, i, w, act)
  }

  lemma {:induction false} SeekGood(c: Config, g: Shared, n: nat, i: nat, w: Worker, act: Act)
    requires Ready(c, g, n, i, w, act) && w.pc.Seek?
    ensures GoodEffect(c, g, i, w, StepSeek(g, i, w, w.pc.seek))
  {
    match w.pc.seek {
      case AtTop =>
      case HaveFirst(_) =>
      case ReadTop =>
      case NeedLock =>
    }
  }

  lemma {:induction false} LeaveGood(c: Config, g: Shared, n: nat, i: nat, w: Worker, act: Act)
    requires Ready(c, g, n, i, w, act) && w.pc.Leave?
    ensures GoodEffect(c, g, i, w, StepLeave(g, i, w, w.pc.leave))
  {
  }

  lemma {:induction false} StealGood(c: Config, g: Shared, n: nat, i: nat, w: Worker, act: Act)
    requires Ready(c, g, n, i, w, act) && w.pc.Steal?
    ensures GoodEffect(c, g, i, w, StepSteal(g, w))
  {
  }

  lemma {:induction false} MarkGood(c: Config, g: Shared, n: nat, i: nat, w: Worker, act: Act)
    requires Ready(c, g, n, i, w, act) && w.pc.Mark?
    requires c.h.BlocksValid() && c.live <= c.h.Objs()
    requires act.Pick? && act.a in w.todo ==> c.h.Safe(c.live, act.a)
    ensures GoodEffect(c, g, i, w, StepMark(c.h, g, w, w.pc.mark, act))
  {
    match w.pc.mark {
      case Scan => ScanGood(c, g, n, i, w, act);
      case SetBit(_, _) =>
      case PushObject(_) =>
    }
  }

  lemma {:induction false} ScanGood(c: Config, g: Shared, n: nat, i: nat, w: Worker, act: Act)
    requires Ready(c, g, n, i, w, act) && w.pc == Mark(Scan)
    requires c.h.BlocksValid() && c.live <= c.h.Objs()
    requires act.Pick? && act.a in w.todo ==> c.h.Safe(c.live, act.a)
    ensures GoodEffect(c, g, i, w, StepMark(c.h, g, w, w.pc.mark, act))
  {
    match act {
      case Pick(_) =>
      case CreditUsedUp =>
      case _ =>
    }
  }

  lemma {:induction false} ShareGood(c: Config, g: Shared, n: nat, i: nat, w: Worker, act: Act)
    requires Ready(c, g, n, i, w, act) && w.pc.Share?
    ensures GoodEffect(c, g, i, w, StepShare(c.size, g, w, w.pc.share))
  {
  }

  // ---------------------------------------------------------------- no work is lost

  /** The word at a is still to be looked at by worker w. */
  ghost predicate Has(c: Config, stack: seq<Entry>, w: Worker, a: nat)
    requires c.h.BlocksValid()
  {
    || In(w.local, a)
    || a in w.todo
    || (match w.pc
        case Steal(p, _, _, _, Store(d)) => p < |stack| && Entry(stack[p].start, d).Has(a)
        case Steal(p, _, _, _, Copy(d)) => p < |stack| && Entry(stack[p].start, d).Has(a)
        case Mark(SetBit(b, _)) => a == b
        case Mark(PushObject(o)) => o in c.h.home && c.h.Fields(o).Has(a)
        case _ => false)
  }

  /** The step hands on all work, and takes on no work that could mark dead objects. */
  ghost predicate KeepsWork(c: Config, g: Shared, w: Worker, e: Effect)
    requires c.h.BlocksValid() && c.live <= c.h.Objs()
  {
    && e.g.marked <= c.live
    && (e.g.valid ==>
          && g.valid
          && (forall a :: In(g.stack, a) || Has(c, g.stack, w, a) ==>
                In(e.g.stack, a) || Has(c, e.g.stack, e.w, a) || (c.h.Target(a).Some? ==> c.h.Target(a).value in e.g.marked))
          && (forall o, a :: o in e.g.marked && o !in g.marked && c.h.Fields(o).Has(a) ==> Has(c, e.g.stack, e.w, a)))
    && (forall a :: In(e.g.stack, a) || Has(c, e.g.stack, e.w, a) ==>
          In(g.stack, a) || Has(c, g.stack, w, a) || c.h.Safe(c.live, a))
  }

  lemma InAppend(s: seq<Entry>, t: seq<Entry>, a: nat)
    ensures In(s + t, a) <==> In(s, a) || In(t, a)
  {
    if In(s, a) {
      var i :| 0 <= i < |s| && s[i].Has(a);
      assert (s + t)[i].Has(a);
    }
    if In(t, a) {
      var i :| 0 <= i < |t| && t[i].Has(a);
      assert (s + t)[|s| + i].Has(a);
    }
    if In(s + t, a) {
      var i :| 0 <= i < |s + t| && (s + t)[i].Has(a);
      if i < |s| { assert s[i].Has(a); } else { assert t[i - |s|].Has(a); }
    }
  }

  lemma InSingle(e: Entry, a: nat)
    ensures In([e], a) <==> e.Has(a)
  {
    if e.Has(a) { assert [e][0].Has(a); }
  }

  lemma {:induction false} SeekKeepsWork(c: Config, g: Shared, n: nat, i: nat, w: Worker, act: Act)
    requires c.h.BlocksValid() && c.live <= c.h.Objs() && g.marked <= c.live
    requires Ready(c, g, n, i, w, act) && w.pc.Seek?
    ensures KeepsWork(c, g, w, StepSeek(g, i, w, w.pc.seek))
  {
  }

  lemma {:induction false} WaitKeepsWork(c: Config, g: Shared, n: nat, i: nat, w: Worker, act: Act)
    requires c.h.BlocksValid() && c.live <= c.h.Objs() && g.marked <= c.live
    requires Ready(c, g, n, i, w, act) && w.pc.Wait?
    ensures KeepsWork(c, g, w, StepWait(g, i, w, w.pc.wait))
  {
  }

  lemma {:induction false} LeaveKeepsWork(c: Config, g: Shared, n: nat, i: nat, w: Worker, act: Act)
    requires c.h.BlocksValid() && c.live <= c.h.Objs() && g.marked <= c.live
    requires Ready(c, g, n, i, w, act) && w.pc.Leave?
    ensures KeepsWork(c, g, w, StepLeave(g, i, w, w.pc.leave))
  {
  }

  lemma {:induction false} StealKeepsWork(c: Config, g: Shared, n: nat, i: nat, w: Worker, act: Act)
    requires c.h.BlocksValid() && c.live <= c.h.Objs() && g.marked <= c.live
    requires Ready(c, g, n, i, w, act) && w.pc.Steal?
    ensures KeepsWork(c, g, w, StepSteal(g, w))
  {
    var p := w.pc.p;
    match w.pc.steal {
      case Look =>
      case Store(d) =>
        var stack' := g.stack[p := Entry(g.stack[p].start, 0)];
        forall a ensures In(g.stack, a) ==> In(stack', a) || Entry(g.stack[p].start, d).Has(a) ensures In(stack', a) ==> In(g.stack, a) {
          if In(g.stack, a) {
            var j :| 0 <= j < |g.stack| && g.stack[j].Has(a);
            if j != p { assert stack'[j].Has(a); }
          }
          if In(stack', a) {
            var j :| 0 <= j < |stack'| && stack'[j].Has(a);
            assert g.stack[j].Has(a);
          }
        }
      case Copy(d) =>
        var e := Entry(g.stack[p].start, d);
        forall a ensures In(w.local + [e], a) <==> In(w.local, a) || e.Has(a) {
          InAppend(w.local, [e], a);
          InSingle(e, a);
        }
    }
  }

  /** Every word of the entry taken is scanned now or stays on the stack. */
  lemma TakeTopCovers(local: seq<Entry>, a: nat)
    requires |local| > 0
    ensures In(local, a) <==> In(TakeTop(local).0, a) || a in TakeTop(local).1
  {
    var e := local[|local| - 1];
    var rest := local[..|local| - 1];
    assert local == rest + [e];
    InAppend(rest, [e], a);
    InSingle(e, a);
    if e.len < SPLIT_RANGE_PTRS {
      assert a in Words(e) <==> e.Has(a);
    } else if e.len > SHARE_WORDS && |local| < LOCAL_MARK_STACK_SIZE {
      var e1, e2 := Entry(e.start, e.len / 2 + 1), Entry(e.start + e.len / 2, e.len - e.len / 2);
      InAppend(rest, [e1], a);
      InSingle(e1, a);
      InAppend(rest + [e1], [e2], a);
      InSingle(e2, a);
    } else {
      var e1 := Entry(e.start, SPLIT_RANGE_PTRS - 1);
      var e2 := Entry(e.start + (SPLIT_RANGE_PTRS - 1), e.len - (SPLIT_RANGE_PTRS - 1));
      InAppend(rest, [e2], a);
      InSingle(e2, a);
      assert a in Words(e1) <==> e1.Has(a);
    }
  }

  lemma PushLocalCovers(local: seq<Entry>, e: Entry, a: nat)
    ensures !PushLocal(local, e).1 ==> (In(PushLocal(local, e).0, a) <==> In(local, a) || e.Has(a))
    ensures In(PushLocal(local, e).0, a) ==> In(local, a) || e.Has(a)
  {
    var kept := if |local| >= LOCAL_MARK_STACK_SIZE then local[..|local| - MARK_STACK_DISCARDS] else local;
    InAppend(kept, [e], a);
    InSingle(e, a);
    if In(kept, a) {
      var i :| 0 <= i < |kept| && kept[i].Has(a);
      assert local[i].Has(a);
    }
  }

  lemma {:induction false} ScanKeepsWork(c: Config, g: Shared, n: nat, i: nat, w: Worker, act: Act)
    requires c.h.BlocksValid() && c.live <= c.h.Objs() && g.marked <= c.live
    requires Ready(c, g, n, i, w, act) && w.pc == Mark(Scan)
    ensures KeepsWork(c, g, w, StepMark(c.h, g, w, w.pc.mark, act))
  {
    if act.Go? && |w.local| > 0 {
      forall a ensures In(w.local, a) <==> In(TakeTop(w.local).0, a) || a in TakeTop(w.local).1 {
        TakeTopCovers(w.local, a);
      }
    }
  }

  lemma {:induction false} PushKeepsWork(c: Config, g: Shared, n: nat, i: nat, w: Worker, act: Act)
    requires c.h.BlocksValid() && c.live <= c.h.Objs() && g.marked <= c.live
    requires Ready(c, g, n, i, w, act) && w.pc.Mark? && w.pc.mark.PushObject?
    ensures KeepsWork(c, g, w, StepMark(c.h, g, w, w.pc.mark, act))
  {
    var e := c.h.Fields(w.pc.mark.o);
    forall a
      ensures !PushLocal(w.local, e).1 ==> (In(PushLocal(w.local, e).0, a) <==> In(w.local, a) || e.Has(a))
      ensures In(PushLocal(w.local, e).0, a) ==> In(w.local, a) || e.Has(a)
    {
      PushLocalCovers(w.local, e, a);
    }
  }

  lemma {:induction false} MarkKeepsWork(c: Config, g: Shared, n: nat, i: nat, w: Worker, act: Act)
    requires c.h.BlocksValid() && c.live <= c.h.Objs() && g.marked <= c.live
    requires Ready(c, g, n, i, w, act) && w.pc.Mark?
    requires forall o, a :: o in c.live && c.h.Fields(o).Has(a) ==> c.h.Safe(c.live, a)
    ensures KeepsWork(c, g, w, StepMark(c.h, g, w, w.pc.mark, act))
  {
    match w.pc.mark {
      case Scan => ScanKeepsWork(c, g, n, i, w, act);
      case SetBit(_, _) =>
      case PushObject(_) => PushKeepsWork(c, g, n, i, w, act);
    }
  }

  lemma {:induction false} ShareKeepsWork(c: Config, g: Shared, n: nat, i: nat, w: Worker, act: Act)
    requires c.h.BlocksValid() && c.live <= c.h.Objs() && g.marked <= c.live
    requires Ready(c, g, n, i, w, act) && w.pc.Share?
    ensures KeepsWork(c, g, w, StepShare(c.size, g, w, w.pc.share))
  {
    var k := if w.pc.share.ReturnHalf? then (|w.local| - 1) / 2 else |w.local|;
    assert w.local == w.local[..k] + w.local[k..];
    forall a
      ensures In(w.local, a) <==> In(w.local[..k], a) || In(w.local[k..], a)
      ensures In(g.stack + w.local[..k], a) <==> In(g.stack, a) || In(w.local[..k], a)
    {
      InAppend(w.local[..k], w.local[k..], a);
      InAppend(g.stack, w.local[..k], a);
    }
    assert w.pc.share.ReturnAll? ==> w.local[..k] == w.local;
  }

  // ---------------------------------------------------------------- the whole state

  ghost predicate WorkAt(c: Config, s: State, a: nat)
    requires c.h.BlocksValid()
  {
    In(s.g.stack, a) || exists i :: 0 <= i < |s.ws| && Has(c, s.g.stack, s.ws[i], a)
  }

  ghost predicate Settled(c: Config, s: State, a: nat)
    requires c.h.BlocksValid()
  {
    c.h.Target(a).Some? ==> c.h.Target(a).value in s.g.marked || WorkAt(c, s, a)
  }

  /** No work is lost: unless the marks are spoilt, whatever a marked object or a root
      refers to is marked or will still be looked at by somebody.  And nothing but live
      objects can get marked. */
  ghost predicate NothingLost(c: Config, s: State)
    requires c.h.BlocksValid() && c.live <= c.h.Objs()
  {
    && s.g.marked <= c.live
    && (s.g.valid ==>
          && (forall o, a :: o in s.g.marked && c.h.Fields(o).Has(a) ==> Settled(c, s, a))
          && (forall a :: c.h.RootSlot(a) ==> Settled(c, s, a)))
    && (forall a :: WorkAt(c, s, a) ==> c.h.Safe(c.live, a))
  }

  ghost predicate Shape(c: Config, s: State) {
    && 0 < |s.ws|
    && ZeroBelow(s.g.stack, s.g.first)
    && (forall i :: 0 <= i < |s.ws| ==> WorkerShape(c, s.g.stack, s.g.marked, s.ws[i]))
    && (forall i :: 0 <= i < |s.ws| ==> (HoldsLock(s.ws[i].pc) <==> s.g.lock == Some(i)))
    && (s.g.lock.Some? ==> s.g.lock.value < |s.ws|)
  }

  function Commit(s: State, i: nat, e: Effect): State
    requires i < |s.ws|
  {
    var ws := s.ws[i := e.w];
    State(e.g, if e.wake then NotifyAll(ws) else ws)
  }

  ghost predicate CanStep(c: Config, s: State, i: nat, act: Act) {
    && c.Valid()
    && Shape(c, s)
    && NothingLost(c, s)
    && i < |s.ws|
    && Enabled(s.g, |s.ws|, i, s.ws[i], act)
  }

  function StepOf(c: Config, s: State, i: nat, act: Act): Effect
    requires CanStep(c, s, i, act)
  {
    var w := s.ws[i];
    match w.pc
    case Absent =>
      Effect(w.(pc := Seek(AtTop), myFirst := s.g.first),
             s.g.(helpers := s.g.helpers + 1, active := s.g.active + 1), false)
    case Seek(pc) => StepSeek(s.g, i, w, pc)
    case Wait(pc) => StepWait(s.g, i, w, pc)
    case Steal(_, _, _, _, _) => StepSteal(s.g, w)
    case Mark(pc) => StepMark(c.h, s.g, w, pc, act)
    case Share(pc) => StepShare(c.size, s.g, w, pc)
    case Leave(pc) => StepLeave(s.g, i, w, pc)
    case Gone => Effect(w, s.g, false)
  }

  lemma {:induction false} StepGood(c: Config, s: State, i: nat, act: Act)
    requires CanStep(c, s, i, act)
    ensures GoodEffect(c, s.g, i, s.ws[i], StepOf(c, s, i, act))
    ensures KeepsWork(c, s.g, s.ws[i], StepOf(c, s, i, act))
  {
    var w, n := s.ws[i], |s.ws|;
    assert Ready(c, s.g, n, i, w, act);
    match w.pc {
      case Absent =>
      case Seek(_) =>
        SeekGood(c, s.g, n, i, w, act);
        SeekKeepsWork(c, s.g, n, i, w, act);
      case Wait(_) =>
        WaitKeepsWork(c, s.g, n, i, w, act);
      case Steal(_, _, _, _, _) =>
        StealGood(c, s.g, n, i, w, act);
        StealKeepsWork(c, s.g, n, i, w, act);
      case Mark(_) =>
        if act.Pick? && act.a in w.todo {
          assert Has(c, s.g.stack, w, act.a);
          assert WorkAt(c, s, act.a);
        }
        FieldsSafe(c);
        MarkGood(c, s.g, n, i, w, act);
        MarkKeepsWork(c, s.g, n, i, w, act);
      case Share(_) =>
        ShareGood(c, s.g, n, i, w, act);
        ShareKeepsWork(c, s.g, n, i, w, act);
      case Leave(_) =>
        LeaveGood(c, s.g, n, i, w, act);
        LeaveKeepsWork(c, s.g, n, i, w, act);
      case Gone =>
    }
  }

  lemma FieldsSafe(c: Config)
    requires c.Valid()
    ensures forall o, a :: o in c.live && c.h.Fields(o).Has(a) ==> c.h.Safe(c.live, a)
  {
    forall o, a | o in c.live && c.h.Fields(o).Has(a) ensures c.h.Safe(c.live, a) {
      assert c.h.Extent(o).Has(a);
    }
  }

  lemma {:induction false} CommitShape(c: Config, s: State, i: nat, e: Effect)
    requires Shape(c, s) && i < |s.ws| && GoodEffect(c, s.g, i, s.ws[i], e)
    ensures Shape(c, Commit(s, i, e))
  {
    var s' := Commit(s, i, e);
    forall k | 0 <= k < |s'.ws| ensures WorkerShape(c, s'.g.stack, s'.g.marked, s'.ws[k]) {
    }
    forall k | 0 <= k < |s'.ws| ensures HoldsLock(s'.ws[k].pc) <==> s'.g.lock == Some(k) {
      if k != i {
        assert HoldsLock(s'.ws[k].pc) == HoldsLock(s.ws[k].pc);
      }
    }
  }

  lemma {:induction false} CommitKeepsWork(c: Config, s: State, i: nat, e: Effect)
    requires c.Valid() && Shape(c, s) && NothingLost(c, s) && i < |s.ws|
    requires GoodEffect(c, s.g, i, s.ws[i], e) && KeepsWork(c, s.g, s.ws[i], e)
    ensures NothingLost(c, Commit(s, i, e))
  {
    var s' := Commit(s, i, e);
    var b, d := s.g.stack, s'.g.stack;
    assert s'.ws[i] == e.w;
    forall a, k | 0 <= k < |s.ws| && k != i ensures Has(c, b, s.ws[k], a) <==> Has(c, d, s'.ws[k], a) {
    }
    if s'.g.valid {
      forall a | Settled(c, s, a) ensures Settled(c, s', a) {
        SettledKept(c, s, i, e, a);
      }
      forall o, a | o in s'.g.marked && c.h.Fields(o).Has(a) ensures Settled(c, s', a) {
        if o !in s.g.marked {
          assert Has(c, d, s'.ws[i], a);
        }
      }
    }
    forall a | WorkAt(c, s', a) ensures c.h.Safe(c.live, a) {
      if In(d, a) || Has(c, d, e.w, a) {
        if Has(c, b, s.ws[i], a) || In(b, a) { assert WorkAt(c, s, a); }
      } else {
        var k :| 0 <= k < |s'.ws| && Has(c, d, s'.ws[k], a);
        assert Has(c, b, s.ws[k], a);
        assert WorkAt(c, s, a);
      }
    }
  }

  lemma {:induction false} SettledKept(c: Config, s: State, i: nat, e: Effect, a: nat)
    requires c.Valid() && Shape(c, s) && i < |s.ws|
    requires GoodEffect(c, s.g, i, s.ws[i], e) && KeepsWork(c, s.g, s.ws[i], e) && e.g.valid
    requires Settled(c, s, a)
    ensures Settled(c, Commit(s, i, e), a)
  {
    var s' := Commit(s, i, e);
    var b, d := s.g.stack, s'.g.stack;
    assert s'.ws[i] == e.w;
    if c.h.Target(a).Some? && c.h.Target(a).value !in s'.g.marked {
      if !In(b, a) && !Has(c, b, s.ws[i], a) {
        var k :| 0 <= k < |s.ws| && Has(c, b, s.ws[k], a);
        assert Has(c, d, s'.ws[k], a);
      } else if !In(d, a) {
        assert Has(c, d, s'.ws[i], a);
      }
    }
  }

  // ---------------------------------------------------------------- the counters

  ghost function Count(ws: seq<Worker>, p: Pc -> bool): nat {
    if |ws| == 0 then 0 else (if p(ws[0].pc) then 1 else 0) + Count(ws[1..], p)
  }

  lemma {:induction false} CountUpdate(ws: seq<Worker>, i: nat, w: Worker, p: Pc -> bool)
    requires i < |ws|
    ensures Count(ws[i := w], p) == Count(ws, p) + (if p(w.pc) then 1 else 0) - (if p(ws[i].pc) then 1 else 0)
  {
    if i == 0 {
      assert ws[i := w][1..] == ws[1..];
    } else {
      assert ws[i := w][1..] == ws[1..][i - 1 := w];
      CountUpdate(ws[1..], i - 1, w, p);
    }
  }

  lemma {:induction false} CountSame(b: seq<Worker>, d: seq<Worker>, p: Pc -> bool)
    requires |b| == |d| && forall k :: 0 <= k < |b| ==> p(b[k].pc) == p(d[k].pc)
    ensures Count(b, p) == Count(d, p)
  {
    if |b| > 0 {
      CountSame(b[1..], d[1..], p);
    }
  }

  lemma {:induction false} CountZero(ws: seq<Worker>, p: Pc -> bool)
    ensures Count(ws, p) == 0 <==> forall k :: 0 <= k < |ws| ==> !p(ws[k].pc)
  {
    if |ws| > 0 {
      CountZero(ws[1..], p);
      if forall k :: 0 <= k < |ws| ==> !p(ws[k].pc) {
        assert forall k :: 0 <= k < |ws| - 1 ==> ws[1..][k] == ws[k + 1];
      } else {
        var k :| 0 <= k < |ws| && p(ws[k].pc);
        if k > 0 { assert ws[1..][k - 1] == ws[k]; }
      }
    }
  }

  ghost predicate Counted(s: State) {
    s.g.active == Count(s.ws, Active) && s.g.helpers == Count(s.ws, Joined)
  }

  lemma {:induction false} CommitCounted(s: State, i: nat, e: Effect)
    requires i < |s.ws| && Counted(s) && Tracks(s.g, s.ws[i], e)
    requires e.wake ==> Awake(e.w) == e.w
    ensures Counted(Commit(s, i, e))
  {
    var ws := s.ws[i := e.w];
    CountUpdate(s.ws, i, e.w, Active);
    CountUpdate(s.ws, i, e.w, Joined);
    CountSame(ws, NotifyAll(ws), Active);
    CountSame(ws, NotifyAll(ws), Joined);
  }

  /** A step changes the counters just as it changes its worker, and wakes the others up
      when their reason to sleep goes away. */
  ghost predicate Tracks(g: Shared, w: Worker, e: Effect) {
    && e.g.active - g.active == (if Active(e.w.pc) then 1 else 0) - (if Active(w.pc) then 1 else 0)
    && e.g.helpers - g.helpers == (if Joined(e.w.pc) then 1 else 0) - (if Joined(w.pc) then 1 else 0)
    && (g.active > 0 && e.g.active <= 0 ==> e.wake)
    && (g.helpers > 0 && e.g.helpers <= 0 ==> e.wake)
    && (w.pc.Share? && w.pc.share.Notify? ==> e.wake)
    && (|e.g.stack| != |g.stack| ==> e.w.pc.Share? && e.w.pc.share.Notify?)
    && (e.w.pc == Wait(Sleep(false)) ==> g.active > 0 && |g.stack| <= g.first && e.g.active == g.active)
    && (e.w.pc == Leave(MainSleep(false)) ==> g.helpers > 0 && e.g.helpers == g.helpers)
  }

  lemma {:induction false} StepTracks(c: Config, s: State, i: nat, act: Act)
    requires CanStep(c, s, i, act)
    ensures Tracks(s.g, s.ws[i], StepOf(c, s, i, act))
  {
    var g, w := s.g, s.ws[i];
    match w.pc {
      case Absent =>
      case Seek(pc) => SeekTracks(g, i, w, pc);
      case Wait(pc) => WaitTracks(g, i, w, pc);
      case Steal(_, _, _, _, _) => StealTracks(g, w);
      case Mark(pc) => MarkTracks(c.h, g, w, pc, act);
      case Share(pc) => ShareTracks(c.size, g, w, pc);
      case Leave(pc) =>
      case Gone =>
    }
  }

  lemma SeekTracks(g: Shared, i: nat, w: Worker, pc: SeekPc)
    requires w.pc == Seek(pc)
    ensures Tracks(g, w, StepSeek(g, i, w, pc))
  {
  }

  lemma WaitTracks(g: Shared, i: nat, w: Worker, pc: WaitPc)
    requires w.pc == Wait(pc)
    ensures Tracks(g, w, StepWait(g, i, w, pc))
  {
  }

  lemma StealTracks(g: Shared, w: Worker)
    requires w.pc.Steal? && w.pc.high <= |g.stack| && (!w.pc.steal.Look? ==> w.pc.p < |g.stack|)
    ensures Tracks(g, w, StepSteal(g, w))
  {
  }

  lemma {:induction false} MarkTracks(h: Heap, g: Shared, w: Worker, pc: MarkPc, act: Act)
    requires h.BlocksValid() && w.pc == Mark(pc) && (pc.PushObject? ==> pc.o in h.home)
    ensures Tracks(g, w, StepMark(h, g, w, pc, act))
  {
  }

  lemma ShareTracks(size: nat, g: Shared, w: Worker, pc: SharePc)
    requires w.pc == Share(pc) && (pc.ReturnHalf? ==> |w.local| > 2)
    ensures Tracks(g, w, StepShare(size, g, w, pc))
  {
  }

  /** Nobody sleeps without a reason: a worker that is asleep and has not been notified
      sees others active and an empty stack, or a notification is on its way. */
  ghost predicate NoLostWakeup(s: State) {
    forall k :: 0 <= k < |s.ws| ==>
      && (s.ws[k].pc == Wait(Sleep(false)) ==>
            s.g.active > 0 && (|s.g.stack| <= s.g.first || Notifier(s.ws)))
      && (s.ws[k].pc == Leave(MainSleep(false)) ==> s.g.helpers > 0)
  }

  ghost predicate Notifier(ws: seq<Worker>) {
    exists k :: 0 <= k < |ws| && ws[k].pc.Share? && ws[k].pc.share.Notify?
  }

  lemma {:induction false} CommitWakeup(s: State, i: nat, e: Effect)
    requires i < |s.ws| && NoLostWakeup(s) && Tracks(s.g, s.ws[i], e)
    requires s.g.first <= e.g.first
    ensures NoLostWakeup(Commit(s, i, e))
  {
    var s' := Commit(s, i, e);
    if !e.wake {
      assert s'.ws[i] == e.w;
      if k :| 0 <= k < |s.ws| && s.ws[k].pc.Share? && s.ws[k].pc.share.Notify? {
        assert s'.ws[k] == s.ws[k];
      }
    }
  }

  // ---------------------------------------------------------------- quiescence

  ghost predicate Left(pc: Pc) {
    pc.Leave? || pc.Gone?
  }

  /** A worker without entries or words of its own. */
  ghost predicate Idle(w: Worker) {
    && w.local == []
    && w.todo == {}
    && (w.pc.Steal? ==> w.pc.steal.Look?)
    && (w.pc.Mark? ==> w.pc.mark.Scan?)
  }

  /** Nothing is left on the shared stack or with any worker. */
  ghost predicate Drained(s: State) {
    && |s.g.stack| <= s.g.first
    && ZeroBelow(s.g.stack, |s.g.stack|)
    && (forall k :: 0 <= k < |s.ws| ==> Idle(s.ws[k]))
  }

  /** As soon as one worker has left, no work exists anywhere; and once the initiating
      thread is through, no helper is running. */
  ghost predicate Quiescence(s: State) {
    && 0 < |s.ws|
    && ((exists k :: 0 <= k < |s.ws| && Left(s.ws[k].pc)) ==> Drained(s))
    && (Left(s.ws[0].pc) ==> !s.g.helpWanted)
    && (s.ws[0].pc.Gone? ==> s.g.helpers == 0)
  }

  /** Where nothing is left, no step brings new work. */
  lemma {:induction false} IdleStaysIdle(c: Config, s: State, i: nat, act: Act)
    requires CanStep(c, s, i, act) && Drained(s)
    ensures Idle(StepOf(c, s, i, act).w) && StepOf(c, s, i, act).g.stack == s.g.stack
  {
    var g, w := s.g, s.ws[i];
    assert Idle(w);
    match w.pc {
      case Absent =>
      case Seek(pc) =>
      case Wait(pc) =>
      case Steal(_, _, _, _, _) =>
      case Mark(pc) =>
      case Share(pc) =>
      case Leave(pc) =>
      case Gone =>
    }
  }

  /** How a step changes what Quiescence speaks of. */
  ghost predicate LeavesProperly(g: Shared, i: nat, w: Worker, e: Effect) {
    && (Left(e.w.pc) && !Left(w.pc) ==> g.active == 0 && |g.stack| <= g.first && e.g.stack == g.stack && w.pc == Wait(ExitTest))
    && (Left(e.w.pc) && i == 0 && !Left(w.pc) ==> e.w.pc.Leave? && !e.g.helpWanted)
    && (e.g.helpWanted ==> g.helpWanted)
    && (Joined(e.w.pc) && !Joined(w.pc) ==> g.helpWanted)
    && (e.w.pc.Gone? && w.pc.Leave? ==> g.helpers <= 0 && e.g.helpers == g.helpers)
  }

  lemma {:induction false} StepLeaves(c: Config, s: State, i: nat, act: Act)
    requires CanStep(c, s, i, act)
    ensures LeavesProperly(s.g, i, s.ws[i], StepOf(c, s, i, act))
    ensures Left(s.ws[i].pc) ==> Left(StepOf(c, s, i, act).w.pc)
  {
    match s.ws[i].pc {
      case Absent =>
      case Seek(pc) => SeekLeaves(c, s, i, act);
      case Wait(pc) => WaitLeaves(c, s, i, act);
      case Steal(_, _, _, _, _) =>
      case Mark(pc) =>
      case Share(pc) =>
      case Leave(pc) =>
      case Gone =>
    }
  }

  lemma {:induction false} SeekLeaves(c: Config, s: State, i: nat, act: Act)
    requires CanStep(c, s, i, act) && s.ws[i].pc.Seek?
    ensures LeavesProperly(s.g, i, s.ws[i], StepOf(c, s, i, act))
  {
  }

  lemma {:induction false} WaitLeaves(c: Config, s: State, i: nat, act: Act)
    requires CanStep(c, s, i, act) && s.ws[i].pc.Wait?
    ensures LeavesProperly(s.g, i, s.ws[i], StepOf(c, s, i, act))
  {
  }

  lemma {:induction false} CommitQuiescence(c: Config, s: State, i: nat, e: Effect)
    requires Shape(c, s) && Counted(s) && Quiescence(s) && i < |s.ws|
    requires GoodEffect(c, s.g, i, s.ws[i], e) && Tracks(s.g, s.ws[i], e) && LeavesProperly(s.g, i, s.ws[i], e)
    requires Left(s.ws[i].pc) ==> Left(e.w.pc)
    requires Drained(s) ==> Idle(e.w) && e.g.stack == s.g.stack
    ensures Quiescence(Commit(s, i, e))
  {
    var s' := Commit(s, i, e);
    CountZero(s.ws, Active);
    CountZero(s.ws, Joined);
    if exists k :: 0 <= k < |s.ws| && Left(s.ws[k].pc) {
      DrainedKept(s, i, e);
    } else if Left(e.w.pc) {
      forall k | 0 <= k < |s.ws| ensures Idle(s.ws[k]) {
        assert WorkerShape(c, s.g.stack, s.g.marked, s.ws[k]);
      }
      DrainedKept(s, i, e);
    }
  }

  lemma DrainedKept(s: State, i: nat, e: Effect)
    requires Drained(s) && i < |s.ws| && s.g.first <= e.g.first
    requires Idle(e.w) && e.g.stack == s.g.stack
    ensures Drained(Commit(s, i, e))
  {
    var s' := Commit(s, i, e);
    forall k | 0 <= k < |s'.ws| ensures Idle(s'.ws[k]) {
      assert Idle(s.ws[k]);
    }
  }

  // ---------------------------------------------------------------- all runs

  ghost predicate Inv(c: Config, s: State) {
    && c.Valid()
    && Shape(c, s)
    && NothingLost(c, s)
    && Counted(s)
    && NoLostWakeup(s)
    && Quiescence(s)
  }

  /** GC_do_parallel_mark has published a mark stack that accounts for everything the
      marked objects and the roots refer to, and enters GC_mark_local. */
  ghost predicate Init(c: Config, s: State) {
    && c.Valid()
    && 0 < |s.ws|
    && s.g.first == 0 && s.g.active == 1 && s.g.helpers == 1 && s.g.helpWanted && s.g.lock.None?
    && s.g.marked <= c.live
    && (forall a :: In(s.g.stack, a) ==> c.h.Safe(c.live, a))
    && (forall o, a :: o in s.g.marked && c.h.Fields(o).Has(a) && c.h.Target(a).Some? ==>
          c.h.Target(a).value in s.g.marked || In(s.g.stack, a))
    && (forall a :: c.h.RootSlot(a) && c.h.Target(a).Some? ==> c.h.Target(a).value in s.g.marked || In(s.g.stack, a))
    && s.ws[0] == Worker(Seek(AtTop), 0, [], {})
    && (forall k :: 0 < k < |s.ws| ==> s.ws[k] == Worker(Absent, 0, [], {}))
  }

  ghost predicate Next(c: Config, s: State, s': State) {
    exists i, act :: NextBy(c, s, i, act, s')
  }

  ghost predicate NextBy(c: Config, s: State, i: nat, act: Act, s': State) {
    CanStep(c, s, i, act) && s' == Commit(s, i, StepOf(c, s, i, act))
  }

  ghost predicate Run(c: Config, r: seq<State>) {
    && |r| > 0
    && Init(c, r[0])
    && (forall j :: 0 <= j < |r| - 1 ==> Next(c, r[j], r[j + 1]))
  }

  lemma {:induction false} InitInv(c: Config, s: State)
    requires Init(c, s)
    ensures Inv(c, s)
  {
    forall k | 0 <= k < |s.ws| ensures !Left(s.ws[k].pc) && !HoldsLock(s.ws[k].pc) && Idle(s.ws[k]) {
      if k > 0 { assert s.ws[k].pc == Absent; }
    }
    CountZero(s.ws[1..], Active);
    CountZero(s.ws[1..], Joined);
    assert forall k :: 0 <= k < |s.ws[1..]| ==> s.ws[1..][k].pc == Absent;
    forall a, k | 0 <= k < |s.ws| ensures !Has(c, s.g.stack, s.ws[k], a) {
      assert Idle(s.ws[k]);
    }
  }

  lemma {:induction false} NextInv(c: Config, s: State, i: nat, act: Act, s': State)
    requires Inv(c, s) && NextBy(c, s, i, act, s')
    ensures Inv(c, s')
  {
    var e := StepOf(c, s, i, act);
    StepGood(c, s, i, act);
    StepTracks(c, s, i, act);
    StepLeaves(c, s, i, act);
    if Drained(s) {
      IdleStaysIdle(c, s, i, act);
    }
    EffectInv(c, s, i, e);
  }

  lemma {:induction false} EffectInv(c: Config, s: State, i: nat, e: Effect)
    requires Inv(c, s) && i < |s.ws|
    requires GoodEffect(c, s.g, i, s.ws[i], e) && KeepsWork(c, s.g, s.ws[i], e)
    requires Tracks(s.g, s.ws[i], e) && LeavesProperly(s.g, i, s.ws[i], e)
    requires Left(s.ws[i].pc) ==> Left(e.w.pc)
    requires Drained(s) ==> Idle(e.w) && e.g.stack == s.g.stack
    ensures Inv(c, Commit(s, i, e))
  {
    CommitShape(c, s, i, e);
    CommitKeepsWork(c, s, i, e);
    CommitCounted(s, i, e);
    CommitWakeup(s, i, e);
    CommitQuiescence(c, s, i, e);
  }

  lemma {:induction false} RunInv(c: Config, r: seq<State>)
    requires Run(c, r)
    ensures Inv(c, r[|r| - 1])
  {
    if |r| == 1 {
      InitInv(c, r[0]);
    } else {
      var q := r[..|r| - 1];
      assert Run(c, q) by {
        forall j | 0 <= j < |q| - 1 ensures Next(c, q[j], q[j + 1]) {
          assert Next(c, r[j], r[j + 1]);
        }
      }
      RunInv(c, q);
      assert Next(c, r[|r| - 2], r[|r| - 1]);
      var i, act :| NextBy(c, r[|r| - 2], i, act, r[|r| - 1]);
      NextInv(c, r[|r| - 2], i, act, r[|r| - 1]);
    }
  }

  // ---------------------------------------------------------------- what spoils the marks

  /** How many entries worker w is about to return to the shared stack. */
  function Returning(w: Worker): nat {
    match w.pc
    case Share(ReturnAll) => |w.local|
    case Share(ReturnHalf) => if |w.local| > 0 then (|w.local| - 1) / 2 else 0
    case _ => 0
  }

  /** Worker w is about to give up entries: it returns more than the shared stack has room for,
      or pushes an object on a full local stack. */
  predicate Overflows(c: Config, g: Shared, w: Worker)
    requires c.h.BlocksValid()
  {
    || (Returning(w) > 0 && |g.stack| + Returning(w) > c.size)
    || (w.pc.Mark? && w.pc.mark.PushObject? && w.pc.mark.o in c.h.home
        && c.h.Fields(w.pc.mark.o).len > 0 && |w.local| >= LOCAL_MARK_STACK_SIZE)
  }

  /** The marks are spoilt by such steps only, and the mark stack has to grow only when returned
      entries do not fit; those that do are put on top, and nothing else gets there. */
  ghost predicate SpoiltBy(c: Config, g: Shared, w: Worker, e: Effect)
    requires c.h.BlocksValid()
  {
    var n := Returning(w);
    && (e.g.valid <==> g.valid && !Overflows(c, g, w))
    && (e.g.tooSmall <==> g.tooSmall || (n > 0 && Overflows(c, g, w)))
    && (n > 0 ==> n <= |w.local| && e.w.local == w.local[n..]
                  && e.g.stack == if Overflows(c, g, w) then g.stack else g.stack + w.local[..n])
    && (n == 0 ==> |e.g.stack| == |g.stack|)
  }

  lemma {:induction false} StepValid(c: Config, s: State, i: nat, act: Act)
    requires CanStep(c, s, i, act)
    ensures SpoiltBy(c, s.g, s.ws[i], StepOf(c, s, i, act))
  {
    match s.ws[i].pc {
      case Absent =>
      case Seek(pc) =>
      case Wait(pc) =>
      case Steal(_, _, _, _, _) =>
      case Mark(pc) => MarkValid(c, s.g, s.ws[i], pc, act);
      case Share(pc) => ShareValid(c, s.g, s.ws[i], pc);
      case Leave(pc) =>
      case Gone =>
    }
  }

  lemma {:induction false} MarkValid(c: Config, g: Shared, w: Worker, pc: MarkPc, act: Act)
    requires c.h.BlocksValid() && w.pc == Mark(pc) && (pc.PushObject? ==> pc.o in c.h.home)
    ensures SpoiltBy(c, g, w, StepMark(c.h, g, w, pc, act))
  {
  }

  lemma {:induction false} ShareValid(c: Config, g: Shared, w: Worker, pc: SharePc)
    requires c.h.BlocksValid() && w.pc == Share(pc) && ShareShape(w, pc)
    ensures SpoiltBy(c, g, w, StepShare(c.size, g, w, pc))
  {
    assert w.local[..|w.local|] == w.local;
  }

  ghost predicate OverflowStep(c: Config, s: State, s': State)
    requires c.h.BlocksValid()
  {
    exists i: nat, act :: NextBy(c, s, i, act, s') && Overflows(c, s.g, s.ws[i])
  }

  lemma NextValid(c: Config, s: State, s': State)
    requires c.h.BlocksValid() && Next(c, s, s')
    ensures s'.g.valid <==> s.g.valid && !OverflowStep(c, s, s')
  {
    forall i: nat, act | NextBy(c, s, i, act, s') ensures s'.g.valid <==> s.g.valid && !Overflows(c, s.g, s.ws[i]) {
      StepValid(c, s, i, act);
    }
  }

  /** No step of the run gives up entries. */
  ghost predicate NoOverflow(c: Config, r: seq<State>)
    requires c.h.BlocksValid()
  {
    forall j :: 0 <= j < |r| - 1 ==> !OverflowStep(c, r[j], r[j + 1])
  }

  ghost predicate Steps(c: Config, r: seq<State>) {
    |r| > 0 && forall j :: 0 <= j < |r| - 1 ==> Next(c, r[j], r[j + 1])
  }

  lemma {:induction false} StepsValid(c: Config, r: seq<State>)
    requires c.h.BlocksValid() && Steps(c, r)
    ensures r[|r| - 1].g.valid <==> r[0].g.valid && NoOverflow(c, r)
  {
    if |r| == 1 {
      assert NoOverflow(c, r);
    } else {
      var q := r[..|r| - 1];
      assert q[0] == r[0] && q[|q| - 1] == r[|r| - 2];
      LastStep(c, r);
      StepsValid(c, q);
      NextValid(c, r[|r| - 2], r[|r| - 1]);
      LastOverflow(c, r);
    }
  }

  lemma LastStep(c: Config, r: seq<State>)
    requires Steps(c, r) && |r| > 1
    ensures Steps(c, r[..|r| - 1]) && Next(c, r[|r| - 2], r[|r| - 1])
  {
    var n, q := |r| - 2, r[..|r| - 1];
    assert Next(c, r[n], r[n + 1]);
    forall j | 0 <= j < |q| - 1 ensures Next(c, q[j], q[j + 1]) {
      assert Next(c, r[j], r[j + 1]);
    }
  }

  lemma LastOverflow(c: Config, r: seq<State>)
    requires c.h.BlocksValid() && |r| > 1
    ensures NoOverflow(c, r) <==> NoOverflow(c, r[..|r| - 1]) && !OverflowStep(c, r[|r| - 2], r[|r| - 1])
  {
    var n, q := |r| - 2, r[..|r| - 1];
    assert NoOverflow(c, r) ==> !OverflowStep(c, r[n], r[n + 1]);
    if NoOverflow(c, r) {
      forall j | 0 <= j < |q| - 1 ensures !OverflowStep(c, q[j], q[j + 1]) {
        assert !OverflowStep(c, r[j], r[j + 1]);
      }
    }
    if NoOverflow(c, q) && !OverflowStep(c, r[n], r[n + 1]) {
      forall j | 0 <= j < |r| - 1 ensures !OverflowStep(c, r[j], r[j + 1]) {
        assert j < n ==> !OverflowStep(c, q[j], q[j + 1]);
      }
    }
  }

  /** At the end of a run the marks are valid if and only if they were at its beginning and no
      step on the way gave up entries. */
  lemma ValidIff(c: Config, r: seq<State>)
    requires Run(c, r)
    ensures r[|r| - 1].g.valid <==> r[0].g.valid && NoOverflow(c, r)
  {
    StepsValid(c, r);
  }

  // ---------------------------------------------------------------- no stack overruns its array

  /** A local stack has room for what a thief takes: only few entries at a time, on an empty stack. */
  ghost predicate LocalFits(w: Worker) {
    && |w.local| <= LOCAL_MARK_STACK_SIZE
    && (w.pc.Steal? ==>
          && |w.local| <= w.pc.taken && |w.local| <= w.pc.wanted + 1 && w.pc.wanted <= ENTRIES_TO_GET
          && (!w.pc.steal.Look? ==> w.pc.taken <= w.pc.wanted))
  }

  ghost predicate AllFit(c: Config, s: State) {
    |s.g.stack| <= c.size && forall k :: 0 <= k < |s.ws| ==> LocalFits(s.ws[k])
  }

  lemma {:induction false} StepFits(c: Config, s: State, i: nat, act: Act)
    requires CanStep(c, s, i, act) && LocalFits(s.ws[i])
    ensures LocalFits(StepOf(c, s, i, act).w)
  {
    assert WorkerShape(c, s.g.stack, s.g.marked, s.ws[i]);
    match s.ws[i].pc {
      case Absent =>
      case Seek(pc) =>
      case Wait(pc) =>
      case Steal(_, _, _, _, _) =>
      case Mark(pc) =>
      case Share(pc) =>
      case Leave(pc) =>
      case Gone =>
    }
  }

  lemma {:induction false} NextFits(c: Config, s: State, s': State)
    requires Next(c, s, s') && AllFit(c, s)
    ensures AllFit(c, s')
  {
    var i: nat, act :| NextBy(c, s, i, act, s');
    StepFits(c, s, i, act);
    StepValid(c, s, i, act);
    SharedFits(c, s.g, s.ws[i], StepOf(c, s, i, act));
    CommitFits(c, s, i, StepOf(c, s, i, act));
  }

  lemma SharedFits(c: Config, g: Shared, w: Worker, e: Effect)
    requires c.h.BlocksValid() && SpoiltBy(c, g, w, e) && |g.stack| <= c.size
    ensures |e.g.stack| <= c.size
  {
  }

  lemma CommitFits(c: Config, s: State, i: nat, e: Effect)
    requires i < |s.ws| && AllFit(c, s) && LocalFits(e.w) && |e.g.stack| <= c.size
    ensures AllFit(c, Commit(s, i, e))
  {
  }

  /** If the published mark stack is no longer than its array, then in no state of a run does it
      or a local stack run over. */
  lemma {:induction false} NoOverrun(c: Config, r: seq<State>)
    requires Steps(c, r) && AllFit(c, r[0])
    ensures AllFit(c, r[|r| - 1])
  {
    if |r| > 1 {
      LastStep(c, r);
      NoOverrun(c, r[..|r| - 1]);
      NextFits(c, r[|r| - 2], r[|r| - 1]);
    }
  }

  /** The state in which a run has ended never stands in the way of a step: what CanStep asks
      for besides is known of it. */
  lemma {:induction false} EnabledMeansCanStep(c: Config, r: seq<State>, i: nat, act: Act)
    requires Run(c, r) && i < |r[|r| - 1].ws|
    ensures CanStep(c, r[|r| - 1], i, act) <==> Enabled(r[|r| - 1].g, |r[|r| - 1].ws|, i, r[|r| - 1].ws[i], act)
  {
    RunInv(c, r);
  }

  /** In every interleaving: when some worker has left GC_mark_local, either the marks are
      spoilt (MS_INVALID) or every object reachable from the marked ones and the roots is
      marked; nothing dead is marked; and nobody has work left. */
  lemma {:induction false} LeavingMeansDone(c: Config, r: seq<State>, k: nat)
    requires Run(c, r)
    requires k < |r[|r| - 1].ws| && Left(r[|r| - 1].ws[k].pc)
    ensures
      var s := r[|r| - 1];
      && (forall a :: !WorkAt(c, s, a))
      && s.g.marked <= c.live
      && (s.g.valid ==> forall from, o :: from <= s.g.marked && c.h.Reach(false, from, o) ==> o in s.g.marked)
  {
    var s := r[|r| - 1];
    RunInv(c, r);
    forall a ensures !WorkAt(c, s, a) {
    }
    if s.g.valid {
      forall from, o | from <= s.g.marked && c.h.Reach(false, from, o) ensures o in s.g.marked {
        var p :| c.h.ReachBy(false, from, p, o);
        forall o', a | o' in s.g.marked && o' in c.h.home && c.h.Fields(o').Has(a) && c.h.Target(a).Some?
          ensures c.h.Target(a).value in s.g.marked
        {
          assert Settled(c, s, a);
        }
        forall a | c.h.RootSlot(a) && c.h.Target(a).Some? ensures c.h.Target(a).value in s.g.marked {
          assert Settled(c, s, a);
        }
        ClosureContainsReach(c.h, from, s.g.marked, p);
      }
    }
  }

  /** When GC_do_parallel_mark returns, no helper is running, GC_mark_stack_top is below
      GC_first_nonempty, and this stays so. */
  lemma {:induction false} ReturnMeansNoHelpers(c: Config, r: seq<State>)
    requires Run(c, r) && 0 < |r[|r| - 1].ws| && r[|r| - 1].ws[0].pc.Gone?
    ensures
      var s := r[|r| - 1];
      && |s.g.stack| <= s.g.first
      && (forall k :: 0 <= k < |s.ws| ==> !Joined(s.ws[k].pc))
      && (forall k, act :: 0 <= k < |s.ws| && s.ws[k].pc.Absent? ==> !Enabled(s.g, |s.ws|, k, s.ws[k], act))
  {
    var s := r[|r| - 1];
    RunInv(c, r);
    assert Left(s.ws[0].pc);
    CountZero(s.ws, Joined);
  }

  predicate Taking(w: Worker) {
    !w.pc.Absent? && !w.pc.Gone?
  }

  /** A step that does not rely on a spurious wake-up. */
  ghost predicate CanGoOn(s: State, k: nat) {
    && k < |s.ws|
    && s.ws[k].pc != Wait(Sleep(false))
    && s.ws[k].pc != Leave(MainSleep(false))
    && exists act :: Enabled(s.g, |s.ws|, k, s.ws[k], act)
  }

  /** The notifications suffice: no run gets stuck before everybody has left. */
  lemma {:induction false} NoDeadlock(c: Config, r: seq<State>) returns (k: nat)
    requires Run(c, r)
    requires exists w :: w in r[|r| - 1].ws && Taking(w)
    ensures CanGoOn(r[|r| - 1], k)
  {
    var s := r[|r| - 1];
    RunInv(c, r);
    k :| 0 <= k < |s.ws| && Taking(s.ws[k]);
    if j :| 0 <= j < |s.ws| && HoldsLock(s.ws[j].pc) {
      k := j;
      assert Enabled(s.g, |s.ws|, k, s.ws[k], Go);
    } else if j :| 0 <= j < |s.ws| && Active(s.ws[j].pc) {
      k := j;
      ActiveGoesOn(c, s, k);
    } else {
      CountZero(s.ws, Active);
      CountZero(s.ws, Joined);
      if j :| 0 <= j < |s.ws| && Joined(s.ws[j].pc) {
        k := j;
      }
      assert Enabled(s.g, |s.ws|, k, s.ws[k], WakeUp);
    }
  }

  lemma ActiveGoesOn(c: Config, s: State, k: nat)
    requires Shape(c, s) && k < |s.ws| && Active(s.ws[k].pc)
    requires forall j :: 0 <= j < |s.ws| ==> !HoldsLock(s.ws[j].pc)
    ensures CanGoOn(s, k)
  {
    var w := s.ws[k];
    if w.pc == Mark(Scan) && w.todo != {} {
      var a :| a in w.todo;
      assert Enabled(s.g, |s.ws|, k, w, Pick(a));
    } else {
      assert Enabled(s.g, |s.ws|, k, w, Go);
    }
  }

  // ---------------------------------------------------------------- its place in GC_mark_some

  /** In state MS_ROOTS_PUSHED the mark stack is what a parallel mark may start from. */
  lemma {:induction false} RootsPushedStarts(c: Config, s: State, p: MarkSteps.Snap, objectsMarked: bool)
    requires c.Valid() && MarkPhase.PhaseInv(c.h, c.live, p, 0, objectsMarked)
    requires p.st == MarkSteps.MS_ROOTS_PUSHED && MarkSteps.StackSafe(c.h, c.live, p.stack)
    requires s.g == Shared(p.stack, 0, true, false, 1, 1, true, None, p.marked)
    requires 0 < |s.ws| && s.ws[0] == Worker(Seek(AtTop), 0, [], {})
    requires forall k :: 0 < k < |s.ws| ==> s.ws[k] == Worker(Absent, 0, [], {})
    ensures Init(c, s)
  {
    forall o, a | o in p.marked && c.h.Fields(o).Has(a) ensures MarkSteps.Settled(c.h, p, a) {
      assert MarkSteps.Scanned(c.h, p, o);
    }
    forall a | c.h.RootSlot(a) ensures MarkSteps.Settled(c.h, p, a) {
      assert MarkPhase.RootOwed(c.h, p.st, a);
    }
  }

  /** And if nothing overflowed, its end is the invariant of MS_NONE with an empty stack;
      if something did, that of MS_INVALID. */
  lemma {:induction false} ParallelMarkResult(c: Config, r: seq<State>)
    requires Run(c, r) && 0 < |r[|r| - 1].ws| && r[|r| - 1].ws[0].pc.Gone?
    ensures
      var g := r[|r| - 1].g;
      var st := if g.valid then MarkSteps.MS_NONE else MarkSteps.MS_INVALID;
      MarkPhase.PhaseInv(c.h, c.live, MarkSteps.Snap(st, g.marked, [], []), 0, true)
  {
    var s := r[|r| - 1];
    RunInv(c, r);
    assert Left(s.ws[0].pc);
    LeavingMeansDone(c, r, 0);
    if s.g.valid {
      var p := MarkSteps.Snap(MarkSteps.MS_NONE, s.g.marked, [], []);
      forall o | o in p.marked ensures MarkSteps.Scanned(c.h, p, o) {
        forall a | c.h.Fields(o).Has(a) ensures MarkSteps.Settled(c.h, p, a) {
          assert Settled(c, s, a);
        }
      }
      forall a | c.h.RootSlot(a) ensures MarkSteps.Settled(c.h, p, a) {
        assert Settled(c, s, a);
      }
    }
  }
}
