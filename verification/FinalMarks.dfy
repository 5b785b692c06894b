/** Marking for finalization: what the mark procedures of the unreachable objects lead to is
    marked from the bounded stack, which is drained after every object but not recovered when
    it overflows. */
module FinalMarks {
  import opened Basics
  import opened MarkHeap
  import opened MarkSteps

  /** The mark procedures a finalizer may be registered with. */
  datatype Proc = NormalProc | IgnoreSelfProc | NullProc | UnreachableProc

  datatype Fo = Fo(fn: nat, clientData: nat, size: nat, proc: Proc)

  /** A finalization entry with its object. */
  datatype Ready = Ready(obj: nat, fo: Fo)

  /** The word at a, of the object o, is one the mark procedure follows.  A pointer lies inside
      o exactly when o is its base, or it has none. */
  ghost predicate Leads(h: Heap, proc: Proc, o: nat, a: nat)
    requires h.BlocksValid() && o in h.home
  {
    && h.Fields(o).Has(a)
    && (match proc
        case NormalProc => true
        case UnreachableProc => true
        case IgnoreSelfProc => h.Target(a) != Some(o)
        case NullProc => false)
  }

  // ---- The closure that is asked for.

  /** t holds m0, what the scanned words of its objects refer to, and what the mark procedures
      of the registered objects outside m0 lead to. */
  ghost predicate Above(h: Heap, m: map<nat, Fo>, m0: set<nat>, t: set<nat>)
    requires h.BlocksValid() && m.Keys <= h.Objs()
  {
    && h.FieldsClosed(t, {})
    && m0 <= t
    && (forall x, a :: x in m && x !in m0 && Leads(h, m[x].proc, x, a) ==> h.Safe(t, a))
  }

  ghost predicate IsClosure(h: Heap, m: map<nat, Fo>, m0: set<nat>, s: set<nat>)
    requires h.BlocksValid() && m.Keys <= h.Objs()
  {
    Above(h, m, m0, s) && forall t: set<nat> :: Above(h, m, m0, t) ==> s <= t
  }

  ghost function Closure(h: Heap, m: map<nat, Fo>, m0: set<nat>): set<nat>
    requires h.BlocksValid() && m.Keys <= h.Objs()
  {
    set o | o in h.Objs() && forall t: set<nat> :: Above(h, m, m0, t) ==> o in t
  }

  lemma ClosureUnique(h: Heap, m: map<nat, Fo>, m0: set<nat>, s: set<nat>, t: set<nat>)
    requires h.BlocksValid() && m.Keys <= h.Objs()
    requires IsClosure(h, m, m0, s) && IsClosure(h, m, m0, t)
    ensures s == t
  {
    assert Above(h, m, m0, s) && Above(h, m, m0, t);
  }

  lemma {:induction false} ClosureIs(h: Heap, m: map<nat, Fo>, m0: set<nat>)
    requires h.Valid() && m.Keys <= h.Objs() && m0 <= h.Objs()
    ensures IsClosure(h, m, m0, Closure(h, m, m0))
  {
    var s := Closure(h, m, m0);
    forall a: nat | (forall t: set<nat> :: Above(h, m, m0, t) ==> h.Safe(t, a)) ensures h.Safe(s, a) {
      if h.Target(a).Some? {
        assert h.Target(a).value in h.Objs();
        forall t: set<nat> | Above(h, m, m0, t) ensures h.Target(a).value in t {
          assert h.Safe(t, a);
        }
      }
    }
    assert Above(h, m, m0, h.Objs());
    assert h.FieldsClosed(s, {}) by {
      forall o, a | o in s && h.Fields(o).Has(a) ensures h.Safe(s, a) {
        forall t: set<nat> | Above(h, m, m0, t) ensures h.Safe(t, a) {
          assert o in t;
        }
      }
    }
  }

  // ---- One object.

  /** GC_ignore_self_finalize_mark_proc, after n words. */
  ghost function IgnoreSelf(h: Heap, size: nat, s: Snap, o: nat, n: nat): (r: Snap)
    requires h.Valid() && |s.stack| <= size && INITIAL_MARK_STACK_SIZE <= size
    ensures |r.stack| <= size
    decreases n
  {
    if n == 0 then s
    else
      var t, q := IgnoreSelf(h, size, s, o, n - 1), h.load(o + n - 1);
      if h.base(q) == Some(o) then t else Considered(h, size, t, q)
  }

  /** What the mark procedure of o does. */
  ghost function ProcSnap(h: Heap, size: nat, s: Snap, proc: Proc, o: nat): (r: Snap)
    requires h.Valid() && o in h.home && |s.stack| <= size && INITIAL_MARK_STACK_SIZE <= size
    ensures |r.stack| <= size
  {
    match proc
    case NullProc => s
    case IgnoreSelfProc => IgnoreSelf(h, size, s, o, h.Fields(o).len)
    case _ => if h.Fields(o).len == 0 then s else WithEntry(size, s, h.Fields(o))
  }

  /** The stack is empty and nothing stands in the way of marking. */
  ghost predicate Quiet(h: Heap, size: nat, s: Snap) {
    && h.Valid() && INITIAL_MARK_STACK_SIZE <= size
    && s.stack == [] && s.marked <= h.Objs()
    && (s.st != MS_INVALID ==> s.dropped == [])
  }

  lemma QuietOk(h: Heap, size: nat, s: Snap)
    requires Quiet(h, size, s)
    ensures SnapOk(h, h.Objs(), size, s)
    ensures forall a :: h.Safe(h.Objs(), a)
  {
  }

  /** What the mark procedure of o leads to, through the n words from o, is marked. */
  ghost predicate LedTo(h: Heap, marked: set<nat>, o: nat, n: nat) {
    forall a: nat :: o <= a < o + n && h.Target(a).Some? && h.Target(a) != Some(o) ==> h.Target(a).value in marked
  }

  ghost predicate LeadsSafely(h: Heap, live: set<nat>, o: nat, n: nat) {
    forall a: nat :: o <= a < o + n && h.Target(a) != Some(o) ==> h.Safe(live, a)
  }

  lemma {:induction false} IgnoreSelfNext(h: Heap, live: set<nat>, size: nat, s: Snap, o: nat, n: nat, b: Snap, c: Snap)
    requires h.Valid() && n > 0 && Follows(h, live, size, s, b) && LedTo(h, b.marked, o, n - 1)
    requires h.Target(o + n - 1) != Some(o) ==> h.Safe(live, o + n - 1)
    requires c == if h.Target(o + n - 1) == Some(o) then b else Considered(h, size, b, h.load(o + n - 1))
    ensures Follows(h, live, size, s, c) && LedTo(h, c.marked, o, n)
  {
    if h.Target(o + n - 1) != Some(o) {
      ConsideredFollows(h, live, size, b, o + n - 1);
      FollowsTransitive(h, live, size, s, b, c);
    }
  }

  lemma {:induction false} IgnoreSelfFollows(h: Heap, live: set<nat>, size: nat, s: Snap, o: nat, n: nat, c: Snap)
    requires h.Valid() && SnapOk(h, live, size, s) && LeadsSafely(h, live, o, n)
    requires c == IgnoreSelf(h, size, s, o, n)
    ensures Follows(h, live, size, s, c) && LedTo(h, c.marked, o, n)
    decreases n
  {
    if n == 0 {
      FollowsSelf(h, live, size, s);
    } else {
      var b := IgnoreSelf(h, size, s, o, n - 1);
      IgnoreSelfFollows(h, live, size, s, o, n - 1, b);
      IgnoreSelfNext(h, live, size, s, o, n, b, c);
    }
  }

  /** What the words followed refer to is accounted for. */
  ghost predicate LedSettled(h: Heap, s: Snap, proc: Proc, o: nat)
    requires h.BlocksValid() && o in h.home
  {
    forall a :: Leads(h, proc, o, a) ==> Settled(h, s, a)
  }

  /** Marking in between keeps the stack within the number of new pointer-containing objects,
      and one more. */
  ghost predicate Thrifty(h: Heap, size: nat, b: Snap, c: Snap)
    requires h.BlocksValid()
  {
    && |c.stack| <= 1 + |NewPointers(h, b.marked, c.marked)|
    && (c.dropped != b.dropped ==> size <= |NewPointers(h, b.marked, c.marked)|)
  }

  lemma {:induction false} ProcFollows(h: Heap, live: set<nat>, size: nat, s: Snap, proc: Proc, o: nat, c: Snap)
    requires h.Valid() && SnapOk(h, live, size, s) && s.stack == [] && o in h.home
    requires forall a :: Leads(h, proc, o, a) ==> h.Safe(live, a)
    requires c == ProcSnap(h, size, s, proc, o)
    ensures SnapOk(h, live, size, c) && Advance(h, live, s, c) && Thrifty(h, size, s, c) && LedSettled(h, c, proc, o)
  {
    var e := h.Fields(o);
    match proc {
      case NullProc =>
        FollowsSelf(h, live, size, s);
      case IgnoreSelfProc =>
        assert LeadsSafely(h, live, o, e.len) by {
          forall a: nat | o <= a < o + e.len && h.Target(a) != Some(o) ensures h.Safe(live, a) {
            assert Leads(h, proc, o, a);
          }
        }
        IgnoreSelfFollows(h, live, size, s, o, e.len, c);
      case _ =>
        forall a: nat ensures e.len != 0 ==> (In(c.stack, a) <==> e.Has(a)) {
          InPush(s.stack, e, a);
        }
    }
  }

  /** GC_mark_fo: the mark procedure, then the mark stack until it is empty. */
  ghost function AfterFo(h: Heap, size: nat, s: Snap, proc: Proc, o: nat): (r: Snap)
    requires Quiet(h, size, s) && o in h.home
    ensures Quiet(h, size, r)
  {
    QuietOk(h, size, s);
    var c := ProcSnap(h, size, s, proc, o);
    ProcFollows(h, h.Objs(), size, s, proc, o, c);
    DrainedFollows(h, h.Objs(), size, c);
    Drained(h, size, c)
  }

  lemma {:induction false} AfterFoFollows(h: Heap, live: set<nat>, size: nat, s: Snap, proc: Proc, o: nat, c: Snap)
    requires Quiet(h, size, s) && SnapOk(h, live, size, s) && o in h.home
    requires forall a :: Leads(h, proc, o, a) ==> h.Safe(live, a)
    requires c == AfterFo(h, size, s, proc, o)
    ensures SnapOk(h, live, size, c) && Advance(h, live, s, c) && LedSettled(h, c, proc, o)
    ensures c.dropped != s.dropped ==> size <= |NewPointers(h, s.marked, c.marked)|
  {
    var b := ProcSnap(h, size, s, proc, o);
    ProcFollows(h, live, size, s, proc, o, b);
    DrainedFollows(h, live, size, b);
    AdvanceTransitive(h, live, s, b, c);
    NewPointersAdd(h, s.marked, b.marked, c.marked);
  }

  // ---- All objects.

  ghost predicate AllIn(h: Heap, order: seq<Ready>) {
    forall r :: r in order ==> r.obj in h.home
  }

  /** The first loop of GC_finalize, over the registrations in the order in which it meets them. */
  ghost function AfterAll(h: Heap, size: nat, s: Snap, order: seq<Ready>): (r: Snap)
    requires Quiet(h, size, s) && AllIn(h, order)
    ensures Quiet(h, size, r)
    decreases |order|
  {
    if order == [] then s
    else
      var t, e := AfterAll(h, size, s, order[..|order| - 1]), order[|order| - 1];
      if e.obj in t.marked then t else AfterFo(h, size, t, e.fo.proc, e.obj)
  }

  /** The order lists the registrations of m, each once. */
  ghost predicate Lists(order: seq<Ready>, m: map<nat, Fo>) {
    && (forall r :: r in order ==> r.obj in m && m[r.obj] == r.fo)
    && (forall x :: x in m ==> Ready(x, m[x]) in order)
    && (forall a, b :: 0 <= a < b < |order| ==> order[a].obj != order[b].obj)
  }

  /** What holds of the state after some of the registrations. */
  ghost predicate Underway(h: Heap, m: map<nat, Fo>, m0: set<nat>, live: set<nat>, size: nat, order: seq<Ready>, c: Snap)
    requires h.BlocksValid() && m.Keys <= h.Objs()
  {
    && SnapOk(h, live, size, c) && m0 <= c.marked
    && (forall o :: o in c.marked ==> Scanned(h, c, o))
    && (forall r :: r in order && r.obj in m && r.obj !in m0 ==> LedSettled(h, c, r.fo.proc, r.obj))
    && StackSafe(h, live, c.dropped)
    && (c.dropped != [] ==> size <= |NewPointers(h, m0, c.marked)|)
  }

  lemma {:induction false} AfterOne(h: Heap, m: map<nat, Fo>, m0: set<nat>, live: set<nat>, size: nat, before: seq<Ready>, e: Ready, t: Snap, c: Snap)
    requires Quiet(h, size, t) && m.Keys <= h.Objs() && Above(h, m, m0, live)
    requires Underway(h, m, m0, live, size, before, t) && e.obj in m && m[e.obj] == e.fo
    requires c == if e.obj in t.marked then t else AfterFo(h, size, t, e.fo.proc, e.obj)
    ensures Underway(h, m, m0, live, size, before + [e], c)
  {
    if e.obj in t.marked {
      assert Scanned(h, t, e.obj);
    } else {
      AfterFoFollows(h, live, size, t, e.fo.proc, e.obj, c);
      NewPointersAdd(h, m0, t.marked, c.marked);
      forall o | o in c.marked ensures Scanned(h, c, o) {
        if o in t.marked {
          assert Scanned(h, t, o);
        }
      }
    }
    forall r | r in before + [e] && r.obj in m && r.obj !in m0 ensures LedSettled(h, c, r.fo.proc, r.obj) {
      if r in before {
        assert LedSettled(h, t, r.fo.proc, r.obj);
      }
    }
  }

  lemma {:induction false} AfterAllUnderway(h: Heap, m: map<nat, Fo>, live: set<nat>, size: nat, s: Snap, order: seq<Ready>)
    requires Quiet(h, size, s) && AllIn(h, order) && s.dropped == [] && h.FieldsClosed(s.marked, {})
    requires m.Keys <= h.Objs() && IsClosure(h, m, s.marked, live)
    requires forall r :: r in order ==> r.obj in m && m[r.obj] == r.fo
    ensures Underway(h, m, s.marked, live, size, order, AfterAll(h, size, s, order))
    decreases |order|
  {
    if order == [] {
      assert Above(h, m, s.marked, live);
      forall o, a | o in s.marked && h.Fields(o).Has(a) ensures Settled(h, s, a) {
        assert h.Safe(s.marked, a);
      }
    } else {
      var before, e := order[..|order| - 1], order[|order| - 1];
      AfterAllUnderway(h, m, live, size, s, before);
      AfterOne(h, m, s.marked, live, size, before, e, AfterAll(h, size, s, before), AfterAll(h, size, s, order));
      assert order == before + [e];
    }
  }

  // ---- When the marks are those asked for.

  /** No entry that was thrown away still leads to an unmarked object. */
  ghost predicate NothingLost(h: Heap, c: Snap) {
    forall a :: In(c.dropped, a) ==> h.Safe(c.marked, a)
  }

  /** Fewer unmarked objects with pointers have to be marked than the stack has entries. */
  ghost predicate Few(h: Heap, m: map<nat, Fo>, m0: set<nat>, size: nat)
    requires h.BlocksValid() && m.Keys <= h.Objs()
  {
    |NewPointers(h, m0, Closure(h, m, m0))| < size
  }

  lemma {:induction false} FewerPointers(h: Heap, m0: set<nat>, b: set<nat>, c: set<nat>)
    requires h.BlocksValid() && b <= c
    ensures |NewPointers(h, m0, b)| <= |NewPointers(h, m0, c)|
  {
    var x, y := NewPointers(h, m0, b), NewPointers(h, m0, c);
    assert y == x + (y - x);
  }

  /** Whatever the order of the registrations, nothing is marked that should not be; and all is
      marked that should be exactly when no entry thrown away still leads to an unmarked object.
      No entry is thrown away if fewer unmarked objects with pointers are to be marked than the
      stack has entries. */
  lemma {:induction false} MarksExactIff(h: Heap, m: map<nat, Fo>, size: nat, s: Snap, order: seq<Ready>)
    requires Quiet(h, size, s) && s.dropped == [] && h.FieldsClosed(s.marked, {})
    requires m.Keys <= h.Objs() && AllIn(h, order) && Lists(order, m)
    ensures var c := AfterAll(h, size, s, order);
      && s.marked <= c.marked <= Closure(h, m, s.marked)
      && (IsClosure(h, m, s.marked, c.marked) <==> NothingLost(h, c))
      && (Few(h, m, s.marked, size) ==> c.dropped == [] && IsClosure(h, m, s.marked, c.marked))
    ensures |NewPointers(h, s.marked, h.Objs())| < size ==> Few(h, m, s.marked, size)
  {
    var m0, live, c := s.marked, Closure(h, m, s.marked), AfterAll(h, size, s, order);
    ClosureIs(h, m, m0);
    AfterAllUnderway(h, m, live, size, s, order);
    FewerPointers(h, m0, c.marked, live);
    FewerPointers(h, m0, live, h.Objs());
    if NothingLost(h, c) {
      AllMarked(h, m, m0, live, size, order, c);
    }
    if IsClosure(h, m, m0, c.marked) {
      ClosureUnique(h, m, m0, c.marked, live);
    }
  }

  lemma {:induction false} AllMarked(h: Heap, m: map<nat, Fo>, m0: set<nat>, live: set<nat>, size: nat, order: seq<Ready>, c: Snap)
    requires h.Valid() && m.Keys <= h.Objs() && IsClosure(h, m, m0, live) && Lists(order, m)
    requires Underway(h, m, m0, live, size, order, c) && c.stack == [] && NothingLost(h, c)
    ensures IsClosure(h, m, m0, c.marked)
  {
    forall a | Settled(h, c, a) ensures h.Safe(c.marked, a) {
    }
    forall o, a | o in c.marked && h.Fields(o).Has(a) ensures h.Safe(c.marked, a) {
      assert Scanned(h, c, o);
      assert Settled(h, c, a);
    }
    forall x, a | x in m && x !in m0 && Leads(h, m[x].proc, x, a) ensures h.Safe(c.marked, a) {
      assert Ready(x, m[x]) in order;
      assert LedSettled(h, c, m[x].proc, x);
      assert Settled(h, c, a);
    }
    assert Above(h, m, m0, c.marked);
  }

  // ---- What a collection queues.

  function Objs(q: seq<Ready>): set<nat> {
    set r | r in q :: r.obj
  }

  /** q holds the entries of m that m' lacks, each once, and their objects are unmarked. */
  ghost predicate Enqueuing(m: map<nat, Fo>, m': map<nat, Fo>, q: seq<Ready>, marked: set<nat>) {
    && (forall x: nat :: x in m' ==> x in m && m'[x] == m[x])
    && (forall x: nat :: x in m && x in marked ==> x in m')
    && (forall x: nat :: x in m && x !in m' ==> Ready(x, m[x]) in q)
    && (forall r :: r in q ==> r.obj in m && r.obj !in m' && r.fo == m[r.obj] && r.obj !in marked)
    && (forall a, b :: 0 <= a < b < |q| ==> q[a].obj != q[b].obj)
  }

  lemma {:induction false} EnqueueOne(m: map<nat, Fo>, m': map<nat, Fo>, q: seq<Ready>, marked: set<nat>, x: nat)
    requires Enqueuing(m, m', q, marked) && x in m' && x !in marked
    ensures Enqueuing(m, m' - {x}, [Ready(x, m'[x])] + q, marked)
    ensures Objs([Ready(x, m'[x])] + q) == {x} + Objs(q)
  {
    var q' := [Ready(x, m'[x])] + q;
    forall a, b | 0 <= a < b < |q'| ensures q'[a].obj != q'[b].obj {
      assert q'[b] == q[b - 1] && q[b - 1] in q;
    }
    forall y: nat ensures y in Objs(q') <==> y in {x} + Objs(q) {
      if y in Objs(q) {
        var r :| r in q && r.obj == y;
        assert r in q';
      }
      assert Ready(x, m'[x]) in q';
    }
  }

  /** q has been put before the queue and its objects have been marked. */
  ghost predicate Grown(queue: seq<Ready>, queue': seq<Ready>, f: set<nat>, marks: set<nat>, q: seq<Ready>) {
    queue' == q + queue && marks == f + Objs(q)
  }

  /** What queueing does: the unmarked registrations, each once, leave the table for the queue. */
  ghost predicate Enqueued(m: map<nat, Fo>, m': map<nat, Fo>, q: seq<Ready>, marked: set<nat>) {
    Enqueuing(m, m', q, marked) && forall x: nat :: x in m' ==> x in marked
  }

  lemma {:induction false} ObjsCard(q: seq<Ready>)
    requires forall a, b :: 0 <= a < b < |q| ==> q[a].obj != q[b].obj
    ensures |Objs(q)| == |q|
  {
    if q != [] {
      ObjsCard(q[1..]);
      assert q == [q[0]] + q[1..];
      assert q[0].obj !in Objs(q[1..]) by {
        forall r | r in q[1..] ensures r.obj != q[0].obj {
          var a :| 0 <= a < |q[1..]| && q[1..][a] == r;
          assert q[a + 1] == r;
        }
      }
      assert Objs(q) == {q[0].obj} + Objs(q[1..]);
    }
  }

  /** The objects queued are the registered ones still unmarked, and no registration is lost or
      doubled. */
  lemma {:induction false} QueuedUnmarked(m: map<nat, Fo>, m': map<nat, Fo>, q: seq<Ready>, f: set<nat>)
    requires Enqueued(m, m', q, f)
    ensures Objs(q) == m.Keys - f
    ensures |m| == |m'| + |q|
  {
    forall x: nat | x in m && x !in f ensures x in Objs(q) {
      assert Ready(x, m[x]) in q;
    }
    ObjsCard(q);
    assert m.Keys == m'.Keys + Objs(q) && m'.Keys !! Objs(q) by {
      forall x: nat | x in m && x !in m' ensures x in Objs(q) {
        assert Ready(x, m[x]) in q;
      }
    }
    assert |m| == |m.Keys| && |m'| == |m'.Keys|;
  }

  /** They are the registered ones outside the closure exactly when every registered object of the
      closure has been marked; in any case they include those. */
  lemma {:induction false} QueuedExactly(h: Heap, m: map<nat, Fo>, m0: set<nat>, f: set<nat>, m': map<nat, Fo>, q: seq<Ready>)
    requires h.Valid() && m.Keys <= h.Objs() && f <= Closure(h, m, m0) && Enqueued(m, m', q, f)
    ensures m.Keys - Closure(h, m, m0) <= Objs(q)
    ensures Objs(q) == m.Keys - Closure(h, m, m0) <==> m.Keys * Closure(h, m, m0) <= f
  {
    QueuedUnmarked(m, m', q, f);
    var cl := Closure(h, m, m0);
    if m.Keys - f == m.Keys - cl {
      forall x | x in m.Keys && x in cl ensures x in f {
        assert x !in m.Keys - cl;
      }
    }
  }

  /** If the marks end closed, what is queued does not depend on how the entries are spread over
      the chains, nor on the order in which they are met. */
  lemma {:induction false} OrderIndependent(h: Heap, m: map<nat, Fo>, m0: set<nat>, f1: set<nat>, f2: set<nat>,
                         m1: map<nat, Fo>, m2: map<nat, Fo>, q1: seq<Ready>, q2: seq<Ready>)
    requires h.Valid() && m.Keys <= h.Objs() && m0 <= h.Objs()
    requires IsClosure(h, m, m0, f1) && IsClosure(h, m, m0, f2)
    requires Enqueued(m, m1, q1, f1) && Enqueued(m, m2, q2, f2)
    ensures m1 == m2 && Objs(q1) == Objs(q2) && f1 + Objs(q1) == f2 + Objs(q2)
  {
    ClosureIs(h, m, m0);
    ClosureUnique(h, m, m0, f1, f2);
    ClosureUnique(h, m, m0, f1, Closure(h, m, m0));
    QueuedUnmarked(m, m1, q1, f1);
    QueuedUnmarked(m, m2, q2, f2);
    forall x: nat | x in m ensures x in m1 <==> x in m2 {
      assert x in m1 <==> x in f1;
    }
  }

  /** If the marks end closed, an object is queued only when no other queued object reaches it
      through what its own mark procedure leads to; in particular none lies on a cycle through
      ordered finalizers. */
  lemma {:induction false} OrderedAfterReferrers(h: Heap, m: map<nat, Fo>, m0: set<nat>, f: set<nat>, m': map<nat, Fo>, q: seq<Ready>,
                              referrer: Ready, x: nat)
    requires h.Valid() && m.Keys <= h.Objs() && h.FieldsClosed(m0, {})
    requires IsClosure(h, m, m0, f) && Enqueued(m, m', q, f)
    requires referrer in q && x in Reached(h, referrer)
    ensures x !in Objs(q)
  {
    var one := map[referrer.obj := referrer.fo];
    ClosureIs(h, m, m0);
    ClosureIs(h, one, {});
    ClosureUnique(h, m, m0, f, Closure(h, m, m0));
    forall a | Leads(h, referrer.fo.proc, referrer.obj, a) ensures h.Safe(f, a) {
      assert Leads(h, m[referrer.obj].proc, referrer.obj, a);
    }
    assert Above(h, one, {}, f);
    QueuedUnmarked(m, m', q, f);
  }

  /** What can be reached through the mark procedure of an entry. */
  ghost function Reached(h: Heap, r: Ready): set<nat>
    requires h.Valid() && r.obj in h.home
  {
    Closure(h, map[r.obj := r.fo], {})
  }
}
