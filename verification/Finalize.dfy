/** Finalization: registration, disappearing links and the queueing of unreachable objects. */
module Finalize {
  import opened Basics
  import opened ChainTable
  import opened FinalMarks
  import opened MarkHeap
  import opened MarkPhase
  import opened MarkSteps

  /** A mark procedure at work, on an empty mark stack. */
  method RunProc(mk: Marker, proc: Proc, o: nat)
    requires mk.Usable() && mk.stack == [] && o in mk.heap.home
    modifies mk`stack, mk`state, mk`tooSmall, mk`marked, mk`dropped
    ensures mk.Usable() && mk.Now() == ProcSnap(mk.heap, mk.size, old(mk.Now()), proc, o)
  {
    match proc {
      case NullProc =>
      case IgnoreSelfProc =>
        IgnoreSelfWords(mk, o, mk.heap.Fields(o).len);
      case _ =>
        if mk.heap.Fields(o).len != 0 {
          mk.PushEntry(mk.heap.Fields(o));
        }
    }
  }

  /** The loop of GC_ignore_self_finalize_mark_proc. */
  method IgnoreSelfWords(mk: Marker, o: nat, n: nat)
    requires mk.Usable()
    modifies mk`stack, mk`state, mk`tooSmall, mk`marked, mk`dropped
    ensures mk.Usable() && mk.Now() == IgnoreSelf(mk.heap, mk.size, old(mk.Now()), o, n)
  {
    ghost var s := mk.Now();
    var k := 0;
    while k < n
      invariant k <= n && mk.Usable() && mk.Now() == IgnoreSelf(mk.heap, mk.size, s, o, k)
    {
      OtherWord(mk, o, k, s);
      k := k + 1;
    }
  }

  /** A word that refers back to the object is left out. */
  method OtherWord(mk: Marker, o: nat, k: nat, ghost s: Snap)
    requires mk.Usable() && mk.heap.Valid() && |s.stack| <= mk.size && mk.Now() == IgnoreSelf(mk.heap, mk.size, s, o, k)
    modifies mk`stack, mk`state, mk`tooSmall, mk`marked, mk`dropped
    ensures mk.Usable() && mk.Now() == IgnoreSelf(mk.heap, mk.size, s, o, k + 1)
  {
    if mk.heap.base(mk.heap.load(o + k)) != Some(o) {
      mk.PushWord(o + k);
    }
  }

  /** Marking until the mark stack is empty; an overflow on the way is not looked at. */
  method Drain(mk: Marker)
    requires mk.Basic()
    modifies mk
    ensures mk.size == old(mk.size) && mk.Remembered()
    ensures mk.Now() == Drained(mk.heap, mk.size, old(mk.Now()))
  {
    while mk.stack != []
      invariant mk.Basic() && mk.size == old(mk.size)
      invariant Drained(mk.heap, mk.size, mk.Now()) == Drained(mk.heap, mk.size, old(mk.Now()))
      decreases mk.heap.Objs() - mk.marked, Work(mk.stack)
    {
      mk.MarkFrom();
    }
  }

  /** GC_mark_fo: the mark procedure, then the mark stack until it is empty. */
  method MarkFo(mk: Marker, proc: Proc, o: nat)
    requires Quiet(mk.heap, mk.size, mk.Now()) && mk.Remembered() && o in mk.heap.home
    modifies mk
    ensures mk.size == old(mk.size) && mk.Remembered()
    ensures mk.Now() == AfterFo(mk.heap, mk.size, old(mk.Now()), proc, o)
  {
    ghost var s := mk.Now();
    RunProc(mk, proc, o);
    QuietOk(mk.heap, mk.size, s);
    ProcFollows(mk.heap, mk.heap.Objs(), mk.size, s, proc, o, mk.Now());
    mk.live := mk.heap.Objs();
    Drain(mk);
  }

  /** What becomes of a disappearing link in one pass. */
  predicate KeepsLink(base: map<nat, nat>, marks: set<nat>, dangling: bool, link: nat, obj: nat) {
    if dangling then link !in base || base[link] in marks else obj in marks
  }

  /** Marking has gone through the registrations listed, from the state s on. */
  ghost predicate MarkedAfter(mk: Marker, s: Snap, order: seq<Ready>)
    reads mk
  {
    Quiet(mk.heap, mk.size, s) && AllIn(mk.heap, order) && mk.Remembered() && mk.Now() == AfterAll(mk.heap, mk.size, s, order)
  }

  /** One registration: its object is marked for if it is unmarked. */
  method MarkEntry(mk: Marker, e: Ready, ghost s: Snap, ghost order: seq<Ready>)
    requires MarkedAfter(mk, s, order) && e.obj in mk.heap.home
    modifies mk
    ensures MarkedAfter(mk, s, order + [e]) && mk.size == old(mk.size)
  {
    if e.obj !in mk.marked {
      MarkFo(mk, e.fo.proc, e.obj);
    }
    assert (order + [e])[..|order|] == order;
  }

  /** A collection has been completed: nothing is left to scan. */
  ghost predicate Collected(mk: Marker)
    reads mk
  {
    Quiet(mk.heap, mk.size, mk.Now()) && mk.Remembered() && mk.state == MS_NONE && mk.heap.FieldsClosed(mk.marked, {})
  }

  /** How far marking for finalization has got, in c, from the marks m0. */
  ghost predicate FinallyMarked(h: Heap, m: map<nat, Fo>, m0: set<nat>, size: nat, c: Snap)
    requires h.BlocksValid() && m.Keys <= h.Objs()
  {
    && m0 <= c.marked <= Closure(h, m, m0)
    && (IsClosure(h, m, m0, c.marked) <==> NothingLost(h, c))
    && (Few(h, m, m0, size) ==> c.dropped == [] && IsClosure(h, m, m0, c.marked))
  }

  /** The registrations left unmarked go from the table m to the queue. */
  ghost predicate Outcome(h: Heap, m: map<nat, Fo>, m0: set<nat>, size: nat, c: Snap, m': map<nat, Fo>, q: seq<Ready>) {
    h.BlocksValid() && m.Keys <= h.Objs() && FinallyMarked(h, m, m0, size, c) && Enqueued(m, m', q, c.marked)
  }

  lemma ClearedBoth(s: map<nat, nat>, s1: map<nat, nat>, s2: map<nat, nat>, a: set<nat>, b: set<nat>)
    requires Cleared(s, s1, a, false) && Cleared(s1, s2, b, false)
    ensures Cleared(s, s2, a + b, false)
  {
  }

  class Finalizer {
    const fo: ChainTable<Fo>
    const dl: ChainTable<nat>
    const ll: ChainTable<nat>
    var queue: seq<Ready>           // finalize_now
    var slots: map<nat, nat>        // what the link cells hold, 0 for null

    ghost predicate Valid()
      reads this, fo, dl, ll
    {
      fo.Valid() && dl.Valid() && ll.Valid() && dl != ll
    }

    constructor (hash: (nat, nat) -> nat)
      requires forall k, l :: hash(k, l) < Pow2(l)
      ensures Valid() && fo.contents == map[] && queue == []
    {
      fo := new ChainTable<Fo>(hash);
      dl := new ChainTable<nat>(hash);
      ll := new ChainTable<nat>(hash);
      queue, slots := [], map[];
    }

    /** The first loop of GC_finalize, over every unmarked registered object in turn. */
    method MarkForFinalization(mk: Marker) returns (ghost order: seq<Ready>)
      requires fo.Valid() && Quiet(mk.heap, mk.size, mk.Now()) && mk.Remembered() && fo.contents.Keys <= mk.heap.Objs()
      modifies mk
      ensures Lists(order, fo.contents) && MarkedAfter(mk, old(mk.Now()), order) && mk.size == old(mk.size)
    {
      order := [];
      ghost var s := mk.Now();
      var i := 0;
      while i < |fo.head|
        invariant i <= |fo.head| && Visited(order, i, 0) && MarkedAfter(mk, s, order) && mk.size == old(mk.size)
      {
        order := MarkChain(mk, i, s, order);
        i := i + 1;
      }
      fo.PassAll(i);
      ListsAll(order, i);
    }

    /** The part of that loop over one chain. */
    method MarkChain(mk: Marker, i: nat, ghost s: Snap, ghost order0: seq<Ready>) returns (ghost order: seq<Ready>)
      requires fo.Valid() && i < |fo.head| && Visited(order0, i, 0) && fo.contents.Keys <= mk.heap.Objs()
      requires MarkedAfter(mk, s, order0)
      modifies mk
      ensures Visited(order, i + 1, 0) && MarkedAfter(mk, s, order) && mk.size == old(mk.size)
    {
      order := order0;
      var k := 0;
      while k < |fo.head[i]|
        invariant k <= |fo.head[i]| && Visited(order, i, k) && MarkedAfter(mk, s, order) && mk.size == old(mk.size)
      {
        order := MarkNode(mk, i, k, s, order);
        k := k + 1;
      }
      VisitChain(order, i);
    }

    /** And over one node. */
    method MarkNode(mk: Marker, i: nat, k: nat, ghost s: Snap, ghost order0: seq<Ready>) returns (ghost order: seq<Ready>)
      requires fo.Valid() && i < |fo.head| && k < |fo.head[i]| && Visited(order0, i, k)
      requires fo.contents.Keys <= mk.heap.Objs() && MarkedAfter(mk, s, order0)
      modifies mk
      ensures Visited(order, i, k + 1) && MarkedAfter(mk, s, order) && mk.size == old(mk.size)
    {
      var e := Ready(fo.head[i][k].key, fo.head[i][k].val);
      VisitNode(order0, i, k);
      MarkEntry(mk, e, s, order0);
      order := order0 + [e];
    }

    /** The order lists, each once, the registrations that a walk at position k of chain i has passed. */
    ghost predicate Visited(order: seq<Ready>, i: nat, k: nat)
      requires i < |fo.head| ==> k <= |fo.head[i]|
      reads this, fo
    {
      && (forall r :: r in order ==> r.obj in fo.contents && fo.contents[r.obj] == r.fo && fo.Passed(r.obj, i, k))
      && (forall x: nat :: x in fo.contents && fo.Passed(x, i, k) ==> Ready(x, fo.contents[x]) in order)
      && (forall a, b :: 0 <= a < b < |order| ==> order[a].obj != order[b].obj)
    }

    lemma VisitNode(order: seq<Ready>, i: nat, k: nat)
      requires fo.Valid() && i < |fo.head| && k < |fo.head[i]| && Visited(order, i, k)
      ensures fo.head[i][k].key in fo.contents
      ensures Visited(order + [Ready(fo.head[i][k].key, fo.head[i][k].val)], i, k + 1)
    {
      fo.PassNode(i, k);
    }

    lemma VisitChain(order: seq<Ready>, i: nat)
      requires fo.Valid() && i < |fo.head| && Visited(order, i, |fo.head[i]|)
      ensures Visited(order, i + 1, 0)
    {
      fo.PassChain(i);
    }

    lemma ListsAll(order: seq<Ready>, i: nat)
      requires fo.Valid() && Visited(order, i, 0) && forall x: nat :: x in fo.contents ==> fo.Passed(x, i, 0)
      ensures Lists(order, fo.contents)
    {
    }

    /** The second loop of GC_finalize, without Java finalization: the objects still unmarked
        are queued and marked. */
    method Enqueue(mk: Marker) returns (ghost q: seq<Ready>)
      requires fo.Valid()
      modifies fo, mk`marked, `queue
      ensures fo.Valid()
      ensures queue == q + old(queue) && mk.marked == old(mk.marked) + Objs(q)
      ensures Enqueued(old(fo.contents), fo.contents, q, old(mk.marked))
    {
      q := [];
      ghost var m, f := fo.contents, mk.marked;
      var i := 0;
      while i < |fo.head|
        invariant i <= |fo.head| && fo.Valid()
        invariant queue == q + old(queue) && mk.marked == f + Objs(q)
        invariant Enqueuing(m, fo.contents, q, f)
        invariant forall x: nat :: x in fo.contents && fo.Passed(x, i, 0) ==> x in f
        invariant |fo.head| == old(|fo.head|)
        decreases |fo.head| - i
      {
        q := EnqueueChain(mk, i, m, f, q, old(queue));
        i := i + 1;
      }
      fo.PassAll(i);
    }

    /** The loop of GC_finalize over one chain. */
    method EnqueueChain(mk: Marker, i: nat, ghost m: map<nat, Fo>, ghost f: set<nat>, ghost q0: seq<Ready>, ghost old0: seq<Ready>)
      returns (ghost q: seq<Ready>)
      requires fo.Valid() && i < |fo.head|
      requires queue == q0 + old0 && mk.marked == f + Objs(q0) && Enqueuing(m, fo.contents, q0, f)
      requires forall x: nat :: x in fo.contents && fo.Passed(x, i, 0) ==> x in f
      modifies fo, mk`marked, `queue
      ensures fo.Valid() && |fo.head| == old(|fo.head|)
      ensures queue == q + old0 && mk.marked == f + Objs(q) && Enqueuing(m, fo.contents, q, f)
      ensures forall x: nat :: x in fo.contents && fo.Passed(x, i + 1, 0) ==> x in f
    {
      q := q0;
      var k := 0;
      while k < |fo.head[i]|
        invariant fo.Valid() && |fo.head| == old(|fo.head|) && k <= |fo.head[i]|
        invariant queue == q + old0 && mk.marked == f + Objs(q) && Enqueuing(m, fo.contents, q, f)
        invariant forall x: nat :: x in fo.contents && fo.Passed(x, i, k) ==> x in f
        decreases |fo.head[i]| - k
      {
        if fo.head[i][k].key !in mk.marked {
          q := EnqueueAt(mk, i, k, m, f, q, old0);
        } else {
          fo.PassNode(i, k);
          k := k + 1;
        }
      }
      fo.PassChain(i);
    }

    /** An unmarked entry leaves the table for the front of the queue, its object marked. */
    method EnqueueAt(mk: Marker, i: nat, k: nat, ghost m: map<nat, Fo>, ghost f: set<nat>, ghost q0: seq<Ready>, ghost old0: seq<Ready>)
      returns (ghost q: seq<Ready>)
      requires fo.Valid() && i < |fo.head| && k < |fo.head[i]| && fo.head[i][k].key !in mk.marked
      requires queue == q0 + old0 && mk.marked == f + Objs(q0) && Enqueuing(m, fo.contents, q0, f)
      modifies fo, mk`marked, `queue
      ensures fo.Valid() && |fo.head| == old(|fo.head|) && |fo.head[i]| == old(|fo.head[i]|) - 1
      ensures queue == q + old0 && mk.marked == f + Objs(q) && Enqueuing(m, fo.contents, q, f)
      ensures fo.contents.Keys <= old(fo.contents.Keys)
      ensures forall x: nat :: fo.Passed(x, i, k) <==> old(fo.Passed(x, i, k))
    {
      fo.PassNode(i, k);
      var curr := fo.head[i][k];
      EnqueueOne(m, fo.contents, q0, f, curr.key);
      fo.DeleteAt(i, k);
      mk.marked := mk.marked + {curr.key};
      queue := [Ready(curr.key, curr.val)] + queue;
      q := [Ready(curr.key, curr.val)] + q0;
      FrontAssoc(Ready(curr.key, curr.val), q0, old0);
    }

    /** GC_make_disappearing_links_disappear, for one of the two link tables. */
    method MakeLinksDisappear(t: ChainTable<nat>, base: map<nat, nat>, marks: set<nat>, dangling: bool)
      requires t.Valid()
      modifies t, `slots
      ensures t.Valid()
      ensures t.contents == if dangling then SoundLinks(old(t.contents), base, marks) else LiveLinks(old(t.contents), marks)
      ensures Cleared(old(slots), slots, DeadLinks(old(t.contents), marks), dangling)
    {
      ghost var m, s0 := t.contents, slots;
      var i := 0;
      while i < |t.head|
        invariant i <= |t.head| && t.Valid()
        invariant Leaving(m, t.contents, base, marks, dangling) && Cleared(s0, slots, m.Keys - t.contents.Keys, dangling)
        invariant Keeping(t, base, marks, dangling, i, 0)
        invariant |t.head| == old(|t.head|)
        decreases |t.head| - i
      {
        DisappearChain(t, i, base, marks, dangling, m, s0);
        i := i + 1;
      }
      t.PassAll(i);
      KeptExactly(m, t.contents, base, marks, dangling);
    }

    method DisappearChain(t: ChainTable<nat>, i: nat, base: map<nat, nat>, marks: set<nat>, dangling: bool,
                          ghost m: map<nat, nat>, ghost s0: map<nat, nat>)
      requires t.Valid() && i < |t.head|
      requires Leaving(m, t.contents, base, marks, dangling) && Cleared(s0, slots, m.Keys - t.contents.Keys, dangling)
      requires Keeping(t, base, marks, dangling, i, 0)
      modifies t, `slots
      ensures t.Valid() && |t.head| == old(|t.head|)
      ensures Leaving(m, t.contents, base, marks, dangling) && Cleared(s0, slots, m.Keys - t.contents.Keys, dangling)
      ensures Keeping(t, base, marks, dangling, i + 1, 0)
    {
      var k := 0;
      while k < |t.head[i]|
        invariant t.Valid() && |t.head| == old(|t.head|) && k <= |t.head[i]|
        invariant Leaving(m, t.contents, base, marks, dangling) && Cleared(s0, slots, m.Keys - t.contents.Keys, dangling)
        invariant Keeping(t, base, marks, dangling, i, k)
        decreases |t.head[i]| - k
      {
        if KeepsLink(base, marks, dangling, t.head[i][k].key, t.head[i][k].val) {
          KeepOne(t, base, marks, dangling, i, k);
          k := k + 1;
        } else {
          DisappearAt(t, i, k, base, marks, dangling, m, s0);
        }
      }
      KeptChain(t, base, marks, dangling, i);
    }

    /** The links that a walk at position k of chain i has passed are to be kept. */
    ghost predicate Keeping(t: ChainTable<nat>, base: map<nat, nat>, marks: set<nat>, dangling: bool, i: nat, k: nat)
      requires i < |t.head| ==> k <= |t.head[i]|
      reads t
    {
      forall x: nat :: x in t.contents && t.Passed(x, i, k) ==> KeepsLink(base, marks, dangling, x, t.contents[x])
    }

    lemma KeepOne(t: ChainTable<nat>, base: map<nat, nat>, marks: set<nat>, dangling: bool, i: nat, k: nat)
      requires t.Valid() && i < |t.head| && k < |t.head[i]| && Keeping(t, base, marks, dangling, i, k)
      requires KeepsLink(base, marks, dangling, t.head[i][k].key, t.head[i][k].val)
      ensures Keeping(t, base, marks, dangling, i, k + 1)
    {
      t.PassNode(i, k);
    }

    lemma KeptChain(t: ChainTable<nat>, base: map<nat, nat>, marks: set<nat>, dangling: bool, i: nat)
      requires t.Valid() && i < |t.head| && Keeping(t, base, marks, dangling, i, |t.head[i]|)
      ensures Keeping(t, base, marks, dangling, i + 1, 0)
    {
      t.PassChain(i);
    }

    /** A link that is not to be kept leaves its table. */
    method DisappearAt(t: ChainTable<nat>, i: nat, k: nat, base: map<nat, nat>, marks: set<nat>, dangling: bool,
                       ghost m: map<nat, nat>, ghost s0: map<nat, nat>)
      requires t.Valid() && i < |t.head| && k < |t.head[i]|
      requires !KeepsLink(base, marks, dangling, t.head[i][k].key, t.head[i][k].val)
      requires Leaving(m, t.contents, base, marks, dangling) && Cleared(s0, slots, m.Keys - t.contents.Keys, dangling)
      requires Keeping(t, base, marks, dangling, i, k)
      modifies t, `slots
      ensures t.Valid() && |t.head| == old(|t.head|) && |t.head[i]| == old(|t.head[i]|) - 1
      ensures Leaving(m, t.contents, base, marks, dangling) && Cleared(s0, slots, m.Keys - t.contents.Keys, dangling)
      ensures Keeping(t, base, marks, dangling, i, k)
    {
      t.PassNode(i, k);
      var curr := t.head[i][k];
      if !dangling {
        slots := slots[curr.key := 0];
      }
      t.DeleteAt(i, k);
    }

    /** The two loops of GC_finalize over the registrations.  c is what the first one leaves:
        everything to be marked is marked if and only if no entry thrown away still leads to an
        unmarked object, and none is thrown away when there are few objects to mark. */
    method QueueUnreachable(mk: Marker) returns (ghost c: Snap, ghost q: seq<Ready>)
      requires fo.Valid() && Collected(mk) && fo.contents.Keys <= mk.heap.Objs()
      modifies fo, mk, `queue
      ensures fo.Valid()
      ensures Outcome(mk.heap, old(fo.contents), old(mk.marked), mk.size, c, fo.contents, q)
      ensures Grown(old(queue), queue, c.marked, mk.marked, q)
    {
      ghost var s := mk.Now();
      ghost var order := MarkForFinalization(mk);
      c := mk.Now();
      MarksExactIff(mk.heap, fo.contents, mk.size, s, order);
      q := Enqueue(mk);
    }

    /** The beginning of GC_finalize: the short links to unmarked objects go. */
    method RemoveShortLinks(base: map<nat, nat>, marks: set<nat>)
      requires dl.Valid()
      modifies dl, `slots
      ensures dl.Valid()
      ensures dl.contents == LiveLinks(old(dl.contents), marks)
      ensures Cleared(old(slots), slots, DeadLinks(old(dl.contents), marks), false)
    {
      MakeLinksDisappear(dl, base, marks, false);
    }

    /** GC_finalize up to the queueing of objects. */
    method LinksThenObjects(mk: Marker, base: map<nat, nat>) returns (ghost c: Snap, ghost q: seq<Ready>)
      requires fo.Valid() && dl.Valid() && Collected(mk) && fo.contents.Keys <= mk.heap.Objs()
      modifies fo, dl, mk, `queue, `slots
      ensures fo.Valid() && dl.Valid()
      ensures Outcome(mk.heap, old(fo.contents), old(mk.marked), mk.size, c, fo.contents, q)
      ensures Grown(old(queue), queue, c.marked, mk.marked, q)
      ensures dl.contents == LiveLinks(old(dl.contents), old(mk.marked))
      ensures Cleared(old(slots), slots, DeadLinks(old(dl.contents), old(mk.marked)), false)
    {
      RemoveShortLinks(base, mk.marked);
      c, q := QueueUnreachable(mk);
    }

    /** The end of GC_finalize: dangling links go, then both kinds of long links. */
    method RemoveLinks(base: map<nat, nat>, marks: set<nat>, ghost s0: map<nat, nat>, ghost gone: set<nat>)
      requires dl.Valid() && ll.Valid() && dl != ll && Cleared(s0, slots, gone, false)
      modifies dl, ll, `slots
      ensures dl.Valid() && ll.Valid()
      ensures dl.contents == SoundLinks(old(dl.contents), base, marks)
      ensures ll.contents == SoundLinks(LiveLinks(old(ll.contents), marks), base, marks)
      ensures Cleared(s0, slots, gone + DeadLinks(old(ll.contents), marks), false)
    {
      ghost var s1 := slots;
      MakeLinksDisappear(dl, base, marks, true);
      MakeLinksDisappear(ll, base, marks, false);
      ClearedBoth(s0, s1, slots, gone, DeadLinks(old(ll.contents), marks));
      MakeLinksDisappear(ll, base, marks, true);
    }

    /** GC_finalize, without Java finalization and toggle references. */
    method Finalize(mk: Marker, base: map<nat, nat>) returns (ghost c: Snap, ghost q: seq<Ready>)
      requires Valid() && Collected(mk) && fo.contents.Keys <= mk.heap.Objs()
      modifies this, fo, dl, ll, mk
      ensures Valid()
      ensures Outcome(mk.heap, old(fo.contents), old(mk.marked), mk.size, c, fo.contents, q)
      ensures Grown(old(queue), queue, c.marked, mk.marked, q)
      ensures dl.contents == SoundLinks(LiveLinks(old(dl.contents), old(mk.marked)), base, mk.marked)
      ensures ll.contents == SoundLinks(LiveLinks(old(ll.contents), mk.marked), base, mk.marked)
      ensures Cleared(old(slots), slots,
                      DeadLinks(old(dl.contents), old(mk.marked)) + DeadLinks(old(ll.contents), mk.marked), false)
    {
      c, q := LinksThenObjects(mk, base);
      RemoveLinks(base, mk.marked, old(slots), DeadLinks(old(dl.contents), old(mk.marked)));
    }

    /** GC_register_finalizer_inner.  The results are what *ofn and *ocd are set to, or None
        when they are left alone; inHeap says that the object has a header, with size sz. */
    method RegisterFinalizer(obj: nat, fn: nat, cd: nat, mp: Proc, inHeap: bool, sz: nat, findLeak: bool)
      returns (ofn: Option<nat>, ocd: Option<nat>)
      requires Valid()
      modifies fo
      ensures Valid()
      ensures findLeak ==> ofn.None? && ocd.None? && fo.contents == old(fo.contents)
      ensures !findLeak ==> fo.contents == Registered(old(fo.contents), obj, fn, cd, mp, inHeap, sz)
      ensures !findLeak ==> ofn == Some(if obj in old(fo.contents) then old(fo.contents)[obj].fn else 0)
      ensures !findLeak ==> ocd == Some(if obj in old(fo.contents) then old(fo.contents)[obj].clientData else 0)
    {
      if findLeak {
        return None, None;
      }
      fo.GrowIfFull();
      var i := fo.hash(obj, fo.logSize);
      var k := fo.Search(obj);
      if k < |fo.head[i]| {
        var curr := fo.head[i][k].val;
        if fn == 0 {
          fo.DeleteAt(i, k);
        } else {
          fo.SetAt(i, k, curr.(fn := fn, clientData := cd, proc := mp));
        }
        return Some(curr.fn), Some(curr.clientData);
      }
      if fn != 0 && inHeap {
        fo.Put(obj, Fo(fn, cd, sz, mp));
      }
      return Some(0), Some(0);
    }

    /** GC_register_disappearing_link_inner. */
    method RegisterLink(t: ChainTable<nat>, link: nat, obj: nat, findLeak: bool) returns (r: Status)
      requires t.Valid()
      modifies t
      ensures t.Valid()
      ensures t.contents == if findLeak then old(t.contents) else old(t.contents)[link := obj]
      ensures r == if findLeak then Unimplemented else if link in old(t.contents) then Duplicate else Success
    {
      if findLeak {
        return Unimplemented;
      }
      t.GrowIfFull();
      var i := t.hash(link, t.logSize);
      var k := t.Search(link);
      if k < |t.head[i]| {
        t.SetAt(i, k, obj);
        return Duplicate;
      }
      t.Put(link, obj);
      return Success;
    }

    /** GC_unregister_disappearing_link_inner. */
    method UnregisterLink(t: ChainTable<nat>, link: nat) returns (found: bool)
      requires t.Valid()
      modifies t
      ensures t.Valid()
      ensures found <==> link in old(t.contents)
      ensures t.contents == old(t.contents) - {link}
    {
      if t.head == [] {
        NotFound(t.head, t.contents, t.hash, t.logSize, link);
        return false;
      }
      var i := t.hash(link, t.logSize);
      var k := t.Search(link);
      found := k < |t.head[i]|;
      if found {
        t.DeleteAt(i, k);
      }
    }

    /** GC_move_disappearing_link_inner. */
    method MoveLink(t: ChainTable<nat>, link: nat, newLink: nat) returns (r: Status)
      requires t.Valid()
      modifies t
      ensures t.Valid()
      ensures r == MoveResult(old(t.contents), link, newLink)
      ensures t.contents == if r.Success? then old(t.contents) - {link} + map[newLink := old(t.contents)[link]]
                            else old(t.contents)
    {
      if t.head == [] {
        NotFound(t.head, t.contents, t.hash, t.logSize, link);
        return NotRegistered;
      }
      var i := t.hash(link, t.logSize);
      var k := t.Search(link);
      if k == |t.head[i]| {
        return NotRegistered;
      }
      if link == newLink {
        return Success;
      }
      var b := t.Search(newLink);
      if b < |t.head[t.hash(newLink, t.logSize)]| {
        return Duplicate;
      }
      Relink(t, i, k, newLink);
      return Success;
    }

    /** Remove from old, add to new, update link. */
    method Relink(t: ChainTable<nat>, i: nat, k: nat, newLink: nat)
      requires t.Valid() && i < |t.head| && k < |t.head[i]| && newLink !in t.contents
      modifies t
      ensures t.Valid() && old(t.head)[i][k].key in old(t.contents)
      ensures t.contents == old(t.contents) - {old(t.head)[i][k].key}
                            + map[newLink := old(t.contents)[old(t.head)[i][k].key]]
    {
      var obj := t.head[i][k].val;
      t.DeleteAt(i, k);
      t.Put(newLink, obj);
    }
  }

  function MoveResult(m: map<nat, nat>, link: nat, newLink: nat): Status {
    if link !in m then NotRegistered else if link != newLink && newLink in m then Duplicate else Success
  }

  datatype Status = Success | Duplicate | NotRegistered | Unimplemented

  /** The table after a call that registers, changes or removes the finalizer of obj. */
  function Registered(m: map<nat, Fo>, obj: nat, fn: nat, cd: nat, mp: Proc, inHeap: bool, sz: nat): map<nat, Fo> {
    if obj in m then
      if fn == 0 then m - {obj} else m[obj := m[obj].(fn := fn, clientData := cd, proc := mp)]
    else if fn != 0 && inHeap then m[obj := Fo(fn, cd, sz, mp)]
    else m
  }

  ghost predicate Leaving(m: map<nat, nat>, m': map<nat, nat>, base: map<nat, nat>, marks: set<nat>, dangling: bool) {
    && (forall x: nat :: x in m' ==> x in m && m'[x] == m[x])
    && (forall x: nat :: x in m && KeepsLink(base, marks, dangling, x, m[x]) ==> x in m')
  }

  /** When no link that is left has to go, what is left depends on the marks alone. */
  lemma KeptExactly(m: map<nat, nat>, m': map<nat, nat>, base: map<nat, nat>, marks: set<nat>, dangling: bool)
    requires Leaving(m, m', base, marks, dangling)
    requires forall x: nat :: x in m' ==> KeepsLink(base, marks, dangling, x, m'[x])
    ensures m' == if dangling then SoundLinks(m, base, marks) else LiveLinks(m, marks)
    ensures !dangling ==> m.Keys - m'.Keys == DeadLinks(m, marks)
  {
  }

  /** The links to marked objects. */
  ghost function LiveLinks(m: map<nat, nat>, marks: set<nat>): map<nat, nat> {
    map x | x in m && m[x] in marks :: m[x]
  }

  /** The links that are not cells of unmarked objects. */
  ghost function SoundLinks(m: map<nat, nat>, base: map<nat, nat>, marks: set<nat>): map<nat, nat> {
    map x | x in m && (x !in base || base[x] in marks) :: m[x]
  }

  /** The links to unmarked objects. */
  ghost function DeadLinks(m: map<nat, nat>, marks: set<nat>): set<nat> {
    set x | x in m && m[x] !in marks
  }

  /** The cells of the links gone hold null and no other cell has changed; the pass that
      removes dangling links touches none. */
  ghost predicate Cleared(s: map<nat, nat>, s': map<nat, nat>, gone: set<nat>, dangling: bool) {
    if dangling then s' == s else
      && s'.Keys == s.Keys + gone
      && (forall x: nat :: x in s' ==> s'[x] == if x in gone then 0 else s[x])
  }

  lemma FrontAssoc(r: Ready, q: seq<Ready>, rest: seq<Ready>)
    ensures [r] + (q + rest) == ([r] + q) + rest
  {
  }
}
