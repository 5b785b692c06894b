/** A heap in which marking for finalization overflows the mark stack, and loses an object that
    the mark procedure of another leads to. */
module FinalOverflow {
  import opened Basics
  import opened MarkHeap
  import opened MarkSteps
  import opened FinalMarks

  /** The words of p that lead on refer, one after the other, to distinct objects with pointers. */
  ghost predicate Fan(h: Heap, p: nat, kids: seq<nat>) {
    && h.Valid() && p in h.home && |kids| <= h.Fields(p).len
    && (forall i :: 0 <= i < |kids| ==> KidAt(h, p, kids, i))
    && (forall i, j :: 0 <= i < j < |kids| ==> kids[i] != kids[j])
    && (forall a: nat :: p + |kids| <= a < p + h.Fields(p).len ==> h.Target(a).None?)
  }

  ghost predicate KidAt(h: Heap, p: nat, kids: seq<nat>, i: nat)
    requires h.BlocksValid() && i < |kids|
  {
    kids[i] != p && kids[i] in h.home && h.Fields(kids[i]).len > 0 && h.Target(p + i) == Some(kids[i])
  }

  ghost function Entries(h: Heap, kids: seq<nat>, n: nat): seq<Entry>
    requires h.BlocksValid() && n <= |kids| && forall i :: 0 <= i < |kids| ==> kids[i] in h.home
  {
    seq(n, i requires 0 <= i < n => h.Fields(kids[i]))
  }

  ghost function Set(kids: seq<nat>, n: nat): set<nat>
    requires n <= |kids|
  {
    set i: nat | i < n :: kids[i]
  }

  lemma {:induction false} KidPushed(h: Heap, size: nat, s: Snap, p: nat, kids: seq<nat>, n: nat)
    requires Fan(h, p, kids) && n < |kids| && |s.stack| <= size && INITIAL_MARK_STACK_SIZE <= size && s.marked == Set(kids, n)
    ensures kids[n] in h.home
    ensures Considered(h, size, s, h.load(p + n)) == WithEntry(size, s.(marked := Set(kids, n + 1)), h.Fields(kids[n]))
  {
    assert KidAt(h, p, kids, n);
    assert kids[n] !in Set(kids, n);
    assert Set(kids, n + 1) == Set(kids, n) + {kids[n]};
  }

  const START := Snap(MS_NONE, {}, [], [])

  lemma {:induction false} KidsIn(h: Heap, p: nat, kids: seq<nat>)
    requires Fan(h, p, kids)
    ensures forall i :: 0 <= i < |kids| ==> kids[i] in h.home && kids[i] != p
  {
    forall i | 0 <= i < |kids| ensures kids[i] in h.home && kids[i] != p {
      assert KidAt(h, p, kids, i);
    }
  }

  lemma {:induction false} EntriesNext(h: Heap, kids: seq<nat>, n: nat)
    requires h.BlocksValid() && n < |kids| && forall i :: 0 <= i < |kids| ==> kids[i] in h.home
    ensures Entries(h, kids, n + 1) == Entries(h, kids, n) + [h.Fields(kids[n])]
  {
  }

  /** The states in which every child so far is marked and pushed. */
  ghost function Fanned(h: Heap, kids: seq<nat>, n: nat): (r: Snap)
    requires h.BlocksValid() && n <= |kids| && forall i :: 0 <= i < |kids| ==> kids[i] in h.home
    ensures |r.stack| == n && r.marked == Set(kids, n)
  {
    Snap(MS_NONE, Set(kids, n), Entries(h, kids, n), [])
  }

  lemma {:induction false} FannedNext(h: Heap, size: nat, p: nat, kids: seq<nat>, n: nat)
    requires Fan(h, p, kids) && INITIAL_MARK_STACK_SIZE <= size && n < size && n < |kids|
    requires forall i :: 0 <= i < |kids| ==> kids[i] in h.home
    ensures h.base(h.load(p + n)) != Some(p)
    ensures Considered(h, size, Fanned(h, kids, n), h.load(p + n)) == Fanned(h, kids, n + 1)
  {
    KidPushed(h, size, Fanned(h, kids, n), p, kids, n);
    EntriesNext(h, kids, n);
    assert KidAt(h, p, kids, n);
  }

  /** As long as the stack has room, every child is marked and pushed. */
  lemma {:induction false} KidsPushed(h: Heap, size: nat, p: nat, kids: seq<nat>, n: nat)
    requires Fan(h, p, kids) && INITIAL_MARK_STACK_SIZE <= size && n <= size && n <= |kids|
    requires forall i :: 0 <= i < |kids| ==> kids[i] in h.home
    ensures IgnoreSelf(h, size, START, p, n) == Fanned(h, kids, n)
    decreases n
  {
    if n > 0 {
      KidsPushed(h, size, p, kids, n - 1);
      FannedNext(h, size, p, kids, n - 1);
    }
  }

  /** One child more, and the topmost entries are thrown away; the other words change nothing. */
  ghost function Overflown(h: Heap, size: nat, kids: seq<nat>): Snap
    requires h.BlocksValid() && |kids| == size + 1 && forall i :: 0 <= i < |kids| ==> kids[i] in h.home
    requires INITIAL_MARK_STACK_SIZE <= size
  {
    WithEntry(size, Fanned(h, kids, size).(marked := Set(kids, size + 1)), h.Fields(kids[size]))
  }

  lemma {:induction false} FanFull(h: Heap, size: nat, p: nat, kids: seq<nat>)
    requires Fan(h, p, kids) && INITIAL_MARK_STACK_SIZE <= size && |kids| == size + 1
    ensures forall i :: 0 <= i < |kids| ==> kids[i] in h.home
    ensures IgnoreSelf(h, size, START, p, size + 1) == Overflown(h, size, kids)
  {
    KidsIn(h, p, kids);
    KidsPushed(h, size, p, kids, size);
    KidPushed(h, size, Fanned(h, kids, size), p, kids, size);
    assert KidAt(h, p, kids, size);
  }

  lemma {:induction false} IgnoresRest(h: Heap, size: nat, p: nat, k: nat, n: nat)
    requires h.Valid() && INITIAL_MARK_STACK_SIZE <= size && k <= n
    requires forall a: nat :: p + k <= a < p + n ==> h.Target(a).None?
    ensures IgnoreSelf(h, size, START, p, n) == IgnoreSelf(h, size, START, p, k)
    decreases n
  {
    if k < n {
      IgnoresRest(h, size, p, k, n - 1);
      assert h.Target(p + n - 1).None?;
    }
  }

  /** Of the children of p only the d-th, whose entry is thrown away, refers to z. */
  ghost predicate Loses(h: Heap, size: nat, p: nat, kids: seq<nat>, d: nat, z: nat) {
    && Fan(h, p, kids) && INITIAL_MARK_STACK_SIZE <= size && |kids| == size + 1
    && size - MARK_STACK_DISCARDS <= d < size
    && z !in kids && h.Target(kids[d]) == Some(z)
    && (forall i, a :: 0 <= i < |kids| && i != d && KidAt(h, p, kids, i) && h.Fields(kids[i]).Has(a) ==> h.Target(a).None?)
  }

  /** What is left on the stack leads to children only. */
  lemma {:induction false} OverflownOk(h: Heap, size: nat, p: nat, kids: seq<nat>, d: nat, z: nat, c: Snap)
    requires Loses(h, size, p, kids, d, z) && forall i :: 0 <= i < |kids| ==> kids[i] in h.home
    requires c == Overflown(h, size, kids)
    ensures SnapOk(h, Set(kids, size + 1), size, c)
  {
    var live := Set(kids, size + 1);
    forall a | In(c.stack, a) ensures h.Safe(live, a) {
      var k :| 0 <= k < |c.stack| && c.stack[k].Has(a);
      var i := if k < size - MARK_STACK_DISCARDS then k else size;
      assert KidAt(h, p, kids, i) && c.stack[k] == h.Fields(kids[i]);
    }
  }

  lemma {:induction false} ProcOverflows(h: Heap, size: nat, p: nat, kids: seq<nat>)
    requires Fan(h, p, kids) && INITIAL_MARK_STACK_SIZE <= size && |kids| == size + 1
    ensures forall i :: 0 <= i < |kids| ==> kids[i] in h.home && kids[i] != p
    ensures ProcSnap(h, size, START, IgnoreSelfProc, p) == Overflown(h, size, kids)
  {
    FanFull(h, size, p, kids);
    IgnoresRest(h, size, p, size + 1, h.Fields(p).len);
    KidsIn(h, p, kids);
  }

  lemma {:induction false} DrainedWithin(h: Heap, size: nat, live: set<nat>, proc: Proc, o: nat, c: Snap)
    requires Quiet(h, size, START) && o in h.home && c == ProcSnap(h, size, START, proc, o) && SnapOk(h, live, size, c)
    ensures AfterFo(h, size, START, proc, o).marked <= live
  {
    DrainedFollows(h, live, size, c);
  }

  /** Then z is not marked, and neither is p. */
  lemma {:induction false} OverflowLoses(h: Heap, size: nat, p: nat, kids: seq<nat>, d: nat, z: nat)
    requires Loses(h, size, p, kids, d, z) && Quiet(h, size, START)
    ensures z !in AfterFo(h, size, START, IgnoreSelfProc, p).marked
    ensures p !in AfterFo(h, size, START, IgnoreSelfProc, p).marked
  {
    ProcOverflows(h, size, p, kids);
    var c := Overflown(h, size, kids);
    OverflownOk(h, size, p, kids, d, z, c);
    DrainedWithin(h, size, Set(kids, size + 1), IgnoreSelfProc, p, c);
  }

  /** The mark procedure of p leads to z all the same. */
  lemma {:induction false} LostIsReached(h: Heap, size: nat, p: nat, kids: seq<nat>, d: nat, z: nat, r: Ready)
    requires Loses(h, size, p, kids, d, z) && r.obj == p && r.fo.proc == IgnoreSelfProc
    ensures z in Reached(h, r)
  {
    var m := map[p := r.fo];
    assert KidAt(h, p, kids, d);
    forall t: set<nat> | Above(h, m, {}, t) ensures z in t {
      assert Leads(h, m[p].proc, p, p + d);
      assert h.Safe(t, p + d);
      assert h.Fields(kids[d]).Has(kids[d]);
      assert h.Safe(t, kids[d]);
    }
  }

  // ---- Such a heap.

  /** One more child than the stack has entries. */
  const CHILDREN := INITIAL_MARK_STACK_SIZE + 1
  const PARENT: nat := 1 * HBLK_WORDS
  const LOST: nat := 50 * HBLK_WORDS
  const DROPPED: nat := 4000

  /** Each child is an object of one heap block. */
  function Child(i: nat): nat {
    (100 + i) * HBLK_WORDS
  }

  /** The i-th object: the parent, of nine heap blocks, the object to be lost, the children. */
  function Object(i: nat): nat {
    if i == 0 then PARENT else if i == 1 then LOST else Child(i - 2)
  }

  function BlockOf(i: nat): Block {
    if i == 0 then Block(1, 9, 9 * HBLK_GRANULES, 9 * HBLK_WORDS, false, [PARENT])
    else Block(if i == 1 then 50 else 98 + i, 1, HBLK_GRANULES, HBLK_WORDS, false, [Object(i)])
  }

  /** The parent refers to every child, and one child, in its first word, to the last object. */
  function Load(a: nat): nat {
    if PARENT <= a < PARENT + CHILDREN then Child(a - PARENT)
    else if a == Child(DROPPED) then LOST
    else 0
  }

  function Base(q: nat): Option<nat> {
    if q == PARENT || q == LOST || (q % HBLK_WORDS == 0 && 100 <= q / HBLK_WORDS < 100 + CHILDREN) then Some(q) else None
  }

  function Index(o: nat): nat
    requires Base(o).Some?
  {
    if o == PARENT then 0 else if o == LOST then 1 else o / HBLK_WORDS - 98
  }

  ghost function Example(): Heap {
    Heap(Load, Base, 0, Child(CHILDREN),
         seq(CHILDREN + 2, i requires 0 <= i => BlockOf(i)),
         map o: nat | o < Child(CHILDREN) && Base(o).Some? :: Index(o),
         [], [], {}, false, _ => false)
  }

  lemma ObjectIs(i: nat)
    requires i < CHILDREN + 2
    ensures Base(Object(i)) == Some(Object(i)) && Index(Object(i)) == i && 0 < Object(i) < Child(CHILDREN)
  {
    if i >= 2 {
      assert Object(i) == (98 + i) * HBLK_WORDS;
      assert Object(i) / HBLK_WORDS == 98 + i && Object(i) % HBLK_WORDS == 0;
    }
  }

  lemma IndexIs(o: nat)
    requires Base(o).Some?
    ensures Index(o) < CHILDREN + 2 && Object(Index(o)) == o && o < Child(CHILDREN)
  {
    if o != PARENT && o != LOST {
      assert o == (o / HBLK_WORDS) * HBLK_WORDS;
      assert Object(Index(o)) == Child(o / HBLK_WORDS - 100);
    }
  }

  ghost predicate AreBlocks(b: seq<Block>) {
    |b| == CHILDREN + 2 && forall i :: 0 <= i < |b| ==> b[i] == BlockOf(i)
  }

  lemma BlocksInOrder(b: seq<Block>)
    requires AreBlocks(b)
    ensures forall i, j :: 0 <= i < j < |b| ==> b[i].addr + b[i].nblocks <= b[j].addr
    ensures forall i :: 0 <= i < |b| ==>
              0 < b[i].addr && 0 < b[i].nblocks && 0 < b[i].lg && b[i].descr <= 2 * b[i].lg && |b[i].objs| <= HBLK_GRANULES
  {
  }

  lemma {:induction false} HomesAre(b: seq<Block>, home: map<nat, nat>)
    requires AreBlocks(b) && home == map o: nat | o < Child(CHILDREN) && Base(o).Some? :: Index(o)
    ensures forall i, o :: 0 <= i < |b| && o in b[i].objs ==> o in home && home[o] == i
    ensures forall o :: o in home ==> home[o] < |b| && o in b[home[o]].objs
  {
    forall i, o | 0 <= i < |b| && o in b[i].objs ensures o in home && home[o] == i {
      ObjectIs(i);
      assert o == Object(i);
    }
    forall o | o in home ensures home[o] < |b| && o in b[home[o]].objs {
      IndexIs(o);
    }
  }

  ghost predicate IsExample(h: Heap) {
    && AreBlocks(h.blocks)
    && h.home == (map o: nat | o < Child(CHILDREN) && Base(o).Some? :: Index(o))
    && h.load == Load && h.base == Base
    && h.least == 0 && h.greatest == Child(CHILDREN)
  }

  lemma {:induction false} ExampleIs()
    ensures IsExample(Example())
  {
  }

  lemma {:induction false} ExampleBlocks(h: Heap)
    requires IsExample(h)
    ensures h.BlocksValid()
  {
    BlocksInOrder(h.blocks);
    HomesAre(h.blocks, h.home);
  }

  lemma PointersIn(q: nat)
    requires Base(q).Some?
    ensures Base(q) == Some(q) && 0 < q < Child(CHILDREN)
  {
    IndexIs(q);
    ObjectIs(Index(q));
  }

  lemma {:induction false} ExampleValid(h: Heap)
    requires IsExample(h)
    ensures h.Valid()
  {
    ExampleBlocks(h);
    forall q | h.base(q).Some? ensures h.base(q).value in h.home && h.Plausible(q) {
      PointersIn(q);
    }
  }

  lemma {:induction false} FieldsAre(h: Heap, i: nat)
    requires IsExample(h) && h.BlocksValid() && i < CHILDREN + 2
    ensures Object(i) in h.home
    ensures h.Fields(Object(i)) == Entry(Object(i), if i == 0 then 9 * HBLK_WORDS else HBLK_WORDS)
  {
    ObjectIs(i);
    assert h.blocks[i] == BlockOf(i);
  }

  // ---- What a collection makes of it.

  const P := Ready(PARENT, Fo(1, 0, 9 * 4096, IgnoreSelfProc))
  const Z := Ready(LOST, Fo(2, 0, 4096, NullProc))

  function Kids(): seq<nat> {
    seq(CHILDREN, i requires 0 <= i => Child(i))
  }

  lemma {:induction false} ParentWord(h: Heap, a: nat)
    requires IsExample(h) && PARENT <= a
    ensures h.Target(a) == if a < PARENT + CHILDREN then Some(Child(a - PARENT)) else if a == Child(DROPPED) then Some(LOST) else None
  {
    if a < PARENT + CHILDREN {
      ObjectIs(a - PARENT + 2);
    }
  }

  ghost predicate AreKids(kids: seq<nat>) {
    |kids| == CHILDREN && forall i :: 0 <= i < |kids| ==> kids[i] == Child(i)
  }

  lemma {:induction false} KidIs(h: Heap, kids: seq<nat>, i: nat)
    requires IsExample(h) && h.BlocksValid() && AreKids(kids) && i < |kids|
    ensures kids[i] == Object(i + 2)
    ensures KidAt(h, PARENT, kids, i) && h.Fields(kids[i]) == Entry(Child(i), HBLK_WORDS)
  {
    assert kids[i] == Child(i);
    assert Child(i) == Object(i + 2);
    FieldsAre(h, i + 2);
    ParentWord(h, PARENT + i);
  }

  lemma {:induction false} ExampleFan(h: Heap, kids: seq<nat>)
    requires IsExample(h) && h.Valid() && AreKids(kids)
    ensures Fan(h, PARENT, kids)
  {
    FieldsAre(h, 0);
    forall i | 0 <= i < |kids| ensures KidAt(h, PARENT, kids, i) {
      KidIs(h, kids, i);
    }
    RestNone(h, h.Fields(PARENT).len);
    assert Object(0) == PARENT;
  }

  lemma {:induction false} RestNone(h: Heap, n: nat)
    requires IsExample(h) && n <= 9 * HBLK_WORDS
    ensures forall a: nat :: PARENT + CHILDREN <= a < PARENT + n ==> h.Target(a).None?
  {
    forall a: nat | PARENT + CHILDREN <= a < PARENT + n ensures h.Target(a).None? {
      ParentWord(h, a);
    }
  }

  lemma {:induction false} KidLeads(h: Heap, kids: seq<nat>, i: nat, a: nat)
    requires IsExample(h) && h.BlocksValid() && AreKids(kids) && i < |kids|
    requires kids[i] <= a < kids[i] + HBLK_WORDS
    ensures h.Target(a) == if a == Child(DROPPED) then Some(LOST) else None
    ensures i != DROPPED ==> a != Child(DROPPED)
  {
    assert kids[i] == Child(i);
    ParentWord(h, a);
  }

  lemma {:induction false} OthersLead(h: Heap, kids: seq<nat>, i: nat)
    requires IsExample(h) && h.BlocksValid() && AreKids(kids) && i < |kids| && i != DROPPED
    ensures kids[i] in h.home && forall a :: h.Fields(kids[i]).Has(a) ==> h.Target(a).None?
  {
    KidIs(h, kids, i);
    forall a | h.Fields(kids[i]).Has(a) ensures h.Target(a).None? {
      KidLeads(h, kids, i, a);
    }
  }

  lemma {:induction false} ExampleLoses(h: Heap, kids: seq<nat>)
    requires IsExample(h) && h.Valid() && AreKids(kids)
    ensures Loses(h, INITIAL_MARK_STACK_SIZE, PARENT, kids, DROPPED, LOST)
  {
    ExampleFan(h, kids);
    KidLeads(h, kids, DROPPED, kids[DROPPED]);
    forall i | 0 <= i < |kids| && i != DROPPED
      ensures kids[i] in h.home && forall a :: h.Fields(kids[i]).Has(a) ==> h.Target(a).None?
    {
      OthersLead(h, kids, i);
    }
  }

  function Table(): map<nat, Fo> {
    map[PARENT := P.fo, LOST := Z.fo]
  }

  ghost predicate InOrder(order: seq<Ready>) {
    && (forall r :: r in order ==> r == P || r == Z)
    && (forall a, b :: 0 <= a < b < |order| ==> order[a].obj != order[b].obj)
  }

  lemma InOrderBefore(order: seq<Ready>)
    requires order != [] && InOrder(order)
    ensures var before, e := order[..|order| - 1], order[|order| - 1];
      InOrder(before) && e !in before && (forall r :: r in order <==> r in before || r == e)
  {
    var before, e := order[..|order| - 1], order[|order| - 1];
    assert order == before + [e];
    assert forall a :: 0 <= a < |before| ==> before[a] == order[a];
    forall r | r in before ensures r != e && r in order {
      var a :| 0 <= a < |before| && before[a] == r;
      assert order[a] == r;
    }
  }

  ghost predicate BothIn(h: Heap) {
    Quiet(h, INITIAL_MARK_STACK_SIZE, START) && PARENT in h.home && LOST in h.home
  }

  /** The entry without a mark procedure makes no difference. */
  lemma {:induction false} AnyOrder(h: Heap, order: seq<Ready>, c: Snap)
    requires BothIn(h) && InOrder(order) && AllIn(h, order)
    requires c == AfterFo(h, INITIAL_MARK_STACK_SIZE, START, IgnoreSelfProc, PARENT) && LOST !in c.marked
    ensures AfterAll(h, INITIAL_MARK_STACK_SIZE, START, order) == if P in order then c else START
    decreases |order|
  {
    if order != [] {
      InOrderBefore(order);
      AnyOrder(h, order[..|order| - 1], c);
    }
  }

  /** In whichever order the registrations are met, both objects are queued, although the mark
      procedure of one leads to the other. */
  lemma {:induction false} OverflowQueuesReachable(h: Heap, order: seq<Ready>, m': map<nat, Fo>, q: seq<Ready>)
    requires IsExample(h) && BothIn(h) && AllIn(h, order) && Lists(order, Table())
    requires Enqueued(Table(), m', q, AfterAll(h, INITIAL_MARK_STACK_SIZE, START, order).marked)
    ensures P in q && Z in q && LOST in Reached(h, P)
  {
    ParentLoses(h);
    ListsBoth(order);
    AnyOrder(h, order, AfterFo(h, INITIAL_MARK_STACK_SIZE, START, IgnoreSelfProc, PARENT));
    BothQueued(order, m', q, AfterAll(h, INITIAL_MARK_STACK_SIZE, START, order).marked);
  }

  lemma {:induction false} ParentLoses(h: Heap)
    requires IsExample(h) && BothIn(h)
    ensures LOST in Reached(h, P)
    ensures var c := AfterFo(h, INITIAL_MARK_STACK_SIZE, START, IgnoreSelfProc, PARENT);
      LOST !in c.marked && PARENT !in c.marked
  {
    ExampleLoses(h, Kids());
    OverflowLoses(h, INITIAL_MARK_STACK_SIZE, PARENT, Kids(), DROPPED, LOST);
    LostIsReached(h, INITIAL_MARK_STACK_SIZE, PARENT, Kids(), DROPPED, LOST, P);
  }

  lemma {:induction false} ListsBoth(order: seq<Ready>)
    requires Lists(order, Table())
    ensures InOrder(order)
  {
  }

  lemma {:induction false} BothQueued(order: seq<Ready>, m': map<nat, Fo>, q: seq<Ready>, f: set<nat>)
    requires Enqueued(Table(), m', q, f) && PARENT !in f && LOST !in f
    ensures P in q && Z in q
  {
    assert PARENT in Table() && LOST in Table();
  }

  lemma {:induction false} BothListed()
    ensures Lists([P, Z], Table())
  {
  }

  /** There is such a heap. */
  lemma {:induction false} ExampleHolds() returns (h: Heap)
    ensures IsExample(h) && BothIn(h) && AllIn(h, [P, Z]) && Lists([P, Z], Table())
  {
    h := Example();
    ExampleIs();
    ReadyIs(h);
    BothListed();
  }

  lemma {:induction false} ReadyIs(h: Heap)
    requires IsExample(h)
    ensures BothIn(h)
  {
    ExampleValid(h);
    FieldsAre(h, 0);
    FieldsAre(h, 1);
    assert Object(0) == PARENT && Object(1) == LOST;
  }
}
