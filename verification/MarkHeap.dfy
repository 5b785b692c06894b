/** The heap as the marker sees it: allocated blocks in address order, the objects
    in them, the words it may scan and the roots.  The heap does not change while
    a mark phase runs.  All addresses and lengths are in words of sizeof(ptr_t),
    the default ALIGNMENT of a 64-bit build. */
module MarkHeap {
  import opened Basics

  const HBLKSIZE := 4096
  const HBLK_GRANULES := 256
  const HBLK_WORDS := 512
  const INITIAL_MARK_STACK_SIZE := HBLKSIZE
  const MARK_STACK_DISCARDS := INITIAL_MARK_STACK_SIZE / 8
  const SPLIT_RANGE_PTRS := 128
  const WORD_BITS := 64

  /** A mark stack entry with a length descriptor: scan words start .. start+len-1. */
  datatype Entry = Entry(start: nat, len: nat) {
    predicate Has(a: nat) {
      start <= a < start + len
    }
  }

  ghost predicate In(s: seq<Entry>, a: nat) {
    exists i :: 0 <= i < |s| && s[i].Has(a)
  }

  /** An allocated block: its address and length in heap blocks, the size of its
      objects in granules, how many words of each are scanned (0: pointer-free),
      and the object base addresses in order. */
  datatype Block = Block(addr: nat, nblocks: nat, lg: nat, descr: nat, uncollectable: bool, objs: seq<nat>) {
    /** Objects so small that their marks are read a word of mark bits at a time. */
    predicate Accelerated() {
      lg == 1 || lg == 2 || lg == 4
    }
  }

  datatype Heap = Heap(load: nat -> nat,
                       base: nat -> Option<nat>,
                       least: nat, greatest: nat,
                       blocks: seq<Block>,
                       home: map<nat, nat>,
                       staticRoots: seq<Entry>,
                       stackRoots: seq<Entry>,
                       dirty: set<nat>,
                       rootVdb: bool,
                       rootDirty: nat -> bool) {

    ghost predicate Valid() {
      && BlocksValid()
      && (forall q {:trigger base(q)} :: base(q).Some? ==> base(q).value in home && Plausible(q))
    }

    ghost predicate BlocksValid() {
      && (forall i, j :: 0 <= i < j < |blocks| ==> blocks[i].addr + blocks[i].nblocks <= blocks[j].addr)
      && (forall i :: 0 <= i < |blocks| ==>
            && 0 < blocks[i].addr
            && 0 < blocks[i].nblocks
            && 0 < blocks[i].lg
            && blocks[i].descr <= 2 * blocks[i].lg
            && |blocks[i].objs| <= HBLK_GRANULES)
      && (forall i, o :: 0 <= i < |blocks| && o in blocks[i].objs ==> o in home && home[o] == i)
      && (forall o :: o in home ==> home[o] < |blocks| && o in blocks[home[o]].objs)
    }

    predicate Plausible(q: nat) {
      least < q < greatest
    }

    function Objs(): set<nat> {
      home.Keys
    }

    /** The object that the word at address a refers to, if any. */
    function Target(a: nat): Option<nat> {
      base(load(a))
    }

    function BlockOf(o: nat): Block
      requires BlocksValid() && o in home
    {
      blocks[home[o]]
    }

    /** The words the descriptor of o's block makes the marker scan. */
    function Fields(o: nat): Entry
      requires BlocksValid() && o in home
    {
      Entry(o, BlockOf(o).descr)
    }

    /** The words of o that marking may scan at all: those of the descriptor, or the whole object
        when there is a descriptor and the marks of its block are read word by word. */
    function Extent(o: nat): Entry
      requires BlocksValid() && o in home
    {
      if BlockOf(o).descr != 0 && BlockOf(o).Accelerated() then Entry(o, 2 * BlockOf(o).lg) else Fields(o)
    }

    /** A word of the static roots that may have changed since the last cycle.  Where static
        roots are tracked at all (rootVdb), they are tracked by pages (rootDirty). */
    ghost predicate DirtySlot(a: nat) {
      In(staticRoots, a) && (rootVdb ==> rootDirty(a / HBLK_WORDS))
    }

    ghost predicate RootSlot(a: nat) {
      In(staticRoots, a) || In(stackRoots, a)
    }

    /** Does o hold a reference to o' in its described words or, if `wide`, anywhere in its extent? */
    ghost predicate Edge(wide: bool, o: nat, o': nat)
      requires BlocksValid()
    {
      o in home && exists a :: (if wide then Extent(o) else Fields(o)).Has(a) && Target(a) == Some(o')
    }

    ghost predicate Path(wide: bool, p: seq<nat>)
      requires BlocksValid()
    {
      forall i :: 0 <= i < |p| - 1 ==> Edge(wide, p[i], p[i + 1])
    }

    ghost predicate Origin(from: set<nat>, o: nat) {
      o in from || exists a :: RootSlot(a) && Target(a) == Some(o)
    }

    /** o can be reached from the roots or from an object of `from`. */
    ghost predicate Reach(wide: bool, from: set<nat>, o: nat)
      requires BlocksValid()
    {
      exists p :: ReachBy(wide, from, p, o)
    }

    ghost predicate ReachBy(wide: bool, from: set<nat>, p: seq<nat>, o: nat)
      requires BlocksValid()
    {
      |p| > 0 && Origin(from, p[0]) && p[|p| - 1] == o && Path(wide, p)
    }

    ghost function LiveSet(from: set<nat>): set<nat>
      requires BlocksValid()
    {
      set o | o in Objs() && Reach(true, from, o)
    }

    /** live holds every object that a word that may be scanned, of one of its objects or of a root,
        refers to. */
    ghost predicate Closed(live: set<nat>)
      requires BlocksValid()
    {
      && live <= Objs()
      && (forall o, a :: o in live && Extent(o).Has(a) ==> Safe(live, a))
      && (forall a :: RootSlot(a) ==> Safe(live, a))
    }

    /** The same for the scanned words of the objects of live that are not in `but`. */
    ghost predicate FieldsClosed(live: set<nat>, but: set<nat>)
      requires BlocksValid()
    {
      && live <= Objs()
      && (forall o, a :: o in live && o !in but && Fields(o).Has(a) ==> Safe(live, a))
    }

    ghost predicate Safe(live: set<nat>, a: nat) {
      Target(a).Some? ==> Target(a).value in live
    }

    /** Index of the first allocated block at or after address a, or |blocks|. */
    function NextBlock(a: nat): nat {
      FirstBlock(blocks, a, 0)
    }
  }

  /** The same, looking from index `from` on. */
  function FirstBlock(blocks: seq<Block>, a: nat, from: nat): (i: nat)
    requires from <= |blocks|
    ensures from <= i <= |blocks|
    ensures forall k :: from <= k < i ==> blocks[k].addr < a
    ensures i < |blocks| ==> a <= blocks[i].addr
    decreases |blocks| - from
  {
    if from == |blocks| || a <= blocks[from].addr then from else FirstBlock(blocks, a, from + 1)
  }

  lemma {:induction false} LiveSetClosed(h: Heap, from: set<nat>)
    requires h.Valid() && from <= h.Objs()
    ensures h.Closed(h.LiveSet(from))
    ensures from <= h.LiveSet(from)
  {
    var live := h.LiveSet(from);
    forall o | o in from ensures o in live {
      assert h.ReachBy(true, from, [o], o);
    }
    forall o, a | o in live && h.Extent(o).Has(a) ensures h.Safe(live, a) {
      if h.Target(a).Some? {
        var o' := h.Target(a).value;
        var p :| h.ReachBy(true, from, p, o);
        var p' := p + [o'];
        assert h.Edge(true, o, o');
        forall i | 0 <= i < |p'| - 1 ensures h.Edge(true, p'[i], p'[i + 1]) {
          if i < |p| - 1 {
            assert h.Edge(true, p[i], p[i + 1]);
          }
        }
        assert h.ReachBy(true, from, p', o');
      }
    }
    forall a | h.RootSlot(a) ensures h.Safe(live, a) {
      if h.Target(a).Some? {
        assert h.ReachBy(true, from, [h.Target(a).value], h.Target(a).value);
      }
    }
  }

  lemma ClosedFields(h: Heap, live: set<nat>, but: set<nat>)
    requires h.BlocksValid() && h.Closed(live)
    ensures h.FieldsClosed(live, but)
  {
    forall o, a | o in live && h.Fields(o).Has(a) ensures h.Safe(live, a) {
      assert h.Extent(o).Has(a);
    }
  }

  /** A set of marks with nothing left to scan contains everything reachable. */
  lemma {:induction false} ClosureContainsReach(h: Heap, from: set<nat>, marked: set<nat>, p: seq<nat>)
    requires h.Valid() && from <= marked
    requires forall o, a :: o in marked && o in h.home && h.Fields(o).Has(a) && h.Target(a).Some? ==> h.Target(a).value in marked
    requires forall a :: h.RootSlot(a) && h.Target(a).Some? ==> h.Target(a).value in marked
    requires |p| > 0 && h.Origin(from, p[0]) && h.Path(false, p)
    ensures p[|p| - 1] in marked
  {
    if |p| > 1 {
      var q := p[..|p| - 1];
      assert h.Path(false, q) by {
        forall i | 0 <= i < |q| - 1 ensures h.Edge(false, q[i], q[i + 1]) {
          assert h.Edge(false, p[i], p[i + 1]);
        }
      }
      ClosureContainsReach(h, from, marked, q);
      assert h.Edge(false, p[|p| - 2], p[|p| - 1]);
    }
  }

  /** Do descriptors cover the whole object where they are not zero and marks are read word by word? */
  ghost predicate FullDescriptors(h: Heap) {
    forall i :: 0 <= i < |h.blocks| && h.blocks[i].Accelerated() ==>
      h.blocks[i].descr == 0 || h.blocks[i].descr == 2 * h.blocks[i].lg
  }

  /** Then both notions of reachability agree. */
  lemma {:induction false} FullDescriptorsReach(h: Heap, from: set<nat>, o: nat)
    requires h.Valid() && FullDescriptors(h)
    ensures h.Reach(true, from, o) <==> h.Reach(false, from, o)
  {
    assert forall x :: x in h.home ==> h.Extent(x) == h.Fields(x);
    assert forall x, y :: h.Edge(true, x, y) <==> h.Edge(false, x, y);
    if p :| h.ReachBy(true, from, p, o) {
      assert h.ReachBy(false, from, p, o);
    }
    if p :| h.ReachBy(false, from, p, o) {
      assert h.ReachBy(true, from, p, o);
    }
  }
}
