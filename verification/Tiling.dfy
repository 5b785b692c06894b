/** The block headers seen as one map from block number to entry, and what it means for
    them to tile the heap.  Addresses and block sizes are in heap blocks. */
module Tiling {
  import opened Basics

  const HBLKSIZE: nat := 4096
  const MAX_JUMP: nat := HBLKSIZE - 1

  /** A forwarding count, the header of a free block of sz blocks, or the header of a block
      in use for objects of lb bytes. */
  datatype Entry = Fwd(n: nat) | Free(sz: nat) | Used(lb: nat)

  /** Absent keys are nil entries. */
  type Hdrs = map<nat, Entry>

  /** OBJ_SZ_TO_BLOCKS. */
  function Blocks(lb: nat): nat {
    (lb + HBLKSIZE - 1) / HBLKSIZE
  }

  function Size(e: Entry): nat {
    match e
    case Fwd(_) => 0
    case Free(sz) => sz
    case Used(lb) => Blocks(lb)
  }

  function Jump(i: nat): nat {
    if i > MAX_JUMP then MAX_JUMP else i
  }

  predicate IsStart(m: Hdrs, s: nat) {
    s in m && !m[s].Fwd?
  }

  predicate IsFree(m: Hdrs, s: nat) {
    s in m && m[s].Free?
  }

  predicate IsUsed(m: Hdrs, s: nat) {
    s in m && m[s].Used?
  }

  function SizeAt(m: Hdrs, s: nat): nat {
    if s in m then Size(m[s]) else 0
  }

  function End(m: Hdrs, s: nat): nat {
    s + SizeAt(m, s)
  }

  predicate Covers(m: Hdrs, s: nat, a: nat) {
    IsStart(m, s) && s <= a < End(m, s)
  }

  ghost predicate Covered(m: Hdrs, a: nat) {
    exists s: nat :: Covers(m, s, a)
  }

  ghost predicate Apart(m: Hdrs) {
    forall s: nat, t: nat :: IsStart(m, s) && IsStart(m, t) && s < t ==> End(m, s) <= t
  }

  ghost predicate Cover(m: Hdrs, heap: set<nat>) {
    && (forall a: nat {:trigger Covered(m, a)} :: a in heap <==> Covered(m, a))
    && (forall a: nat :: a in m && m[a].Fwd? ==> a in heap)
  }

  ghost predicate NilInside(m: Hdrs, s: nat) {
    forall a: nat :: s < a < End(m, s) ==> a !in m
  }

  ghost predicate CountsInside(m: Hdrs, s: nat) {
    forall a: nat :: s < a < End(m, s) ==> a in m && m[a] == Fwd(Jump(a - s))
  }

  /** What is inside the block at s is what its header calls for. */
  ghost predicate Interior(m: Hdrs, s: nat) {
    (IsFree(m, s) ==> NilInside(m, s)) && (IsUsed(m, s) ==> CountsInside(m, s))
  }

  ghost predicate Proper(m: Hdrs, but: Option<nat>) {
    && (forall s: nat :: IsStart(m, s) ==> SizeAt(m, s) > 0)
    && (forall s: nat :: IsStart(m, s) && Some(s) != but ==> Interior(m, s))
  }

  /** The heap is tiled, and every block but the one at `but` has a proper interior. */
  ghost predicate TiledBut(m: Hdrs, heap: set<nat>, but: Option<nat>) {
    Apart(m) && Cover(m, heap) && Proper(m, but)
  }

  /** The blocks tile the heap; interiors of free blocks are nil and those of blocks in use
      hold the distance back to the start, capped. */
  ghost predicate Tiled(m: Hdrs, heap: set<nat>) {
    TiledBut(m, heap, None)
  }

  lemma OneOwner(m: Hdrs, s: nat, t: nat, a: nat)
    requires Apart(m)
    requires Covers(m, s, a) && Covers(m, t, a)
    ensures s == t
  {
    assert s < t ==> End(m, s) <= t;
    assert t < s ==> End(m, t) <= s;
  }

  /** n consecutive heap blocks. */
  ghost function Range(s: nat, n: nat): (r: set<nat>)
    ensures forall a: nat :: a in r <==> s <= a < s + n
    ensures |r| == n
  {
    if n == 0 then {} else Range(s, n - 1) + {s + n - 1}
  }

  /** The last block starting at or before p. */
  ghost predicate IsPrev(m: Hdrs, p: nat, r: Option<nat>) {
    match r
    case None => forall s: nat :: s <= p ==> !IsStart(m, s)
    case Some(t) => IsStart(m, t) && t <= p && forall s: nat :: t < s <= p ==> !IsStart(m, s)
  }

  /** The first block starting at or after p, passing over free blocks unless they are asked for. */
  ghost predicate IsNext(m: Hdrs, p: nat, allowFree: bool, r: Option<nat>) {
    match r
    case None => forall s: nat :: s >= p && IsStart(m, s) ==> IsFree(m, s) && !allowFree
    case Some(t) =>
      && IsStart(m, t) && t >= p && (IsFree(m, t) ==> allowFree)
      && forall s: nat :: p <= s < t && IsStart(m, s) ==> IsFree(m, s) && !allowFree
  }

  /** Following a count from inside a block leads to an entry of the same block. */
  lemma CountStep(m: Hdrs, heap: set<nat>, s: nat, a: nat)
    requires Tiled(m, heap) && Covers(m, s, a) && a in m && m[a].Fwd?
    ensures IsUsed(m, s) && 0 < m[a].n <= a - s
    ensures a - m[a].n in m && Covers(m, s, a - m[a].n)
  {
    assert Interior(m, s);
  }

  lemma EntryOwner(m: Hdrs, heap: set<nat>, a: nat) returns (s: nat)
    requires Tiled(m, heap) && a in m
    ensures Covers(m, s, a)
  {
    if IsStart(m, a) {
      s := a;
    } else {
      assert Covered(m, a);
      s :| Covers(m, s, a);
    }
  }

  predicate Adjacent(m: Hdrs, s: nat, t: nat) {
    IsFree(m, s) && IsFree(m, t) && End(m, s) == t
  }

  ghost predicate Coalesced(m: Hdrs) {
    forall s: nat, t: nat :: !Adjacent(m, s, t)
  }

  /** Only pairs with the block at b may still be merged. */
  ghost predicate CoalescedBut(m: Hdrs, b: nat) {
    forall s: nat, t: nat :: Adjacent(m, s, t) ==> s == b || t == b
  }

  // ---- The steps of the allocator as transformations of the map.

  /** A free block cut in two free blocks at r. */
  function Split(m: Hdrs, s: nat, r: nat): Hdrs
    requires IsFree(m, s) && s < r < End(m, s)
  {
    m[s := Free(r - s)][r := Free(End(m, s) - r)]
  }

  /** Counts installed inside the n blocks from s. */
  function Counts(m: Hdrs, s: nat, n: nat): (r: Hdrs)
    ensures forall a: nat :: a in r <==> a in m || s < a < s + n
    ensures forall a: nat :: a in r ==> r[a] == if s < a < s + n then Fwd(Jump(a - s)) else m[a]
  {
    if n <= 1 then m else Counts(m, s, n - 1)[s + n - 1 := Fwd(Jump(n - 1))]
  }

  lemma CountsStep(m: Hdrs, s: nat, i: nat)
    requires i > 0
    ensures Counts(m, s, i + 1) == Counts(m, s, i)[s + i := Fwd(Jump(i))]
  {
  }

  /** Nil entries inside the n blocks from s. */
  function Cleared(m: Hdrs, s: nat, n: nat): (r: Hdrs)
    ensures forall a: nat :: a in r <==> a in m && !(s < a < s + n)
    ensures forall a: nat :: a in r ==> r[a] == m[a]
  {
    if n <= 1 then m else Cleared(m, s, n - 1) - {s + n - 1}
  }

  /** A free block of exactly the right size put to use. */
  function Taken(m: Hdrs, s: nat, lb: nat): Hdrs {
    Counts(m[s := Used(lb)], s, Blocks(lb))
  }

  /** A block made free. */
  function Released(m: Hdrs, s: nat): Hdrs {
    Cleared(m, s, SizeAt(m, s))[s := Free(SizeAt(m, s))]
  }

  /** A free block joined with the free block after it. */
  function Merged(m: Hdrs, s: nat, t: nat): Hdrs {
    m[s := Free(SizeAt(m, s) + SizeAt(m, t))] - {t}
  }

  lemma {:induction false} SplitBlocks(m: Hdrs, heap: set<nat>, s: nat, r: nat)
    requires Tiled(m, heap) && IsFree(m, s) && s < r < End(m, s)
    ensures r !in m && r in heap
    ensures Apart(Split(m, s, r))
    ensures Proper(Split(m, s, r), None)
  {
    var m' := Split(m, s, r);
    assert Interior(m, s);
    assert Covers(m, s, r) && Covered(m, r);
    forall t: nat | IsStart(m', t) ensures SizeAt(m', t) > 0 && Interior(m', t) {
      if t != s && t != r {
        assert Interior(m, t);
        assert End(m, t) <= s || End(m, s) <= t;
      }
    }
  }

  lemma {:induction false} SplitTiles(m: Hdrs, heap: set<nat>, s: nat, r: nat)
    requires Tiled(m, heap) && IsFree(m, s) && s < r < End(m, s)
    ensures Tiled(Split(m, s, r), heap)
  {
    var m' := Split(m, s, r);
    SplitBlocks(m, heap, s, r);
    forall a: nat ensures a in heap <==> Covered(m', a) {
      if a in heap {
        assert Covered(m, a);
        var t: nat :| Covers(m, t, a);
        assert Covers(m', if t == s && a >= r then r else t, a);
      }
      if Covered(m', a) {
        var t: nat :| Covers(m', t, a);
        assert Covers(m, if t == r then s else t, a) && Covered(m, a);
      }
    }
  }

  /** A map with the same blocks covers the same heap. */
  lemma SameBlocksTile(m: Hdrs, m': Hdrs, heap: set<nat>, but: Option<nat>)
    requires TiledBut(m, heap, but)
    requires forall t: nat :: IsStart(m', t) == IsStart(m, t) && (IsStart(m, t) ==> SizeAt(m', t) == SizeAt(m, t))
    requires forall t: nat :: IsStart(m, t) ==> Interior(m', t)
    requires forall a: nat :: a in m' && m'[a].Fwd? ==> a in heap
    ensures Tiled(m', heap)
  {
    forall a: nat ensures a in heap <==> Covered(m', a) {
      if a in heap {
        assert Covered(m, a);
        var t: nat :| Covers(m, t, a);
        assert Covers(m', t, a);
      }
      if Covered(m', a) {
        var t: nat :| Covers(m', t, a);
        assert Covers(m, t, a) && Covered(m, a);
      }
    }
  }

  lemma {:induction false} TakeInside(m: Hdrs, s: nat, lb: nat, m': Hdrs)
    requires Apart(m) && Proper(m, None) && IsFree(m, s) && SizeAt(m, s) == Blocks(lb)
    requires m' == Taken(m, s, lb)
    ensures forall t: nat :: IsStart(m', t) == IsStart(m, t) && (IsStart(m, t) ==> SizeAt(m', t) == SizeAt(m, t))
    ensures forall t: nat :: IsStart(m, t) ==> Interior(m', t)
  {
    assert Interior(m, s);
    forall t: nat | IsStart(m, t) ensures Interior(m', t) {
      if t != s {
        assert Interior(m, t);
        assert End(m, t) <= s || End(m, s) <= t;
      }
    }
  }

  lemma TakeTiles(m: Hdrs, heap: set<nat>, s: nat, lb: nat, m': Hdrs)
    requires Tiled(m, heap) && IsFree(m, s) && SizeAt(m, s) == Blocks(lb)
    requires m' == Taken(m, s, lb)
    ensures Tiled(m', heap)
  {
    TakeInside(m, s, lb, m');
    forall a: nat | a in m' && m'[a].Fwd? ensures a in heap {
      assert a !in m ==> Covers(m, s, a) && Covered(m, a);
    }
    SameBlocksTile(m, m', heap, None);
  }

  lemma {:induction false} ReleaseTiles(m: Hdrs, heap: set<nat>, s: nat)
    requires TiledBut(m, heap, Some(s)) && IsStart(m, s)
    ensures Tiled(Released(m, s), heap)
  {
    var m' := Released(m, s);
    forall t: nat ensures IsStart(m', t) == IsStart(m, t) && (IsStart(m, t) ==> SizeAt(m', t) == SizeAt(m, t)) {
      assert IsStart(m, t) && s < t ==> End(m, s) <= t;
    }
    forall t: nat | IsStart(m, t) ensures Interior(m', t) {
      if t != s {
        assert Interior(m, t);
        assert End(m, t) <= s || End(m, s) <= t;
      }
    }
    assert Covers(m, s, s);
    SameBlocksTile(m, m', heap, Some(s));
  }

  lemma {:induction false} MergeBlocks(m: Hdrs, heap: set<nat>, s: nat, t: nat)
    requires Tiled(m, heap) && Adjacent(m, s, t)
    ensures Apart(Merged(m, s, t))
    ensures forall x: nat :: IsStart(Merged(m, s, t), x) ==>
              SizeAt(Merged(m, s, t), x) > 0 && Interior(Merged(m, s, t), x)
  {
    var m' := Merged(m, s, t);
    assert Interior(m, s) && Interior(m, t);
    forall x: nat | IsStart(m', x) ensures SizeAt(m', x) > 0 && Interior(m', x) {
      if x != s {
        assert Interior(m, x);
        assert End(m, x) <= s || End(m, t) <= x;
      }
    }
  }

  lemma {:induction false} MergeTiles(m: Hdrs, heap: set<nat>, s: nat, t: nat)
    requires Tiled(m, heap) && Adjacent(m, s, t)
    ensures Tiled(Merged(m, s, t), heap)
  {
    var m' := Merged(m, s, t);
    MergeBlocks(m, heap, s, t);
    forall a: nat ensures a in heap <==> Covered(m', a) {
      if a in heap {
        assert Covered(m, a);
        var x: nat :| Covers(m, x, a);
        assert Covers(m', if x == t then s else x, a);
      }
      if Covered(m', a) {
        var x: nat :| Covers(m', x, a);
        assert Covers(m, if x == s && a >= t then t else x, a) && Covered(m, a);
      }
    }
  }

  /** The least number of heap blocks that hold lb bytes. */
  lemma BlocksIsLeast(lb: nat, k: nat)
    ensures Blocks(lb) * HBLKSIZE >= lb
    ensures k * HBLKSIZE >= lb ==> Blocks(lb) <= k
    ensures Blocks(k * HBLKSIZE) == k
  {
  }

  lemma CoveredInHeap(m: Hdrs, heap: set<nat>, s: nat, a: nat)
    requires Cover(m, heap)
    ensures Covers(m, s, a) ==> a in heap
  {
    assert Covers(m, s, a) ==> Covered(m, a);
  }

  lemma SectionFresh(m: Hdrs, heap: set<nat>, s: nat, n: nat)
    requires Tiled(m, heap) && n > 0 && heap !! Range(s, n)
    ensures forall t: nat :: IsStart(m, t) ==> End(m, t) <= s || s + n <= t
    ensures forall a: nat :: s <= a < s + n ==> a !in m
  {
    assert forall a: nat :: s <= a < s + n ==> a in Range(s, n);
    forall t: nat | IsStart(m, t) ensures End(m, t) <= s || s + n <= t {
      CoveredInHeap(m, heap, t, s);
      CoveredInHeap(m, heap, t, t);
    }
    forall a: nat | s <= a < s + n ensures a !in m {
      CoveredInHeap(m, heap, a, a);
    }
  }

  lemma SectionProper(m: Hdrs, heap: set<nat>, s: nat, lb: nat)
    requires Tiled(m, heap) && Blocks(lb) > 0 && heap !! Range(s, Blocks(lb))
    ensures s !in m
    ensures Proper(m[s := Used(lb)], Some(s))
    ensures NilInside(m[s := Used(lb)], s)
  {
    var m' := m[s := Used(lb)];
    SectionFresh(m, heap, s, Blocks(lb));
    forall t: nat | IsStart(m', t) && t != s ensures SizeAt(m', t) > 0 && Interior(m', t) {
      assert IsStart(m, t) && Interior(m, t);
    }
  }

  lemma SectionApart(m: Hdrs, heap: set<nat>, s: nat, lb: nat)
    requires Tiled(m, heap) && Blocks(lb) > 0 && heap !! Range(s, Blocks(lb))
    ensures Apart(m[s := Used(lb)])
  {
    var m' := m[s := Used(lb)];
    SectionFresh(m, heap, s, Blocks(lb));
    forall t: nat, u: nat | IsStart(m', t) && IsStart(m', u) && t < u ensures End(m', t) <= u {
      if t != s && u != s {
        assert IsStart(m, t) && IsStart(m, u);
      } else if t == s {
        assert IsStart(m, u);
      } else {
        assert IsStart(m, t);
      }
    }
  }

  lemma SectionCover(m: Hdrs, heap: set<nat>, s: nat, lb: nat)
    requires Cover(m, heap) && s !in m
    ensures Cover(m[s := Used(lb)], heap + Range(s, Blocks(lb)))
  {
    var m', heap' := m[s := Used(lb)], heap + Range(s, Blocks(lb));
    forall a: nat ensures a in heap' <==> Covered(m', a) {
      if a in Range(s, Blocks(lb)) {
        assert Covers(m', s, a);
      } else if a in heap {
        assert Covered(m, a);
        var t: nat :| Covers(m, t, a);
        assert Covers(m', t, a);
      }
      if Covered(m', a) {
        var t: nat :| Covers(m', t, a);
        assert t != s ==> Covers(m, t, a) && Covered(m, a);
      }
    }
  }

  /** A new section, its header set up as a block in use without counts. */
  lemma SectionTiles(m: Hdrs, heap: set<nat>, s: nat, lb: nat)
    requires Tiled(m, heap) && Blocks(lb) > 0 && heap !! Range(s, Blocks(lb))
    ensures TiledBut(m[s := Used(lb)], heap + Range(s, Blocks(lb)), Some(s))
    ensures NilInside(m[s := Used(lb)], s)
  {
    SectionProper(m, heap, s, lb);
    SectionApart(m, heap, s, lb);
    SectionCover(m, heap, s, lb);
  }

  // ---- Coalescing.

  lemma ReleaseCoalesced(m: Hdrs, heap: set<nat>, s: nat)
    requires TiledBut(m, heap, Some(s)) && IsUsed(m, s) && Coalesced(m)
    ensures CoalescedBut(Released(m, s), s)
  {
    var m' := Released(m, s);
    forall x: nat, y: nat | Adjacent(m', x, y) ensures x == s || y == s {
      assert x != s && y != s ==> Adjacent(m, x, y);
    }
  }

  lemma MergeRightCoalesced(m: Hdrs, heap: set<nat>, s: nat, t: nat)
    requires Tiled(m, heap) && Adjacent(m, s, t) && CoalescedBut(m, s)
    ensures CoalescedBut(Merged(m, s, t), s)
    ensures !IsFree(Merged(m, s, t), End(Merged(m, s, t), s))
  {
    var m' := Merged(m, s, t);
    assert End(m', s) == End(m, t);
    assert SizeAt(m, t) > 0;
    forall x: nat, y: nat | Adjacent(m', x, y) ensures x == s || y == s {
      assert x != s && y != s ==> Adjacent(m, x, y);
    }
    if IsFree(m', End(m', s)) {
      assert Adjacent(m, t, End(m, t));
    }
  }

  lemma MergeLeftCoalesced(m: Hdrs, heap: set<nat>, p: nat, s: nat)
    requires Tiled(m, heap) && Adjacent(m, p, s) && CoalescedBut(m, s) && !IsFree(m, End(m, s))
    ensures Coalesced(Merged(m, p, s))
  {
    var m' := Merged(m, p, s);
    assert End(m', p) == End(m, s);
    forall x: nat, y: nat ensures !Adjacent(m', x, y) {
      if Adjacent(m', x, y) {
        if x != p {
          assert Adjacent(m, x, y);
        }
      }
    }
  }

  // ---- Carving a block in use out of a free one.

  /** The n heap blocks from b are inside the free block at s. */
  predicate Fits(m: Hdrs, s: nat, b: nat, n: nat) {
    IsFree(m, s) && s <= b && b + n <= End(m, s) && n > 0
  }

  function CutBefore(m: Hdrs, s: nat, b: nat): Hdrs
    requires IsFree(m, s) && s <= b < End(m, s)
  {
    if s < b then Split(m, s, b) else m
  }

  function CutAfter(m: Hdrs, b: nat, r: nat): Hdrs
    requires IsFree(m, b) && b < r <= End(m, b)
  {
    if r < End(m, b) then Split(m, b, r) else m
  }

  /** The blocks for lb bytes from b taken out of the free block at s: what is before them
      and what is after them stays free. */
  function Carved(m: Hdrs, s: nat, b: nat, lb: nat): Hdrs
    requires Fits(m, s, b, Blocks(lb))
  {
    Taken(CutAfter(CutBefore(m, s, b), b, b + Blocks(lb)), b, lb)
  }

  lemma CutBeforeTiles(m: Hdrs, heap: set<nat>, s: nat, b: nat)
    requires Tiled(m, heap) && IsFree(m, s) && s <= b < End(m, s)
    ensures Tiled(CutBefore(m, s, b), heap)
  {
    if s < b {
      SplitTiles(m, heap, s, b);
    }
  }

  lemma CutAfterTiles(m: Hdrs, heap: set<nat>, b: nat, r: nat)
    requires Tiled(m, heap) && IsFree(m, b) && b < r <= End(m, b)
    ensures Tiled(CutAfter(m, b, r), heap)
  {
    if r < End(m, b) {
      SplitTiles(m, heap, b, r);
    }
  }

  lemma CutSizes(m: Hdrs, s: nat, b: nat, r: nat)
    requires IsFree(m, s) && s <= b < r <= End(m, s)
    ensures IsFree(CutBefore(m, s, b), b) && End(CutBefore(m, s, b), b) == End(m, s)
    ensures IsFree(CutAfter(CutBefore(m, s, b), b, r), b) && End(CutAfter(CutBefore(m, s, b), b, r), b) == r
  {
  }

  lemma CutTiles(m: Hdrs, heap: set<nat>, s: nat, b: nat, r: nat)
    requires Tiled(m, heap) && IsFree(m, s) && s <= b < r <= End(m, s)
    requires IsFree(CutBefore(m, s, b), b) && End(CutBefore(m, s, b), b) == End(m, s)
    ensures Tiled(CutAfter(CutBefore(m, s, b), b, r), heap)
  {
    CutBeforeTiles(m, heap, s, b);
    CutAfterTiles(CutBefore(m, s, b), heap, b, r);
  }

  lemma {:induction false} CarvedTiles(m: Hdrs, heap: set<nat>, s: nat, b: nat, lb: nat, c: Hdrs)
    requires Tiled(m, heap) && Fits(m, s, b, Blocks(lb))
    requires c == Carved(m, s, b, lb)
    ensures Tiled(c, heap)
  {
    var r := b + Blocks(lb);
    CutSizes(m, s, b, r);
    CutTiles(m, heap, s, b, r);
    TakeTiles(CutAfter(CutBefore(m, s, b), b, r), heap, b, lb, c);
  }

  /** What the free block at s has inside, and where the other blocks are. */
  ghost predicate Alone(m: Hdrs, s: nat) {
    NilInside(m, s) && forall x: nat :: IsStart(m, x) && x != s ==> End(m, x) <= s || End(m, s) <= x
  }

  lemma IsAlone(m: Hdrs, heap: set<nat>, s: nat)
    requires Tiled(m, heap) && IsFree(m, s)
    ensures Alone(m, s)
    ensures forall x: nat :: IsStart(m, x) ==> SizeAt(m, x) > 0
  {
    assert Interior(m, s);
  }

  /** Which blocks c has after n blocks from b are carved out of s in m. */
  ghost predicate CarvedOut(m: Hdrs, c: Hdrs, s: nat, b: nat, lb: nat) {
    var r := b + Blocks(lb);
    && b in c && c[b] == Used(lb)
    && (s < b ==> s in c && c[s] == Free(b - s))
    && (r < End(m, s) ==> r in c && c[r] == Free(End(m, s) - r))
    && (forall x: nat :: IsStart(m, x) && x != s ==> x in c && c[x] == m[x])
    && (forall x: nat :: IsStart(c, x) ==>
          x == b || (x == s && s < b) || (x == r && r < End(m, s)) || (IsStart(m, x) && x != s))
  }

  lemma {:induction false} CarvedBlocks(m: Hdrs, s: nat, b: nat, lb: nat)
    requires Alone(m, s) && Fits(m, s, b, Blocks(lb))
    requires forall x: nat :: IsStart(m, x) ==> SizeAt(m, x) > 0
    ensures CarvedOut(m, Carved(m, s, b, lb), s, b, lb)
  {
    var c, n := Carved(m, s, b, lb), Blocks(lb);
    forall x: nat | IsStart(m, x) && x != s ensures x in c && c[x] == m[x] {
      assert x < s || End(m, s) <= x;
    }
  }

  lemma CarvedCoalesced(m: Hdrs, c: Hdrs, s: nat, b: nat, lb: nat)
    requires CarvedOut(m, c, s, b, lb) && Alone(m, s) && Fits(m, s, b, Blocks(lb))
    requires Coalesced(m)
    ensures Coalesced(c)
  {
    var r := b + Blocks(lb);
    forall x: nat, y: nat ensures !Adjacent(c, x, y) {
      if Adjacent(c, x, y) {
        CarvedPair(m, c, s, b, lb, x, y);
      }
    }
  }

  lemma CarvedPair(m: Hdrs, c: Hdrs, s: nat, b: nat, lb: nat, x: nat, y: nat)
    requires CarvedOut(m, c, s, b, lb) && Alone(m, s) && Fits(m, s, b, Blocks(lb))
    requires Adjacent(c, x, y)
    ensures Adjacent(m, if s < x < End(m, s) then s else x, y)
  {
    var r := b + Blocks(lb);
    assert x != b && y != b;
    if x == r && r < End(m, s) {
      assert y == End(m, s);
    } else {
      assert x != s;
      assert IsFree(m, x) && End(c, x) == End(m, x);
    }
  }

  // ---- Dropping a free block: every block of it becomes a small block in use.

  function Dropped(m: Hdrs, s: nat, k: nat): (r: Hdrs)
    ensures forall a: nat :: a in r <==> a in m || s <= a < s + k
    ensures forall a: nat :: a in r ==> r[a] == if s <= a < s + k then Used(HBLKSIZE) else m[a]
  {
    if k == 0 then m else Dropped(m, s, k - 1)[s + (k - 1) := Used(HBLKSIZE)]
  }

  lemma {:induction false} DropProper(m: Hdrs, heap: set<nat>, s: nat, m': Hdrs)
    requires Tiled(m, heap) && IsFree(m, s) && m' == Dropped(m, s, SizeAt(m, s))
    ensures Apart(m') && Proper(m', None)
  {
    IsAlone(m, heap, s);
    BlocksIsLeast(HBLKSIZE, 1);
    forall t: nat | IsStart(m', t) ensures SizeAt(m', t) > 0 && Interior(m', t) {
      if !(s <= t < End(m, s)) {
        assert Interior(m, t);
      }
    }
  }

  lemma {:induction false} DropTiles(m: Hdrs, heap: set<nat>, s: nat, m': Hdrs)
    requires Tiled(m, heap) && IsFree(m, s) && m' == Dropped(m, s, SizeAt(m, s))
    ensures Tiled(m', heap)
  {
    DropProper(m, heap, s, m');
    IsAlone(m, heap, s);
    BlocksIsLeast(HBLKSIZE, 1);
    forall a: nat ensures a in heap <==> Covered(m', a) {
      if a in heap {
        assert Covered(m, a);
        var t: nat :| Covers(m, t, a);
        assert Covers(m', if t == s then a else t, a);
      }
      if Covered(m', a) {
        var t: nat :| Covers(m', t, a);
        assert Covers(m, if s <= t < End(m, s) then s else t, a) && Covered(m, a);
      }
    }
  }

  // ---- The tiling is determined by the blocks in use.

  ghost predicate SameUsed(m: Hdrs, m': Hdrs) {
    && (forall x: nat :: IsUsed(m, x) ==> x in m' && m'[x] == m[x])
    && (forall x: nat :: IsUsed(m', x) ==> x in m && m[x] == m'[x])
  }

  /** A free heap block of one tiling is free in the other. */
  lemma SameFreeCell(m: Hdrs, m': Hdrs, heap: set<nat>, s: nat, a: nat) returns (t: nat)
    requires Apart(m) && Cover(m, heap) && Cover(m', heap) && SameUsed(m, m')
    requires IsFree(m, s) && Covers(m, s, a)
    ensures IsFree(m', t) && Covers(m', t, a)
  {
    assert Covered(m, a) && Covered(m', a);
    t :| Covers(m', t, a);
    if IsUsed(m', t) {
      assert Covers(m, t, a);
      OneOwner(m, s, t, a);
      assert false;
    }
  }

  lemma LeftNeighbour(m: Hdrs, m': Hdrs, heap: set<nat>, s: nat, t: nat)
    requires Apart(m') && Apart(m) && Cover(m, heap) && Cover(m', heap) && SameUsed(m, m')
    requires IsFree(m, s) && IsFree(m', t) && t < s < End(m', t)
    ensures exists u: nat :: Adjacent(m, u, s)
  {
    var u := SameFreeCell(m', m, heap, t, s - 1);
    assert IsStart(m, u) && IsStart(m, s);
    assert Adjacent(m, u, s);
  }

  lemma RightNeighbour(m: Hdrs, m': Hdrs, heap: set<nat>, s: nat)
    requires Apart(m') && Apart(m) && Cover(m, heap) && Cover(m', heap) && SameUsed(m, m')
    requires IsFree(m, s) && SizeAt(m, s) > 0 && IsFree(m', s) && End(m, s) < End(m', s)
    ensures exists v: nat :: Adjacent(m, s, v)
  {
    var v := SameFreeCell(m', m, heap, s, End(m, s));
    assert IsStart(m, v) && IsStart(m, s);
    assert Adjacent(m, s, v);
  }

  lemma CanonicalFree(m: Hdrs, m': Hdrs, heap: set<nat>, s: nat)
    requires Apart(m) && Apart(m') && Cover(m, heap) && Cover(m', heap) && SameUsed(m, m')
    requires Coalesced(m) && Coalesced(m')
    requires IsFree(m, s) && SizeAt(m, s) > 0
    ensures s in m' && m'[s] == m[s]
  {
    var t := SameFreeCell(m, m', heap, s, s);
    if t < s {
      LeftNeighbour(m, m', heap, s, t);
    } else if End(m, s) < End(m', s) {
      RightNeighbour(m, m', heap, s);
    } else if End(m', s) < End(m, s) {
      RightNeighbour(m', m, heap, s);
    }
  }

  lemma CanonicalAt(m: Hdrs, m': Hdrs, heap: set<nat>, a: nat)
    requires Tiled(m, heap) && Tiled(m', heap) && SameUsed(m, m') && Coalesced(m) && Coalesced(m')
    requires a in m
    ensures a in m' && m'[a] == m[a]
  {
    if IsFree(m, a) {
      CanonicalFree(m, m', heap, a);
    } else if m[a].Fwd? {
      assert a in heap && Covered(m, a);
      var s: nat :| Covers(m, s, a);
      assert Interior(m, s);
      assert IsStart(m', s) && Interior(m', s);
    }
  }

  /** Two coalesced tilings of a heap that agree on the blocks in use are the same map. */
  lemma Canonical(m: Hdrs, m': Hdrs, heap: set<nat>)
    requires Tiled(m, heap) && Tiled(m', heap) && SameUsed(m, m') && Coalesced(m) && Coalesced(m')
    ensures m == m'
  {
    forall a: nat | a in m ensures a in m' && m'[a] == m[a] {
      CanonicalAt(m, m', heap, a);
    }
    forall a: nat | a in m' ensures a in m {
      CanonicalAt(m', m, heap, a);
    }
  }

  // ---- Counting.

  function SumSizes(m: Hdrs, l: seq<nat>): nat {
    if l == [] then 0 else SizeAt(m, l[0]) + SumSizes(m, l[1..])
  }

  /** The heap blocks belonging to the blocks listed. */
  ghost function CellsOf(m: Hdrs, l: seq<nat>): set<nat> {
    if l == [] then {} else Range(l[0], SizeAt(m, l[0])) + CellsOf(m, l[1..])
  }

  lemma {:induction false} InCells(m: Hdrs, l: seq<nat>, a: nat)
    requires forall s: nat :: s in l ==> IsStart(m, s)
    ensures a in CellsOf(m, l) <==> exists s: nat :: s in l && Covers(m, s, a)
  {
    if l != [] {
      InCells(m, l[1..], a);
      assert l == [l[0]] + l[1..];
      assert a in Range(l[0], SizeAt(m, l[0])) <==> Covers(m, l[0], a);
    }
  }

  /** Distinct blocks share no heap block, so their sizes add up. */
  lemma {:induction false} SumIsCard(m: Hdrs, l: seq<nat>)
    requires Apart(m) && NoDup(l)
    requires forall s: nat :: s in l ==> IsStart(m, s)
    ensures |CellsOf(m, l)| == SumSizes(m, l)
  {
    if l != [] {
      SumIsCard(m, l[1..]);
      var first := Range(l[0], SizeAt(m, l[0]));
      forall a: nat | a in first ensures a !in CellsOf(m, l[1..]) {
        InCells(m, l[1..], a);
        if s: nat :| s in l[1..] && Covers(m, s, a) {
          assert Covers(m, l[0], a);
          OneOwner(m, l[0], s, a);
        }
      }
      assert first !! CellsOf(m, l[1..]);
    }
  }
}
