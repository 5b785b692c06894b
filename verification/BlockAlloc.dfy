/** The heap-block allocator: splitting, coalescing and the search of the free lists. */
module BlockAlloc {
  import opened Basics
  import opened Tiling
  import opened FreeLists
  import BL = BlackList

  /** In heap blocks, the size whose byte count has the sign bit of size_t set. */
  const SIGN_BLOCKS: nat := 0x8_0000_0000_0000
  const SIZE_MAX: nat := 0xFFFF_FFFF_FFFF_FFFF
  const MAX_BLACK_LIST_ALLOC: nat := 2

  datatype Kind = PtrFree | Normal | Uncollectable

  /** A request as GC_allochblk sees it: lb_adjusted and align_m1 in bytes. */
  datatype Request = Request(lb: nat, kind: Kind, ignoreOffPage: bool, alignM1: nat) {
    function N(): nat { Blocks(lb) }

    /** The alignment in heap blocks. */
    function Align(): nat { if alignM1 < HBLKSIZE then 1 else (alignM1 + 1) / HBLKSIZE }

    /** The request would not fit in half the address space. */
    predicate TooLarge() { N() * HBLKSIZE + alignM1 >= SIZE_MAX / 2 }

    /** The part of the result that must not be black-listed. */
    function Eff(): nat { if ignoreOffPage then 1 else N() }

    ghost predicate Legal() { lb > 0 && (alignM1 == 0 || (alignM1 + 1) % HBLKSIZE == 0) }

    /** Black lists do not matter for this request. */
    predicate Anywhere() { kind.Uncollectable? || (kind.PtrFree? && N() <= MAX_BLACK_LIST_ALLOC) }

    /** A black-listed block may be dropped instead of left on its list. */
    predicate Droppable() { N() == 1 && alignM1 == 0 }

    /** The free block of z blocks at s is large enough. */
    predicate SizeFits(s: nat, z: nat, maySplit: bool) {
      (maySplit || z == N()) && z >= N() + BL.AlignPad(s, Align())
    }

    ghost predicate CleanAt(bl: BL.Lists, s: nat, z: nat, b: nat) {
      z >= N() && BL.Clean(bl, s, z - N(), Eff(), Align(), b)
    }

    /** No aligned position in the free block avoids the black lists. */
    ghost predicate AllBlack(bl: BL.Lists, s: nat, z: nat) {
      !Anywhere() && forall b :: !CleanAt(bl, s, z, b)
    }

    /** The free block of z blocks at s can serve the request. */
    ghost predicate Placeable(bl: BL.Lists, s: nat, z: nat, maySplit: bool) {
      SizeFits(s, z, maySplit) && !AllBlack(bl, s, z)
    }

    /** Too large a request, and too large a block, to insist on a clean position. */
    predicate Punts(limit: nat, z: nat) { N() > limit && z > N() + limit }
  }

  /** b is where the search may place the request in the free block of z blocks at s. */
  ghost predicate Position(q: Request, bl: BL.Lists, limit: nat, s: nat, z: nat, maySplit: bool, b: nat) {
    && q.SizeFits(s, z, maySplit)
    && s <= b && b + q.N() <= s + z && b % q.Align() == 0
    && (q.AllBlack(bl, s, z) || q.Anywhere() ==> b == s + BL.AlignPad(s, q.Align()))
    && (q.AllBlack(bl, s, z) ==> q.Punts(limit, z))
    && (!q.AllBlack(bl, s, z) && !q.Anywhere() ==>
          q.CleanAt(bl, s, z, b) && forall c :: q.CleanAt(bl, s, z, c) ==> b <= c)
  }

  /** From m to m' only free blocks that were black-listed throughout have been dropped:
      turned into single blocks in use. */
  ghost predicate DropsOnly(m: Hdrs, m': Hdrs, q: Request, bl: BL.Lists) {
    && (forall x: nat :: IsFree(m', x) ==> x in m && m[x] == m'[x])
    && (forall x: nat :: IsUsed(m, x) ==> x in m' && m'[x] == m[x])
    && (forall x: nat :: IsFree(m, x) && !IsFree(m', x) ==> DroppedAt(m, m', x, q, bl))
    && (m == m' || q.Droppable())
  }

  ghost predicate DroppedAt(m: Hdrs, m': Hdrs, x: nat, q: Request, bl: BL.Lists) {
    && q.AllBlack(bl, x, SizeAt(m, x))
    && forall a: nat :: x <= a < End(m, x) ==> a in m' && m'[a] == Used(HBLKSIZE)
  }

  lemma DropsTransitive(m: Hdrs, m': Hdrs, m'': Hdrs, q: Request, bl: BL.Lists)
    requires DropsOnly(m, m', q, bl) && DropsOnly(m', m'', q, bl)
    ensures DropsOnly(m, m'', q, bl)
  {
    forall x: nat | IsFree(m, x) && !IsFree(m'', x) ensures DroppedAt(m, m'', x, q, bl) {
      if IsFree(m', x) {
        assert DroppedAt(m', m'', x, q, bl);
      } else {
        assert DroppedAt(m, m', x, q, bl);
        forall a: nat | x <= a < End(m, x) ensures a in m'' && m''[a] == Used(HBLKSIZE) {
          assert IsUsed(m', a);
        }
      }
    }
  }

  /** Sizes whose sum has the sign bit set are not merged. */
  predicate MergeOverflow(a: nat, b: nat) {
    (a + b) / SIGN_BLOCKS % 2 == 1
  }

  class Allocator {
    var hdrs: Hdrs                       // the header index, flattened
    var heads: seq<Option<nat>>          // GC_hblkfreelist
    var next: Link                       // hb_next
    var prev: Link                       // hb_prev
    var free: seq<nat>                   // GC_free_bytes
    var largeFree: nat                   // GC_large_free_bytes
    var heapSize: nat                    // GC_heapsize
    var dropCount: nat                   // GC_drop_blacklisted_count
    ghost var lists: seq<seq<nat>>
    ghost var heap: set<nat>

    ghost function Lists(): Links
      reads this
    {
      Links(heads, next, prev, free, lists)
    }

    ghost predicate Linked()
      reads this
    {
      LinksOk(hdrs, Lists()) && largeFree == Total(free)
    }

    /** Tiling, placement and counters; adjacent free blocks are merged unless the heap is so
        large that a merged size may overflow. */
    ghost predicate Consistent()
      reads this
    {
      && Tiled(hdrs, heap)
      && Linked()
      && Placed(hdrs, lists)
      && (|heap| < SIGN_BLOCKS ==> Coalesced(hdrs))
      && (forall a :: a in heap ==> a >= 2)
    }

    ghost predicate Valid()
      reads this
    {
      Consistent() && heapSize == |heap|
    }

    constructor ()
      ensures Valid() && heap == {} && hdrs == map[]
    {
      hdrs, next, prev := map[], map[], map[];
      heads := seq(N_HBLK_FLS + 1, _ => None);
      free := seq(N_HBLK_FLS + 1, _ => 0);
      largeFree, heapSize, dropCount := 0, 0, 0;
      lists := seq(N_HBLK_FLS + 1, _ => []);
      heap := {};
      new;
      EmptyTotal(free);
      forall i | 0 <= i <= N_HBLK_FLS ensures ListOk(hdrs, heads[i], next, prev, free[i], lists[i]) {
      }
    }

    /** GC_remove_from_fl_at. */
    method RemoveFromFlAt(s: nat, index: nat)
      requires LinksOk(hdrs, Lists()) && index <= N_HBLK_FLS && s in lists[index]
      modifies `heads, `next, `prev, `free, `lists
      ensures LinksOk(hdrs, Lists())
      ensures lists == old(lists)[index := Without(old(lists)[index], s)]
      ensures forall j, x :: 0 <= j <= N_HBLK_FLS ==> (x in lists[j] <==> x in old(lists)[j] && x != s)
      ensures Total(free) + SizeAt(hdrs, s) == Total(old(free))
    {
      ghost var c := Lists();
      UnlinkOk(hdrs, c, s, index);
      var p, n := At(prev, s), At(next, s);
      heads, next, free, prev, lists :=
        if p.None? then heads[index := n] else heads,
        SetLink(next, p, n),
        free[index := free[index] - SizeAt(hdrs, s)],
        SetLink(prev, n, p),
        lists[index := Without(lists[index], s)];
      assert Lists() == Unlinked(hdrs, c, s, index);
    }

    /** GC_add_to_fl, for a header at s that holds the size sz. */
    method AddToFl(s: nat, sz: nat)
      requires LinksOk(hdrs, Lists()) && OnNone(lists, s)
      modifies `hdrs, `heads, `next, `prev, `free, `lists
      ensures LinksOk(hdrs, Lists())
      ensures hdrs == old(hdrs)[s := Free(sz)]
      ensures lists == old(lists)[FlIndex(sz) := [s] + old(lists)[FlIndex(sz)]]
      ensures Total(free) == Total(old(free)) + sz
    {
      ghost var c := Lists();
      var index := FlIndex(sz);
      var second := heads[index];
      hdrs, heads, free, next, prev, lists :=
        hdrs[s := Free(sz)],
        heads[index := Some(s)],
        free[index := free[index] + sz],
        next[s := second],
        SetLink(prev[s := None], second, Some(s)),
        lists[index := [s] + lists[index]];
      SetHeaderPush(old(hdrs), c, s, sz);
      assert Lists() == Pushed(hdrs, c, s, index);
    }

    /** GC_find_starting_hblk. */
    method FindStartingHblk(h: nat) returns (r: nat)
      requires Tiled(hdrs, heap) && h in hdrs
      ensures Covers(hdrs, r, h)
    {
      ghost var s := EntryOwner(hdrs, heap, h);
      r := h;
      while hdrs[r].Fwd?
        invariant r in hdrs && Covers(hdrs, s, r)
        decreases r
      {
        CountStep(hdrs, heap, s, r);
        r := r - hdrs[r].n;
      }
      OneOwner(hdrs, s, r, r);
    }

    /** GC_prev_block, on the flattened index. */
    method PrevBlock(p: nat) returns (r: Option<nat>)
      requires Tiled(hdrs, heap)
      ensures IsPrev(hdrs, p, r)
    {
      var j: int := p;
      while j >= 0
        invariant j <= p
        invariant forall s: nat :: j < s <= p ==> !IsStart(hdrs, s)
      {
        if j !in hdrs {
          j := j - 1;
        } else if hdrs[j].Fwd? {
          ghost var s := EntryOwner(hdrs, heap, j);
          CountStep(hdrs, heap, s, j);
          NoStartInside(hdrs, s, j);
          j := j - hdrs[j].n;
        } else {
          return Some(j);
        }
      }
      return None;
    }

    /** GC_free_block_ending_at. */
    method FreeBlockEndingAt(h: nat) returns (r: Option<nat>)
      requires Tiled(hdrs, heap) && IsStart(hdrs, h) && h > 0
      ensures r.Some? ==> IsFree(hdrs, r.value) && End(hdrs, r.value) == h
      ensures r.None? ==> forall p: nat :: IsFree(hdrs, p) ==> End(hdrs, p) != h
    {
      if h - 1 in hdrs {
        var p := FindStartingHblk(h - 1);
        EndsAt(hdrs, heap, p, h);
        if hdrs[p].Free? {
          return Some(p);
        }
      } else {
        var q := PrevBlock(h - 1);
        EndingIsPrev(hdrs, heap, h, q);
        if q.Some? && q.value * HBLKSIZE + Bytes(hdrs[q.value]) == h * HBLKSIZE {
          if hdrs[q.value].Free? {
            return q;
          }
        }
      }
      return None;
    }

    /** The first half of GC_split_block: the header of t, inside the free block at s, is set
        up and takes the place of s on its list. */
    method ReplaceOnList(s: nat, t: nat, index: nat)
      requires LinksOk(hdrs, Lists())
      requires index <= N_HBLK_FLS && s in lists[index] && IsFree(hdrs, s) && s < t < End(hdrs, s) && t !in hdrs
      modifies `hdrs, `heads, `next, `prev, `free, `lists
      ensures LinksOk(hdrs, Lists()) && Total(free) + (t - s) == Total(old(free))
      ensures hdrs == old(hdrs)[t := Free(End(old(hdrs), s) - t)]
      ensures forall j, x :: 0 <= j <= N_HBLK_FLS ==>
                (x in lists[j] <==> (x in old(lists)[j] && x != s) || (j == index && x == t))
    {
      var p, n := At(prev, s), At(next, s);
      ghost var c, m := Lists(), hdrs[t := Free(End(hdrs, s) - t)];
      NotFreeOnNone(hdrs, c, t);
      ReplaceOk(hdrs, m, c, s, t, index, t - s);
      hdrs, heads, free, next, prev, lists :=
        hdrs[t := Free(End(hdrs, s) - t)],
        if p.None? then heads[index := Some(t)] else heads,
        free[index := free[index] - (t - s)],
        SetLink(next[t := n], p, Some(t)),
        SetLink(prev[t := p], n, Some(t)),
        lists[index := With(lists[index], s, t)];
      assert Lists() == Replaced(c, s, t, index, t - s);
    }

    /** GC_split_block: the front of the free block at s, up to t, goes to the list for its
        size; t is left on the list of the whole block. */
    method SplitBlock(s: nat, t: nat, index: nat)
      requires LinksOk(hdrs, Lists()) && Placed(hdrs, lists)
      requires index <= N_HBLK_FLS && s in lists[index] && IsFree(hdrs, s) && s < t < End(hdrs, s) && t !in hdrs
      modifies `hdrs, `heads, `next, `prev, `free, `lists
      ensures LinksOk(hdrs, Lists()) && Total(free) == Total(old(free))
      ensures hdrs == Split(old(hdrs), s, t)
      ensures PlacedBut(hdrs, lists, t) && t in lists[index]
    {
      ReplaceOnList(s, t, index);
      ghost var l1 := lists;
      BinsOrdered(t - s, 0);
      AddToFl(s, t - s);
      assert hdrs == Split(old(hdrs), s, t);
      SplitPlaced(old(hdrs), hdrs, old(lists), l1, lists, s, t, index);
    }

    /** GC_get_first_part: the block at b leaves its list, and what is beyond its first n
        blocks goes to the list for its size. */
    method GetFirstPart(b: nat, n: nat, index: nat)
      requires LinksOk(hdrs, Lists()) && PlacedBut(hdrs, lists, b)
      requires index <= N_HBLK_FLS && b in lists[index] && IsFree(hdrs, b) && 0 < n <= SizeAt(hdrs, b)
      requires n < SizeAt(hdrs, b) ==> b + n !in hdrs
      modifies `hdrs, `heads, `next, `prev, `free, `lists
      ensures LinksOk(hdrs, Lists()) && Total(free) + n == Total(old(free))
      ensures hdrs == if n == SizeAt(old(hdrs), b) then old(hdrs) else old(hdrs)[b + n := Free(SizeAt(old(hdrs), b) - n)]
      ensures PlacedBut(hdrs, lists, b) && OnNone(lists, b)
    {
      var total := SizeAt(hdrs, b);
      RemoveFromFlAt(b, index);
      if total == n {
        return;
      }
      ghost var l1 := lists;
      NotFreeOnNone(hdrs, Lists(), b + n);
      AddToFl(b + n, total - n);
      AddPlaced(old(hdrs), hdrs, l1, lists, b, b + n);
    }

    /** GC_install_counts. */
    method InstallCounts(h: nat, n: nat)
      modifies `hdrs
      ensures hdrs == Counts(old(hdrs), h, n)
    {
      ghost var m := hdrs;
      var i := 1;
      while i < n
        invariant 1 <= i && (i <= n || i == 1)
        invariant hdrs == Counts(m, h, i)
      {
        CountsStep(m, h, i);
        hdrs := hdrs[h + i := Fwd(if i > MAX_JUMP then MAX_JUMP else i)];
        i := i + 1;
      }
    }

    /** The n blocks from b, inside the free block at s, leave the free lists. */
    method CutOut(s: nat, b: nat, n: nat, index: nat)
      requires Tiled(hdrs, heap) && LinksOk(hdrs, Lists()) && Placed(hdrs, lists)
      requires index <= N_HBLK_FLS && s in lists[index] && Fits(hdrs, s, b, n)
      modifies `hdrs, `heads, `next, `prev, `free, `lists
      ensures BeforeSetup(old(hdrs), hdrs, s, b, n)
      ensures LinksOk(hdrs, Lists()) && Total(free) + n == Total(old(free))
      ensures PlacedBut(hdrs, lists, b) && OnNone(lists, b)
    {
      IsAlone(hdrs, heap, s);
      CutSizes(hdrs, s, b, b + n);
      if b != s {
        SplitBlock(s, b, index);
      }
      assert hdrs == CutBefore(old(hdrs), s, b);
      GetFirstPart(b, n, index);
    }

    /** The end of GC_allochblk_nth: the n blocks from b, inside the free block at s, become a
        block in use. */
    method TakeFrom(s: nat, b: nat, lb: nat, index: nat)
      requires Consistent() && index <= N_HBLK_FLS && s in lists[index]
      requires Fits(hdrs, s, b, Blocks(lb))
      modifies `hdrs, `heads, `next, `prev, `free, `largeFree, `lists
      ensures Consistent()
      ensures hdrs == Carved(old(hdrs), s, b, lb)
      ensures largeFree + Blocks(lb) == old(largeFree)
    {
      CutOut(s, b, Blocks(lb), index);
      ghost var g := hdrs;
      hdrs := hdrs[b := Used(lb)];
      InstallCounts(b, Blocks(lb));
      largeFree := largeFree - Blocks(lb);
      FinishCarving(old(hdrs), g, hdrs, heap, Lists(), s, b, lb);
    }

    /** The loop of drop_hblk_in_chunks. */
    method SmallBlocks(s: nat, total: nat)
      modifies `hdrs
      ensures hdrs == Dropped(old(hdrs), s, total)
    {
      var i := 0;
      while i < total
        invariant i <= total
        invariant hdrs == Dropped(old(hdrs), s, i)
      {
        hdrs := hdrs[s + i := Used(HBLKSIZE)];
        i := i + 1;
      }
    }

    /** drop_hblk_in_chunks. */
    method DropInChunks(s: nat, index: nat)
      requires Consistent() && index <= N_HBLK_FLS && s in lists[index]
      modifies `hdrs, `heads, `next, `prev, `free, `largeFree, `lists
      ensures Consistent()
      ensures hdrs == Dropped(old(hdrs), s, SizeAt(old(hdrs), s))
      ensures lists == old(lists)[index := Without(old(lists)[index], s)]
      ensures LosesFree(old(hdrs), hdrs, s)
    {
      var total := SizeAt(hdrs, s);
      RemoveFromFlAt(s, index);
      largeFree := largeFree - total;
      SmallBlocks(s, total);
      FinishDropping(old(hdrs), hdrs, heap, Lists(), old(lists), s);
    }

    /** next_hblk_fits_better, for the free block of z blocks at s. */
    method NextFitsBetter(s: nat, z: nat, q: Request, bl: BL.Lists) returns (r: bool)
      requires q.Legal()
      ensures r <==> At(next, s).Some? && BetterThan(hdrs, At(next, s).value, z, q, bl)
    {
      var t := At(next, s);
      if t.None? {
        return false;
      }
      var nextSize := SizeAt(hdrs, t.value);
      if z <= nextSize {
        return false;
      }
      var ofs := BL.AlignPad(t.value, q.Align());
      if nextSize < q.N() + ofs {
        return false;
      }
      var black := BL.IsBlackListed(bl, t.value + ofs, q.N());
      return black.None?;
    }

    /** The search prefers the block after the one at s. */
    ghost predicate Prefers(s: nat, q: Request, bl: BL.Lists)
      requires q.Legal()
      reads this
    {
      SizeAt(hdrs, s) != q.N() && At(next, s).Some? && BetterThan(hdrs, At(next, s).value, SizeAt(hdrs, s), q, bl)
    }

    /** The block at s would do but for the black lists; of such blocks each fourth is dropped. */
    ghost predicate MayDrop(s: nat, q: Request, bl: BL.Lists, maySplit: bool, findLeak: bool)
      requires q.Legal()
      reads this
    {
      && q.Droppable() && !findLeak
      && q.SizeFits(s, SizeAt(hdrs, s), maySplit) && !Prefers(s, q, bl)
      && q.AllBlack(bl, s, SizeAt(hdrs, s))
    }

    /** The body of the search loop of GC_allochblk_nth: what to do with the free block at s. */
    method Decide(s: nat, q: Request, bl: BL.Lists, maySplit: bool, findLeak: bool, limit: nat) returns (d: Decision)
      requires q.Legal()
      modifies `dropCount
      ensures d.Place? ==> Position(q, bl, limit, s, SizeAt(hdrs, s), maySplit, d.at)
      ensures d.Place? ==> !Prefers(s, q, bl)
      ensures d.Drop? ==> MayDrop(s, q, bl, maySplit, findLeak) && dropCount % 4 == 0
      ensures MayDrop(s, q, bl, maySplit, findLeak) && !d.Drop? ==> dropCount % 4 != 0
      ensures dropCount == old(dropCount) + if MayDrop(s, q, bl, maySplit, findLeak) then 1 else 0
      ensures d.Skip? && q.SizeFits(s, SizeAt(hdrs, s), maySplit) && !Prefers(s, q, bl) ==>
                q.AllBlack(bl, s, SizeAt(hdrs, s)) && !q.Punts(limit, SizeAt(hdrs, s))
      ensures d.Skip? ==> !q.Placeable(bl, s, SizeAt(hdrs, s), maySplit)
                          || (At(next, s).Some?
                              && q.Placeable(bl, At(next, s).value, SizeAt(hdrs, At(next, s).value), maySplit))
    {
      var z := SizeAt(hdrs, s);
      if !maySplit && z != q.N() {
        return Skip;
      }
      var ofs := BL.AlignPad(s, q.Align());
      if z < q.N() + ofs {
        return Skip;
      }
      if z != q.N() {
        var better := NextFitsBetter(s, z, q, bl);
        if better {
          BetterIsPlaceable(hdrs, At(next, s).value, z, q, bl);
          return Skip;
        }
      }
      if q.Anywhere() {
        return Place(s + ofs);
      }
      var last := BL.FindNonBl(bl, s, z - q.N(), q.Eff(), q.Align());
      if last.Some? {
        assert q.CleanAt(bl, s, z, last.value);
        return Place(last.value);
      }
      if q.Droppable() && !findLeak {
        dropCount := dropCount + 1;
        if dropCount % 4 == 0 {
          return Drop;
        }
      }
      if q.Punts(limit, z) {
        return Place(s + ofs);
      }
      return Skip;
    }

    lemma SkipsIs(index: nat, k: nat, q: Request, bl: BL.Lists, limit: nat, maySplit: bool)
      requires q.Legal() && index < |lists| && k < |lists[index]|
      requires Cursor(lists[index], k + 1, At(next, lists[index][k]))
      ensures
        var s := lists[index][k];
        var z := SizeAt(hdrs, s);
        Skips(hdrs, lists[index], k, q, bl, limit, maySplit) <==>
          !q.SizeFits(s, z, maySplit) || Prefers(s, q, bl) || (q.AllBlack(bl, s, z) && !q.Punts(limit, z))
    {
    }

    /** The block at s, at position k of its list, is dropped; the search goes on with the block
        after it: from the head of the list when s was first, through its predecessor when not. */
    method DropAndGoOn(s: nat, index: nat, ghost k: nat, ghost m0: Hdrs, ghost l0: seq<nat>, q: Request, bl: BL.Lists,
                       ghost limit: nat, maySplit: bool)
      returns (hbp: Option<nat>)
      requires Consistent() && q.Legal() && q.Droppable() && index <= N_HBLK_FLS
      requires k < |lists[index]| && lists[index][k] == s && q.AllBlack(bl, s, SizeAt(hdrs, s))
      requires DropsOnly(m0, hdrs, q, bl) && Searched(hdrs, l0, lists[index], k, q, bl, limit, maySplit)
      modifies `hdrs, `heads, `next, `prev, `free, `largeFree, `lists
      ensures Consistent()
      ensures |lists[index]| < |old(lists)[index]| && Cursor(lists[index], k, hbp)
      ensures DropsOnly(m0, hdrs, q, bl) && Searched(hdrs, l0, lists[index], k, q, bl, limit, maySplit)
    {
      assert ListAt(hdrs, Lists(), index);
      Neighbours(heads[index], next, prev, lists[index], k);
      IsAlone(hdrs, heap, s);
      var p := At(prev, s);
      DropInChunks(s, index);
      DropsOneMore(m0, old(hdrs), hdrs, s, q, bl);
      DropStep(old(hdrs), hdrs, l0, old(lists)[index], lists[index], k, q, bl, limit, maySplit);
      assert ListAt(hdrs, Lists(), index);
      if p.None? {
        hbp := heads[index];
      } else {
        Neighbours(heads[index], next, prev, lists[index], k - 1);
        hbp := At(next, p.value);
      }
    }

    /** The search of a list, which held l0 in the heap m0, has come to position k. */
    ghost predicate Searching(m0: Hdrs, l0: seq<nat>, index: nat, k: nat, hbp: Option<nat>, q: Request, bl: BL.Lists,
                              limit: nat, maySplit: bool)
      requires q.Legal()
      reads this
    {
      && Consistent() && index <= N_HBLK_FLS
      && DropsOnly(m0, hdrs, q, bl)
      && Cursor(lists[index], k, hbp)
      && Searched(hdrs, l0, lists[index], k, q, bl, limit, maySplit)
    }

    /** The body of the search loop: the position in the block at s, or the block to go on with. */
    method Consider(s: nat, index: nat, ghost k: nat, ghost m0: Hdrs, ghost l0: seq<nat>, q: Request, bl: BL.Lists,
                    maySplit: bool, findLeak: bool, limit: nat)
      returns (r: Option<nat>, hbp: Option<nat>, ghost k': nat)
      requires q.Legal() && Searching(m0, l0, index, k, Some(s), q, bl, limit, maySplit)
      modifies `hdrs, `heads, `next, `prev, `free, `largeFree, `lists, `dropCount
      ensures Searching(m0, l0, index, k', hbp, q, bl, limit, maySplit)
      ensures r.Some? ==> s in lists[index] && Position(q, bl, limit, s, SizeAt(hdrs, s), maySplit, r.value)
                          && FirstOnList(hdrs, Remaining(l0, hdrs), s, q, bl, limit, maySplit)
      ensures r.None? ==> |lists[index]| < |old(lists)[index]| || (lists == old(lists) && k' == k + 1)
    {
      CursorStep(hdrs, Lists(), index, k);
      SkipsIs(index, k, q, bl, limit, maySplit);
      r, hbp, k' := None, Some(s), k;
      var d := Decide(s, q, bl, maySplit, findLeak, limit);
      match d {
        case Place(b) =>
          FirstFound(hdrs, l0, lists[index], k, q, bl, limit, maySplit);
          r := Some(b);
        case Drop =>
          hbp := DropAndGoOn(s, index, k, m0, l0, q, bl, limit, maySplit);
        case Skip =>
          hbp, k' := At(next, s), k + 1;
      }
    }

    /** The search loop of GC_allochblk_nth: the block to allocate from, and the position in it. */
    method FindBlock(q: Request, bl: BL.Lists, index: nat, maySplit: bool, findLeak: bool, limit: nat)
      returns (r: Option<(nat, nat)>)
      requires Consistent() && q.Legal() && index <= N_HBLK_FLS
      modifies `hdrs, `heads, `next, `prev, `free, `largeFree, `lists, `dropCount
      ensures Consistent() && DropsOnly(old(hdrs), hdrs, q, bl)
      ensures r.None? ==> Exhausted(old(hdrs), q, bl, index, maySplit)
      ensures r.Some? ==> r.value.0 in lists[index]
                          && Position(q, bl, limit, r.value.0, SizeAt(hdrs, r.value.0), maySplit, r.value.1)
                          && FirstOnList(hdrs, Remaining(old(lists)[index], hdrs), r.value.0, q, bl, limit, maySplit)
    {
      ghost var m0, l0 := hdrs, lists[index];
      assert ListAt(hdrs, Lists(), index);
      RemainingAll(l0, hdrs);
      var hbp := heads[index];
      ghost var k := 0;
      CursorStart(hdrs, Lists(), index);
      while hbp.Some?
        invariant Searching(m0, l0, index, k, hbp, q, bl, limit, maySplit)
        decreases |lists[index]|, |lists[index]| - k
      {
        var s, b := hbp.value, None;
        b, hbp, k := Consider(s, index, k, m0, l0, q, bl, maySplit, findLeak, limit);
        if b.Some? {
          return Some((s, b.value));
        }
      }
      NothingLeft(m0, hdrs, lists, index, q, bl, limit, maySplit);
      r := None;
    }

    /** GC_allochblk_nth. */
    method AllocNth(q: Request, bl: BL.Lists, index: nat, maySplit: bool, findLeak: bool, limit: nat)
      returns (r: Option<nat>, ghost src: nat, ghost mid: Hdrs)
      requires Consistent() && q.Legal() && index <= N_HBLK_FLS
      modifies `hdrs, `heads, `next, `prev, `free, `largeFree, `lists, `dropCount
      ensures Consistent()
      ensures r.None? ==> DropsOnly(old(hdrs), hdrs, q, bl) && Exhausted(old(hdrs), q, bl, index, maySplit)
      ensures r.Some? ==> DropsOnly(old(hdrs), mid, q, bl)
                          && Allocated(mid, hdrs, q, bl, limit, index, maySplit, src, r.value)
      ensures r.Some? ==> FirstOnList(mid, Remaining(old(lists)[index], mid), src, q, bl, limit, maySplit)
    {
      src := 0;
      var found := FindBlock(q, bl, index, maySplit, findLeak, limit);
      mid := hdrs;
      if found.None? {
        return None, src, mid;
      }
      var (s, b) := found.value;
      src := s;
      TakeFrom(s, b, q.lb, index);
      r := Some(b);
    }

    /** GC_enough_large_bytes_left. */
    method EnoughLargeLeft(env: Env) returns (n: nat)
      requires |free| == N_HBLK_FLS + 1
      ensures LastEnough(free, env, n)
    {
      var bytes := env.largeAllocd;
      n := N_HBLK_FLS;
      assert free[N_HBLK_FLS + 1..] == [];
      while n > 0
        invariant n <= N_HBLK_FLS
        invariant bytes == env.largeAllocd + Total(free[n + 1..]) * HBLKSIZE
        invariant forall k :: n < k <= N_HBLK_FLS ==> !EnoughFrom(free, env, k)
      {
        assert free[n..] == [free[n]] + free[n + 1..];
        bytes := bytes + free[n] * HBLKSIZE;
        if bytes >= env.maxLargeAllocd {
          break;
        }
        n := n - 1;
      }
    }

    /** The highest list whose blocks GC_allochblk may split. */
    method SplitLimit(env: Env) returns (n: nat)
      requires |free| == N_HBLK_FLS + 1
      ensures n <= N_HBLK_FLS
      ensures SplitsTo(env, free, largeFree, heapSize, n)
    {
      if env.useEntireHeap || env.dontGc || (heapSize - largeFree) * HBLKSIZE < env.requestedHeapSize
        || env.incremental || !env.shouldCollect
      {
        n := N_HBLK_FLS;
      } else if env.finalizerBytesFreed > heapSize * HBLKSIZE / 16 {
        n := 0;
      } else {
        n := EnoughLargeLeft(env);
      }
    }

    /** GC_allochblk. */
    method Alloc(q: Request, bl: BL.Lists, env: Env)
      returns (r: Option<nat>, ghost bound: nat, ghost at: Moment, ghost src: nat, ghost mid: Hdrs)
      requires Consistent() && q.Legal()
      modifies `hdrs, `heads, `next, `prev, `free, `largeFree, `lists, `dropCount
      ensures Consistent()
      ensures q.TooLarge() ==> r.None? && hdrs == old(hdrs)
      ensures r.None? && !q.TooLarge() ==>
                at.Reached(old(hdrs), q, bl) && SplitsTo(env, at.links.free, at.largeFree, heapSize, bound)
      ensures r.Some? && SizeAt(mid, src) != q.N() ==>
                at.Reached(old(hdrs), q, bl) && SplitsTo(env, at.links.free, at.largeFree, heapSize, bound)
                && FlIndex(SizeAt(mid, src)) <= bound
      ensures r.Some? ==> DropsOnly(old(hdrs), mid, q, bl)
                          && Allocated(mid, hdrs, q, bl, env.blLimit, FlIndex(SizeAt(mid, src)), true, src, r.value)
      ensures r.Some? && SizeAt(mid, src) != q.N() ==>
                Exhausted(old(hdrs), q, bl, FlIndex(q.N()), false) && NoneBelow(old(hdrs), q, bl, FlIndex(SizeAt(mid, src)))
      ensures r.None? && !q.TooLarge() ==>
                DropsOnly(old(hdrs), hdrs, q, bl) && NoneUpTo(old(hdrs), q, bl, bound)
                && Exhausted(old(hdrs), q, bl, FlIndex(q.N()), false)
    {
      bound, at, src, mid := 0, Moment(hdrs, Lists(), largeFree), 0, hdrs;
      var blocks := Blocks(q.lb);
      if blocks * HBLKSIZE + q.alignM1 >= SIZE_MAX / 2 {
        return None, bound, at, src, mid; // overflow
      }
      var startList := FlIndex(blocks);
      BinsOrdered(blocks, 0);
      // blocks of just the size wanted
      r, src, mid := AllocNth(q, bl, startList, false, env.findLeak, env.blLimit);
      if r.Some? {
        return r, bound, at, src, mid;
      }
      var splitLimit := SplitLimit(env);
      bound, at := splitLimit, Moment(hdrs, Lists(), largeFree);
      if startList < UNIQUE_THRESHOLD && q.alignM1 == 0 {
        ExactListDone(old(hdrs), q, bl);
        startList := startList + 1;
      } else {
        SmallerDone(old(hdrs), q, bl);
      }
      while startList <= splitLimit
        invariant Consistent() && DropsOnly(old(hdrs), hdrs, q, bl)
        invariant NoneBelow(old(hdrs), q, bl, startList)
      {
        ghost var m := hdrs;
        r, src, mid := AllocNth(q, bl, startList, true, env.findLeak, env.blLimit);
        if r.Some? {
          DropsTransitive(old(hdrs), m, mid, q, bl);
          return r, bound, at, src, mid;
        }
        DropsTransitive(old(hdrs), m, hdrs, q, bl);
        ExhaustedBefore(old(hdrs), m, q, bl, startList);
        startList := startList + 1;
      }
      r := None;
    }

    /** GC_remove_counts. */
    method RemoveCounts(h: nat, n: nat)
      requires h + 1 !in hdrs ==> forall a: nat :: h < a < h + n ==> a !in hdrs
      modifies `hdrs
      ensures hdrs == Cleared(old(hdrs), h, n)
    {
      if n <= 1 {
        return;
      }
      if h + 1 !in hdrs {
        assert hdrs == Cleared(hdrs, h, n);
        return;
      }
      var i := 1;
      while i < n
        invariant 1 <= i <= n
        invariant hdrs == Cleared(old(hdrs), h, i)
      {
        hdrs := hdrs - {h + i};
        i := i + 1;
      }
    }

    /** The free block at b, which is on no list, takes in the free block after it. */
    method CoalesceRight(b: nat)
      requires LinksOk(hdrs, Lists()) && PlacedBut(hdrs, lists, b) && OnNone(lists, b) && IsFree(hdrs, b)
      requires SizeAt(hdrs, b) > 0
      modifies `hdrs, `heads, `next, `prev, `free, `lists
      ensures LinksOk(hdrs, Lists()) && PlacedBut(hdrs, lists, b) && OnNone(lists, b) && IsFree(hdrs, b)
      ensures Total(free) + SizeAt(hdrs, b) == Total(old(free)) + SizeAt(old(hdrs), b)
      ensures hdrs == WithRight(old(hdrs), b)
    {
      var t := End(hdrs, b);
      if t in hdrs && hdrs[t].Free? && !MergeOverflow(SizeAt(hdrs, b), SizeAt(hdrs, t)) {
        ghost var m, l := hdrs, lists;
        BinsOrdered(SizeAt(hdrs, t), 0);
        RemoveFromFlAt(t, FlIndex(SizeAt(hdrs, t)));
        hdrs := hdrs[b := Free(SizeAt(hdrs, b) + SizeAt(hdrs, t))] - {t};
        MergeLists(m, hdrs, l, Lists(), b, t, b, t);
      }
    }

    /** The free block at b, which is on no list, is taken in by the free block p before it. */
    method CoalesceLeft(p: nat, b: nat) returns (r: nat)
      requires LinksOk(hdrs, Lists()) && PlacedBut(hdrs, lists, b) && OnNone(lists, b)
      requires Adjacent(hdrs, p, b) && p < b
      modifies `hdrs, `heads, `next, `prev, `free, `lists
      ensures LinksOk(hdrs, Lists()) && PlacedBut(hdrs, lists, r) && OnNone(lists, r) && IsFree(hdrs, r)
      ensures Total(free) + SizeAt(hdrs, r) == Total(old(free)) + SizeAt(old(hdrs), b)
      ensures hdrs == WithLeft(old(hdrs), p, b)
    {
      r := b;
      if !MergeOverflow(SizeAt(hdrs, p), SizeAt(hdrs, b)) {
        ghost var m, l := hdrs, lists;
        BinsOrdered(SizeAt(hdrs, p), 0);
        RemoveFromFlAt(p, FlIndex(SizeAt(hdrs, p)));
        hdrs := hdrs[p := Free(SizeAt(hdrs, p) + SizeAt(hdrs, b))] - {b};
        MergeLists(m, hdrs, l, Lists(), p, b, b, p);
        r := p;
      }
    }

    /** The block at b, free but on no list, joined with its free neighbours. */
    method Coalesce(b: nat) returns (cur: nat, ghost p: Option<nat>)
      requires Tiled(hdrs, heap) && b > 0
      requires LinksOk(hdrs, Lists()) && PlacedBut(hdrs, lists, b) && OnNone(lists, b) && IsFree(hdrs, b)
      modifies `hdrs, `heads, `next, `prev, `free, `lists
      ensures LinksOk(hdrs, Lists()) && PlacedBut(hdrs, lists, cur) && OnNone(lists, cur) && IsFree(hdrs, cur)
      ensures Total(free) + SizeAt(hdrs, cur) == Total(old(free)) + SizeAt(old(hdrs), b)
      ensures EndsBefore(old(hdrs), b, p) && hdrs == JoinedAround(old(hdrs), p, b)
    {
      var before := FreeBlockEndingAt(b);
      p, cur := before, b;
      NeighbourStays(hdrs, heap, b, before);
      CoalesceRight(b);
      if before.Some? {
        cur := CoalesceLeft(before.value, b);
      }
    }

    /** The block at b, whose header and counts have just been cleared from m, is joined with
        its neighbours and put on its list. */
    method GiveBack(b: nat, ghost m: Hdrs)
      requires TiledBut(m, heap, Some(b)) && IsUsed(m, b) && hdrs == Released(m, b)
      requires LinksOk(m, Lists()) && Placed(m, lists) && largeFree == Total(free)
      requires |heap| < SIGN_BLOCKS ==> Coalesced(m)
      requires forall a :: a in heap ==> a >= 2
      modifies `hdrs, `heads, `next, `prev, `free, `largeFree, `lists
      ensures Consistent() && Freed(m, hdrs, b) && largeFree == old(largeFree) + SizeAt(m, b)
    {
      ReleaseTiles(m, heap, b);
      ReleaseLists(m, hdrs, Lists(), b);
      CoveredInHeap(m, heap, b, b);
      var size := SizeAt(hdrs, b);
      var cur, p := Coalesce(b);
      ghost var m2, l2 := hdrs, lists;
      FinishFreeing(m, m2, heap, b, p);
      largeFree := largeFree + size;
      AddToFl(cur, SizeAt(hdrs, cur));
      assert hdrs == m2;
      PlaceLast(hdrs, l2, lists, cur);
    }

    /** GC_freehblk, for a block whose counts may not have been installed; `aborted` stands for
        the calls of ABORT. */
    method FreeHblk(b: nat) returns (aborted: bool)
      requires TiledBut(hdrs, heap, Some(b)) && Linked() && Placed(hdrs, lists)
      requires |heap| < SIGN_BLOCKS ==> Coalesced(hdrs)
      requires forall a :: a in heap ==> a >= 2
      requires IsStart(hdrs, b) && (NilInside(hdrs, b) || CountsInside(hdrs, b))
      requires IsFree(hdrs, b) ==> NilInside(hdrs, b)
      modifies `hdrs, `heads, `next, `prev, `free, `largeFree, `lists
      ensures aborted <==> IsFree(old(hdrs), b) || SizeAt(old(hdrs), b) / SIGN_BLOCKS % 2 == 1
      ensures !aborted ==> Consistent() && Freed(old(hdrs), hdrs, b)
      ensures !aborted ==> largeFree == old(largeFree) + SizeAt(old(hdrs), b)
    {
      var size := SizeAt(hdrs, b);
      if size / SIGN_BLOCKS % 2 == 1 {
        return true;
      }
      ghost var m := hdrs;
      RemoveCounts(b, size);
      if hdrs[b].Free? {
        return true; // duplicate deallocation
      }
      hdrs := hdrs[b := Free(size)];
      GiveBack(b, m);
      aborted := false;
    }

    /** The header of a new section is set up as a block in use, which is then freed. */
    method AddSection(start: nat, size: nat) returns (aborted: bool)
      requires Consistent() && size > 0 && start >= 2 && heap !! Range(start, size)
      modifies `hdrs, `heads, `next, `prev, `free, `largeFree, `lists, `heap
      ensures aborted <==> size / SIGN_BLOCKS % 2 == 1
      ensures !aborted ==> Consistent() && heap == old(heap) + Range(start, size)
      ensures !aborted ==> SameUsed(old(hdrs), hdrs) && largeFree == old(largeFree) + size
    {
      BlocksIsLeast(0, size);
      SectionTiles(hdrs, heap, start, size * HBLKSIZE);
      SectionLists(hdrs, heap, Lists(), start, size * HBLKSIZE);
      SubsetCard(heap, heap + Range(start, size));
      heap := heap + Range(start, size);
      hdrs := hdrs[start := Used(size * HBLKSIZE)];
      aborted := FreeHblk(start);
      if !aborted {
        SectionUsed(old(hdrs), hdrs, start, size * HBLKSIZE);
      }
    }

    /** GC_add_to_heap: n new blocks from h, without those too near address zero or the end
        of the address space. */
    method AddToHeap(h: nat, n: nat) returns (aborted: bool)
      requires Valid() && n > 0 && heap !! Range(h, n)
      modifies this
      ensures aborted <==> Usable(h, n) / SIGN_BLOCKS % 2 == 1
      ensures !aborted ==> Valid() && heap == old(heap) + Range(FirstUsable(h), Usable(h, n))
      ensures !aborted ==> SameUsed(old(hdrs), hdrs)
      ensures !aborted ==> heapSize == old(heapSize) + Usable(h, n) && largeFree == old(largeFree) + Usable(h, n)
    {
      var start, size := Trim(h, n);
      if size == 0 {
        assert heap + Range(FirstUsable(h), 0) == heap;
        return false;
      }
      SectionCard(heap, h, n, start, size);
      aborted := AddSection(start, size);
      assert Range(start, size) == Range(FirstUsable(h), Usable(h, n));
      heapSize := heapSize + size;
    }
  }

  ghost predicate EndsBefore(m: Hdrs, b: nat, p: Option<nat>) {
    if p.Some? then p.value < b && Adjacent(m, p.value, b) else forall s: nat :: !Adjacent(m, s, b)
  }

  /** The free block at b joined with the free blocks around it. */
  function JoinedAround(m: Hdrs, p: Option<nat>, b: nat): Hdrs
    requires IsFree(m, b)
  {
    if p.Some? then WithLeft(WithRight(m, b), p.value, b) else WithRight(m, b)
  }

  lemma NeighbourStays(m: Hdrs, heap: set<nat>, b: nat, p: Option<nat>)
    requires Tiled(m, heap) && IsFree(m, b)
    requires p.Some? ==> IsFree(m, p.value) && End(m, p.value) == b
    requires p.None? ==> forall s: nat :: IsFree(m, s) ==> End(m, s) != b
    ensures EndsBefore(m, b, p) && SizeAt(m, b) > 0
    ensures p.Some? ==> p.value < b && Adjacent(WithRight(m, b), p.value, b)
  {
    if p.Some? {
      assert SizeAt(m, p.value) > 0;
    }
  }

  lemma SubsetCard(a: set<nat>, b: set<nat>)
    requires a <= b
    ensures |a| <= |b|
  {
    assert |b - a| + |a| == |b| by {
      assert (b - a) + a == b && (b - a) !! a;
    }
  }

  /** Two blocks are no larger than the heap. */
  lemma PairFits(m: Hdrs, heap: set<nat>, s: nat, t: nat)
    requires Tiled(m, heap) && IsStart(m, s) && IsStart(m, t) && s != t
    ensures SizeAt(m, s) + SizeAt(m, t) <= |heap|
  {
    var l := [s, t];
    SumIsCard(m, l);
    assert l[1..] == [t] && [t][1..] == [];
    forall a: nat | a in CellsOf(m, l) ensures a in heap {
      InCells(m, l, a);
      CoveredInHeap(m, heap, s, a);
      CoveredInHeap(m, heap, t, a);
    }
    SubsetCard(CellsOf(m, l), heap);
  }

  lemma JoinRight(m: Hdrs, heap: set<nat>, b: nat, c: Hdrs)
    requires Tiled(m, heap) && IsFree(m, b) && c == WithRight(m, b)
    ensures Tiled(c, heap) && IsFree(c, b)
    ensures forall x: nat :: (IsUsed(m, x) ==> x in c && c[x] == m[x]) && (IsUsed(c, x) ==> x in m && c[x] == m[x])
    ensures |heap| < SIGN_BLOCKS && CoalescedBut(m, b) ==> CoalescedBut(c, b) && !IsFree(c, End(c, b))
  {
    var t := End(m, b);
    assert SizeAt(m, b) > 0;
    if IsFree(m, t) {
      PairFits(m, heap, b, t);
      if !MergeOverflow(SizeAt(m, b), SizeAt(m, t)) {
        MergeTiles(m, heap, b, t);
        if CoalescedBut(m, b) {
          MergeRightCoalesced(m, heap, b, t);
        }
      }
    }
  }

  lemma JoinLeft(m: Hdrs, heap: set<nat>, p: nat, b: nat, c: Hdrs)
    requires Tiled(m, heap) && Adjacent(m, p, b) && c == WithLeft(m, p, b)
    ensures Tiled(c, heap)
    ensures forall x: nat :: (IsUsed(m, x) ==> x in c && c[x] == m[x]) && (IsUsed(c, x) ==> x in m && c[x] == m[x])
    ensures |heap| < SIGN_BLOCKS && CoalescedBut(m, b) && !IsFree(m, End(m, b)) ==> Coalesced(c)
  {
    assert SizeAt(m, p) > 0;
    PairFits(m, heap, p, b);
    if !MergeOverflow(SizeAt(m, p), SizeAt(m, b)) {
      MergeTiles(m, heap, p, b);
      if CoalescedBut(m, b) && !IsFree(m, End(m, b)) {
        MergeLeftCoalesced(m, heap, p, b);
      }
    }
  }

  lemma JoinBoth(m: Hdrs, heap: set<nat>, b: nat, p: Option<nat>, c: Hdrs)
    requires Tiled(m, heap) && IsFree(m, b) && EndsBefore(m, b, p) && c == JoinedAround(m, p, b)
    ensures Tiled(c, heap)
    ensures forall x: nat :: (IsUsed(m, x) ==> x in c && c[x] == m[x]) && (IsUsed(c, x) ==> x in m && c[x] == m[x])
    ensures |heap| < SIGN_BLOCKS && CoalescedBut(m, b) ==> Coalesced(c)
  {
    var r := WithRight(m, b);
    JoinRight(m, heap, b, r);
    if p.Some? {
      JoinLeft(r, heap, p.value, b, c);
    } else if |heap| < SIGN_BLOCKS && CoalescedBut(m, b) {
      forall x: nat, y: nat ensures !Adjacent(c, x, y) {
        assert Adjacent(c, x, y) ==> y == b && Adjacent(m, x, b);
      }
    }
  }

  lemma FinishFreeing(m: Hdrs, c: Hdrs, heap: set<nat>, b: nat, p: Option<nat>)
    requires TiledBut(m, heap, Some(b)) && IsUsed(m, b) && (|heap| < SIGN_BLOCKS ==> Coalesced(m))
    requires Tiled(Released(m, b), heap) && Freed(m, Released(m, b), b)
    requires EndsBefore(Released(m, b), b, p) && c == JoinedAround(Released(m, b), p, b)
    ensures Tiled(c, heap) && Freed(m, c, b)
    ensures |heap| < SIGN_BLOCKS ==> Coalesced(c)
  {
    if |heap| < SIGN_BLOCKS {
      ReleaseCoalesced(m, heap, b);
    }
    JoinBoth(Released(m, b), heap, b, p, c);
  }

  /** The loops of GC_add_to_heap that give up unusable blocks. */
  method Trim(h: nat, n: nat) returns (start: nat, size: nat)
    requires n > 0
    ensures size == Usable(h, n)
    ensures size > 0 ==> start == FirstUsable(h) && start + size <= h + n
  {
    start, size := h, n;
    while start <= 1
      invariant h <= start && start + size == h + n && size > 0 && (start > h ==> start <= 2)
    {
      // the first two block numbers are not used
      start, size := start + 1, size - 1;
      if size == 0 {
        return;
      }
    }
    while start * HBLKSIZE >= WORD_MAX - size * HBLKSIZE
      invariant 0 < size && start + size <= h + n
      invariant start + size == h + n || start + size >= LAST_BLOCK
      decreases size
    {
      // nor is the last one
      size := size - 1;
      if size == 0 {
        return;
      }
    }
  }

  const WORD_MAX: int := 0xFFFF_FFFF_FFFF_FFFF

  /** The last block of the address space, which is never used. */
  const LAST_BLOCK: nat := 0xF_FFFF_FFFF_FFFF

  function FirstUsable(h: nat): nat {
    if h < 2 then 2 else h
  }

  function Usable(h: nat, n: nat): nat {
    var end := if h + n > LAST_BLOCK then LAST_BLOCK else h + n;
    if end > FirstUsable(h) then end - FirstUsable(h) else 0
  }

  lemma {:induction false} SectionLists(m: Hdrs, heap: set<nat>, links: Links, s: nat, lb: nat)
    requires Tiled(m, heap) && Blocks(lb) > 0 && heap !! Range(s, Blocks(lb))
    requires LinksOk(m, links) && Placed(m, links.lists)
    ensures s !in m
    ensures LinksOk(m[s := Used(lb)], links) && Placed(m[s := Used(lb)], links.lists)
    ensures Coalesced(m) ==> Coalesced(m[s := Used(lb)])
  {
    var m' := m[s := Used(lb)];
    SectionFresh(m, heap, s, Blocks(lb));
    HeadersFrame(m, m', links);
    if Coalesced(m) {
      forall x: nat, y: nat ensures !Adjacent(m', x, y) {
        assert Adjacent(m', x, y) ==> Adjacent(m, x, y);
      }
    }
    forall x: nat | IsFree(m', x)
      ensures FlIndex(SizeAt(m', x)) <= N_HBLK_FLS && x in links.lists[FlIndex(SizeAt(m', x))]
    {
      BinsOrdered(SizeAt(m', x), 0);
      assert IsFree(m, x);
    }
    forall i, x: nat | 0 <= i <= N_HBLK_FLS && x in links.lists[i] ensures IsFree(m', x) && FlIndex(SizeAt(m', x)) == i {
      assert IsFree(m, x) && x != s && m'[x] == m[x];
    }
  }

  lemma SectionCard(heap: set<nat>, h: nat, n: nat, start: nat, size: nat)
    requires heap !! Range(h, n) && h <= start && start + size <= h + n
    ensures heap !! Range(start, size)
    ensures |heap + Range(start, size)| == |heap| + size
  {
    assert Range(start, size) <= Range(h, n);
  }

  lemma SectionUsed(m: Hdrs, c: Hdrs, s: nat, lb: nat)
    requires s !in m && Freed(m[s := Used(lb)], c, s)
    ensures SameUsed(m, c)
  {
    forall x: nat | IsUsed(m, x) ensures x in c && c[x] == m[x] {
      assert IsUsed(m[s := Used(lb)], x);
    }
  }

  // ---- What the operations add up to.

  /** When every list may be split and nothing is black-listed, a failed search means that no
      free block is as large as the request and the padding its alignment calls for. */
  lemma NullMeansNoFit(m: Hdrs, q: Request, bl: BL.Lists)
    requires q.Legal() && NoneUpTo(m, q, bl, N_HBLK_FLS)
    requires q.Anywhere() || forall h: nat, n: nat :: !bl.Black(h, n)
    ensures forall x: nat :: IsFree(m, x) ==> SizeAt(m, x) < q.N() + BL.AlignPad(x, q.Align())
  {
    forall x: nat | IsFree(m, x) ensures SizeAt(m, x) < q.N() + BL.AlignPad(x, q.Align()) {
      BinsOrdered(SizeAt(m, x), 0);
      NothingBlack(q, bl, x, SizeAt(m, x));
    }
  }

  /** The heap blocks that belong to blocks in use. */
  ghost function UsedCells(m: Hdrs, heap: set<nat>): set<nat> {
    heap - FreeCells(m, heap)
  }

  /** No block is lost: the sizes of the blocks in use, however they are enumerated, and the
      free bytes make up the heap. */
  lemma {:induction false} NoBlocksLost(a: Allocator, used: seq<nat>)
    requires a.Valid()
    requires NoDup(used) && forall x: nat :: x in used <==> IsUsed(a.hdrs, x)
    ensures SumSizes(a.hdrs, used) + a.largeFree == a.heapSize
    ensures a.largeFree == |FreeCells(a.hdrs, a.heap)|
  {
    var m, heap := a.hdrs, a.heap;
    CountersExact(m, heap, a.Lists());
    SumIsCard(m, used);
    forall c: nat ensures c in CellsOf(m, used) <==> c in UsedCells(m, heap) {
      InCells(m, used, c);
      UsedOrFree(m, heap, c);
    }
    assert CellsOf(m, used) == UsedCells(m, heap);
    assert heap == UsedCells(m, heap) + FreeCells(m, heap) && UsedCells(m, heap) !! FreeCells(m, heap);
  }

  lemma UsedOrFree(m: Hdrs, heap: set<nat>, c: nat)
    requires Tiled(m, heap)
    ensures c in UsedCells(m, heap) <==> exists x: nat :: IsUsed(m, x) && Covers(m, x, c)
  {
    if c in UsedCells(m, heap) {
      assert Covered(m, c);
      var x: nat :| Covers(m, x, c);
      assert IsUsed(m, x);
    }
    if x: nat :| IsUsed(m, x) && Covers(m, x, c) {
      CoveredInHeap(m, heap, x, c);
      forall y: nat | IsFree(m, y) ensures !Covers(m, y, c) {
        if Covers(m, y, c) {
          OneOwner(m, x, y, c);
        }
      }
    }
  }

  /** Freeing a block just allocated gives back the very same headers. */
  lemma {:induction false} AllocThenFree(m: Hdrs, heap: set<nat>, s: nat, b: nat, lb: nat, c: Hdrs, m': Hdrs)
    requires Tiled(m, heap) && Coalesced(m) && Fits(m, s, b, Blocks(lb)) && c == Carved(m, s, b, lb)
    requires Tiled(m', heap) && Coalesced(m') && Freed(c, m', b)
    ensures m' == m
  {
    IsAlone(m, heap, s);
    CarvedBlocks(m, s, b, lb);
    forall x: nat | IsUsed(m, x) ensures x in m' && m'[x] == m[x] {
      assert IsUsed(c, x) && x != b;
    }
    forall x: nat | IsUsed(m', x) ensures x in m && m[x] == m'[x] {
      assert IsUsed(c, x) && x != b;
    }
    Canonical(m, m', heap);
  }

  /** The order in which two blocks are freed does not matter. */
  lemma FreesCommute(m: Hdrs, heap: set<nat>, a: nat, b: nat, ma: Hdrs, mab: Hdrs, mb: Hdrs, mba: Hdrs)
    requires Freed(m, ma, a) && Freed(ma, mab, b) && Freed(m, mb, b) && Freed(mb, mba, a)
    requires Tiled(mab, heap) && Coalesced(mab) && Tiled(mba, heap) && Coalesced(mba)
    ensures mab == mba
  {
    forall x: nat | IsUsed(mab, x) ensures x in mba && mba[x] == mab[x] {
      assert IsUsed(ma, x) && x != b && IsUsed(m, x) && x != a;
      assert IsUsed(mb, x);
    }
    forall x: nat | IsUsed(mba, x) ensures x in mab && mab[x] == mba[x] {
      assert IsUsed(mb, x) && x != a && IsUsed(m, x) && x != b;
      assert IsUsed(ma, x);
    }
    Canonical(mab, mba, heap);
  }

  /** b taken together with a free block right after it, unless the size would overflow. */
  function WithRight(m: Hdrs, b: nat): Hdrs
    requires IsFree(m, b)
  {
    var t := End(m, b);
    if IsFree(m, t) && !MergeOverflow(SizeAt(m, b), SizeAt(m, t)) then Merged(m, b, t) else m
  }

  function WithLeft(m: Hdrs, p: nat, b: nat): Hdrs {
    if !MergeOverflow(SizeAt(m, p), SizeAt(m, b)) then Merged(m, p, b) else m
  }

  /** The blocks in use in m' are those of m but b. */
  ghost predicate Freed(m: Hdrs, m': Hdrs, b: nat) {
    && (forall x: nat :: IsUsed(m, x) && x != b ==> x in m' && m'[x] == m[x])
    && (forall x: nat :: IsUsed(m', x) ==> x != b && x in m && m[x] == m'[x])
  }

  /** The lists when s and t are joined: one of them, `off`, was on no list and the other,
      `gone`, has just left its own. */
  lemma {:induction false} MergeLists(m: Hdrs, m': Hdrs, l: seq<seq<nat>>, links: Links, s: nat, t: nat, off: nat, gone: nat)
    requires {s, t} == {off, gone} && s != t && IsFree(m, s) && IsFree(m, t)
    requires m' == Merged(m, s, t)
    requires PlacedBut(m, l, off) && OnNone(l, off) && LinksOk(m, links)
    requires forall j, x :: 0 <= j <= N_HBLK_FLS ==> (x in links.lists[j] <==> x in l[j] && x != gone)
    ensures LinksOk(m', links) && PlacedBut(m', links.lists, s) && OnNone(links.lists, s)
  {
    forall i, x | 0 <= i <= N_HBLK_FLS && x in links.lists[i] && x in m ensures x in m' && m'[x] == m[x] {
      assert x != s && x != t;
    }
    HeadersFrame(m, m', links);
    forall x: nat | IsFree(m', x) && x != s
      ensures FlIndex(SizeAt(m', x)) <= N_HBLK_FLS && x in links.lists[FlIndex(SizeAt(m', x))]
    {
      BinsOrdered(SizeAt(m', x), 0);
      assert IsFree(m, x) && x != t;
    }
    forall i, x: nat | 0 <= i <= N_HBLK_FLS && x in links.lists[i] && x != s
      ensures IsFree(m', x) && FlIndex(SizeAt(m', x)) == i
    {
      assert x in l[i] && x != t;
      assert IsFree(m, x) && m'[x] == m[x];
    }
  }

  lemma {:induction false} ReleaseLists(m: Hdrs, m': Hdrs, links: Links, b: nat)
    requires Apart(m) && IsUsed(m, b) && m' == Released(m, b)
    requires LinksOk(m, links) && Placed(m, links.lists)
    ensures LinksOk(m', links) && PlacedBut(m', links.lists, b) && OnNone(links.lists, b)
    ensures Freed(m, m', b)
  {
    NotFreeOnNone(m, links, b);
    var c := Cleared(m, b, SizeAt(m, b));
    assert m' == c[b := Free(SizeAt(m, b))];
    forall x: nat | x != b ensures IsStart(m, x) ==> x in m' && m'[x] == m[x] {
      assert IsStart(m, x) && b < x ==> End(m, b) <= x;
      assert x in c ==> c[x] == m[x];
    }
    forall x: nat | x in m' && x != b ensures x in m && m[x] == m'[x] {
      assert x in c;
    }
    forall i, x | 0 <= i <= N_HBLK_FLS && x in links.lists[i] && x in m ensures x in m' && m'[x] == m[x] {
      assert IsFree(m, x) && IsStart(m, x) && x != b;
    }
    HeadersFrame(m, m', links);
    forall x: nat | IsFree(m', x) && x != b
      ensures FlIndex(SizeAt(m', x)) <= N_HBLK_FLS && x in links.lists[FlIndex(SizeAt(m', x))]
    {
      BinsOrdered(SizeAt(m', x), 0);
      assert IsFree(m, x);
    }
    forall i, x: nat | 0 <= i <= N_HBLK_FLS && x in links.lists[i] && x != b
      ensures IsFree(m', x) && FlIndex(SizeAt(m', x)) == i
    {
      assert IsFree(m, x) && IsStart(m, x) && x != b;
    }
  }

  lemma PlaceLast(m: Hdrs, l: seq<seq<nat>>, l': seq<seq<nat>>, b: nat)
    requires PlacedBut(m, l, b) && IsFree(m, b) && OnNone(l, b) && FlIndex(SizeAt(m, b)) <= N_HBLK_FLS
    requires l' == l[FlIndex(SizeAt(m, b)) := [b] + l[FlIndex(SizeAt(m, b))]]
    ensures Placed(m, l')
  {
    var f := FlIndex(SizeAt(m, b));
    forall x: nat | IsFree(m, x)
      ensures FlIndex(SizeAt(m, x)) <= N_HBLK_FLS && x in l'[FlIndex(SizeAt(m, x))]
    {
      BinsOrdered(SizeAt(m, x), 0);
    }
    forall i, x: nat | 0 <= i <= N_HBLK_FLS && x in l'[i] ensures IsFree(m, x) && FlIndex(SizeAt(m, x)) == i {
      if x in l[i] {
        assert x != b;
      } else {
        assert i == f && x == b;
      }
    }
  }

  /** What GC_allochblk reads besides the free lists; byte counts in bytes, blLimit in heap blocks. */
  datatype Env = Env(useEntireHeap: bool, dontGc: bool, incremental: bool, shouldCollect: bool,
                     requestedHeapSize: nat, finalizerBytesFreed: nat, largeAllocd: nat, maxLargeAllocd: nat,
                     findLeak: bool, blLimit: nat) {
    /** Every list may be split whatever the state of the heap. */
    predicate Eager() { useEntireHeap || dontGc || incremental || !shouldCollect }
  }

  /** The free bytes on the lists from n on bring the large allocation up to its maximum. */
  ghost predicate EnoughFrom(free: seq<nat>, env: Env, n: nat)
    requires n <= |free|
  {
    env.largeAllocd + Total(free[n..]) * HBLKSIZE >= env.maxLargeAllocd
  }

  /** The last list from which on there is enough, or 0. */
  ghost predicate LastEnough(free: seq<nat>, env: Env, n: nat)
    requires |free| == N_HBLK_FLS + 1
  {
    && n <= N_HBLK_FLS
    && (n > 0 ==> EnoughFrom(free, env, n))
    && (forall k :: n < k <= N_HBLK_FLS ==> !EnoughFrom(free, env, k))
  }

  /** The free lists and counters at some moment of a search. */
  datatype Moment = Moment(hdrs: Hdrs, links: Links, largeFree: nat) {
    /** The search began with the headers m. */
    ghost predicate Reached(m: Hdrs, q: Request, bl: BL.Lists) {
      DropsOnly(m, hdrs, q, bl) && LinksOk(hdrs, links) && Placed(hdrs, links.lists) && largeFree == Total(links.free)
    }
  }

  /** n is the highest list to split: all of them while the heap is not yet in full use or no
      collection is due, none when finalizers have freed more than a sixteenth of the heap,
      and otherwise as many as leave enough for large requests. */
  ghost predicate SplitsTo(env: Env, free: seq<nat>, largeFree: nat, heapSize: nat, n: nat)
    requires |free| == N_HBLK_FLS + 1
  {
    if env.Eager() || (heapSize - largeFree) * HBLKSIZE < env.requestedHeapSize then n == N_HBLK_FLS
    else if 16 * env.finalizerBytesFreed > heapSize * HBLKSIZE then n == 0
    else LastEnough(free, env, n)
  }

  /** No free block on the lists before k can serve the request, even split. */
  ghost predicate NoneBelow(m: Hdrs, q: Request, bl: BL.Lists, k: nat) {
    forall x: nat :: IsFree(m, x) && FlIndex(SizeAt(m, x)) < k ==> !q.Placeable(bl, x, SizeAt(m, x), true)
  }

  ghost predicate NoneUpTo(m: Hdrs, q: Request, bl: BL.Lists, k: nat) {
    NoneBelow(m, q, bl, k + 1)
  }

  lemma SmallerDone(m: Hdrs, q: Request, bl: BL.Lists)
    ensures NoneBelow(m, q, bl, FlIndex(q.N()))
  {
    forall x: nat | IsFree(m, x) && FlIndex(SizeAt(m, x)) < FlIndex(q.N())
      ensures !q.Placeable(bl, x, SizeAt(m, x), true)
    {
      BinsOrdered(q.N(), SizeAt(m, x));
    }
  }

  lemma ExactListDone(m: Hdrs, q: Request, bl: BL.Lists)
    requires q.Legal() && FlIndex(q.N()) < UNIQUE_THRESHOLD && Exhausted(m, q, bl, FlIndex(q.N()), false)
    ensures NoneBelow(m, q, bl, FlIndex(q.N()) + 1)
  {
    SmallerDone(m, q, bl);
    forall x: nat | IsFree(m, x) && FlIndex(SizeAt(m, x)) == FlIndex(q.N())
      ensures !q.Placeable(bl, x, SizeAt(m, x), true)
    {
      BinsOrdered(q.N(), SizeAt(m, x));
      assert !q.Placeable(bl, x, SizeAt(m, x), false);
    }
  }

  lemma ExhaustedBefore(m0: Hdrs, m: Hdrs, q: Request, bl: BL.Lists, index: nat)
    requires q.Legal() && DropsOnly(m0, m, q, bl) && Exhausted(m, q, bl, index, true) && NoneBelow(m0, q, bl, index)
    ensures NoneBelow(m0, q, bl, index + 1)
  {
    forall x: nat | IsFree(m0, x) && FlIndex(SizeAt(m0, x)) == index
      ensures !q.Placeable(bl, x, SizeAt(m0, x), true)
    {
      if !IsFree(m, x) {
        assert DroppedAt(m0, m, x, q, bl);
      }
    }
  }

  /** With nothing black-listed, a free block can serve a request exactly when it is as large
      as the request and the padding its alignment calls for. */
  lemma NothingBlack(q: Request, bl: BL.Lists, s: nat, z: nat)
    requires q.Legal() && (q.Anywhere() || forall h: nat, n: nat :: !bl.Black(h, n))
    ensures q.Placeable(bl, s, z, true) <==> z >= q.N() + BL.AlignPad(s, q.Align())
  {
    if z >= q.N() + BL.AlignPad(s, q.Align()) {
      assert q.Anywhere() || q.CleanAt(bl, s, z, s + BL.AlignPad(s, q.Align()));
    }
  }

  ghost predicate Cursor(l: seq<nat>, k: nat, hbp: Option<nat>) {
    k <= |l| && hbp == if k < |l| then Some(l[k]) else None
  }

  lemma CursorStart(m: Hdrs, links: Links, index: nat)
    requires LinksOk(m, links) && index <= N_HBLK_FLS
    ensures Cursor(links.lists[index], 0, links.heads[index])
  {
    assert ListAt(m, links, index);
  }

  lemma CursorStep(m: Hdrs, links: Links, index: nat, k: nat)
    requires LinksOk(m, links) && index <= N_HBLK_FLS && k < |links.lists[index]|
    ensures Cursor(links.lists[index], k + 1, At(links.next, links.lists[index][k]))
  {
    assert ListAt(m, links, index);
    Neighbours(links.heads[index], links.next, links.prev, links.lists[index], k);
  }

  datatype Decision = Place(at: nat) | Drop | Skip

  /** The free block at t is smaller than z blocks and a clean fit at its first aligned start. */
  ghost predicate BetterThan(m: Hdrs, t: nat, z: nat, q: Request, bl: BL.Lists)
    requires q.Legal()
  {
    var ofs := BL.AlignPad(t, q.Align());
    z > SizeAt(m, t) >= q.N() + ofs && !bl.Black(t + ofs, q.N())
  }

  lemma BetterIsPlaceable(m: Hdrs, t: nat, z: nat, q: Request, bl: BL.Lists)
    requires q.Legal() && BetterThan(m, t, z, q, bl)
    ensures q.Placeable(bl, t, SizeAt(m, t), true)
  {
    var ofs := BL.AlignPad(t, q.Align());
    assert q.Eff() <= q.N();
    assert q.CleanAt(bl, t, SizeAt(m, t), t + ofs);
  }

  /** No free block on the list can serve the request. */
  ghost predicate Exhausted(m: Hdrs, q: Request, bl: BL.Lists, index: nat, maySplit: bool)
    requires q.Legal()
  {
    forall x: nat :: IsFree(m, x) && FlIndex(SizeAt(m, x)) == index ==> !q.Placeable(bl, x, SizeAt(m, x), maySplit)
  }

  /** m' is m with the request placed at b, inside the free block at s of list index. */
  ghost predicate Allocated(m: Hdrs, m': Hdrs, q: Request, bl: BL.Lists, limit: nat, index: nat, maySplit: bool,
                            s: nat, b: nat)
    requires q.Legal()
  {
    && IsFree(m, s) && FlIndex(SizeAt(m, s)) == index
    && Position(q, bl, limit, s, SizeAt(m, s), maySplit, b)
    && Fits(m, s, b, q.N())
    && m' == Carved(m, s, b, q.lb)
  }

  /** What the black lists are for: a block that may hold pointers, or a pointer-free one of more
      than two heap blocks, is not put where its first heap block (of which alone addresses are
      kept when off-page pointers are ignored) or any other is black-listed; unless both the
      request and what its free block has to spare are large and that block has no clean position. */
  lemma BlackListsAvoided(m: Hdrs, m': Hdrs, q: Request, bl: BL.Lists, limit: nat, index: nat, maySplit: bool, s: nat, b: nat)
    requires q.Legal() && Allocated(m, m', q, bl, limit, index, maySplit, s, b)
    requires q.kind.Normal? || (q.kind.PtrFree? && q.lb > 2 * HBLKSIZE)
    ensures !bl.Black(b, if q.ignoreOffPage then 1 else Blocks(q.lb))
            || (Blocks(q.lb) > limit && SizeAt(m, s) - Blocks(q.lb) > limit && forall c :: !q.CleanAt(bl, s, SizeAt(m, s), c))
  {
    BlocksIsLeast(q.lb, 2);
  }

  /** The search goes on past position j of its list: the block there is too small, or the next
      one fits better, or all of it is black-listed. */
  ghost predicate Skips(m: Hdrs, l: seq<nat>, j: nat, q: Request, bl: BL.Lists, limit: nat, maySplit: bool)
    requires q.Legal() && j < |l|
  {
    var z := SizeAt(m, l[j]);
    || !q.SizeFits(l[j], z, maySplit)
    || (z != q.N() && j + 1 < |l| && BetterThan(m, l[j + 1], z, q, bl))
    || (q.AllBlack(bl, l[j], z) && !q.Punts(limit, z))
  }

  ghost predicate Passed(m: Hdrs, l: seq<nat>, k: nat, q: Request, bl: BL.Lists, limit: nat, maySplit: bool)
    requires q.Legal() && k <= |l|
  {
    forall j: nat :: j < k ==> Skips(m, l, j, q, bl, limit, maySplit)
  }

  /** s is the first block of the list that the search does not go past. */
  ghost predicate FirstOnList(m: Hdrs, l: seq<nat>, s: nat, q: Request, bl: BL.Lists, limit: nat, maySplit: bool)
    requires q.Legal()
  {
    exists k: nat :: k < |l| && l[k] == s && Passed(m, l, k, q, bl, limit, maySplit) && !Skips(m, l, k, q, bl, limit, maySplit)
  }

  /** The blocks of the list that have not been dropped. */
  ghost function Remaining(l: seq<nat>, m: Hdrs): seq<nat> {
    if l == [] then [] else (if IsFree(m, l[0]) then [l[0]] else []) + Remaining(l[1..], m)
  }

  /** The search is at position k of the list l, which held l0 when it began. */
  ghost predicate Searched(m: Hdrs, l0: seq<nat>, l: seq<nat>, k: nat, q: Request, bl: BL.Lists, limit: nat, maySplit: bool)
    requires q.Legal()
  {
    l == Remaining(l0, m) && k <= |l| && Passed(m, l, k, q, bl, limit, maySplit)
  }

  lemma FirstFound(m: Hdrs, l0: seq<nat>, l: seq<nat>, k: nat, q: Request, bl: BL.Lists, limit: nat, maySplit: bool)
    requires q.Legal() && Searched(m, l0, l, k, q, bl, limit, maySplit) && k < |l| && !Skips(m, l, k, q, bl, limit, maySplit)
    ensures FirstOnList(m, Remaining(l0, m), l[k], q, bl, limit, maySplit)
  {
  }

  lemma {:induction false} RemainingAll(l: seq<nat>, m: Hdrs)
    requires forall x :: x in l ==> IsFree(m, x)
    ensures Remaining(l, m) == l
  {
    if l != [] {
      assert l[0] in l;
      RemainingAll(l[1..], m);
    }
  }

  lemma {:induction false} WithoutCons(x: nat, r: seq<nat>, s: nat)
    requires NoDup([x] + r)
    ensures NoDup(r) && x !in r
    ensures s == x ==> Without([x] + r, s) == r
    ensures s != x && s in r ==> s in [x] + r && Without([x] + r, s) == [x] + Without(r, s)
  {
    var l := [x] + r;
    forall i, j | 0 <= i < j < |r| ensures r[i] != r[j] {
      assert l[i + 1] == r[i] && l[j + 1] == r[j];
    }
    forall i | 0 <= i < |r| ensures r[i] != x {
      assert l[i + 1] == r[i] && l[0] == x;
    }
    assert l[1..] == r;
  }

  /** When the block at s is dropped, it is taken from the list. */
  lemma {:induction false} RemainingWithout(l0: seq<nat>, m: Hdrs, m': Hdrs, s: nat)
    requires forall x :: x in l0 && x != s ==> (IsFree(m', x) <==> IsFree(m, x))
    requires !IsFree(m', s) && NoDup(Remaining(l0, m))
    ensures Remaining(l0, m') == if s in Remaining(l0, m) then Without(Remaining(l0, m), s) else Remaining(l0, m)
  {
    if l0 != [] {
      var x, r := l0[0], Remaining(l0[1..], m);
      assert x in l0;
      if IsFree(m, x) {
        assert Remaining(l0, m) == [x] + r;
        WithoutCons(x, r, s);
        RemainingWithout(l0[1..], m, m', s);
        assert x == s ==> Remaining(l0, m') == Remaining(l0[1..], m');
      } else {
        assert Remaining(l0, m) == r;
        RemainingWithout(l0[1..], m, m', s);
        assert Remaining(l0, m') == Remaining(l0[1..], m');
      }
    }
  }

  /** No block of a list that the search has gone through can serve the request: each that could
      has been left for the next one, which then could too. */
  lemma {:induction false} NoneCan(m: Hdrs, l: seq<nat>, j: nat, q: Request, bl: BL.Lists, limit: nat, maySplit: bool)
    requires q.Legal() && j < |l| && Passed(m, l, |l|, q, bl, limit, maySplit)
    ensures !q.Placeable(bl, l[j], SizeAt(m, l[j]), maySplit)
    decreases |l| - j
  {
    assert Skips(m, l, j, q, bl, limit, maySplit);
    if q.Placeable(bl, l[j], SizeAt(m, l[j]), maySplit) {
      BetterIsPlaceable(m, l[j + 1], SizeAt(m, l[j]), q, bl);
      NoneCan(m, l, j + 1, q, bl, limit, maySplit);
    }
  }

  /** A block that is black-listed throughout is dropped. */
  lemma DropsOneMore(m0: Hdrs, m: Hdrs, m': Hdrs, s: nat, q: Request, bl: BL.Lists)
    requires q.Droppable() && DropsOnly(m0, m, q, bl)
    requires IsFree(m, s) && q.AllBlack(bl, s, SizeAt(m, s)) && Alone(m, s)
    requires m' == Dropped(m, s, SizeAt(m, s)) && LosesFree(m, m', s)
    ensures DropsOnly(m0, m', q, bl)
  {
    assert DropsOnly(m, m', q, bl);
    DropsTransitive(m0, m, m', q, bl);
  }

  lemma {:induction false} DropStep(m: Hdrs, m': Hdrs, l0: seq<nat>, l: seq<nat>, l': seq<nat>, k: nat, q: Request, bl: BL.Lists,
                                    limit: nat, maySplit: bool)
    requires q.Legal() && k < |l| && NoDup(l) && Searched(m, l0, l, k, q, bl, limit, maySplit)
    requires IsFree(m, l[k]) && q.AllBlack(bl, l[k], SizeAt(m, l[k]))
    requires LosesFree(m, m', l[k]) && !IsFree(m', l[k])
    requires l' == Without(l, l[k]) && forall x :: x in l ==> IsFree(m, x)
    ensures Searched(m', l0, l', k, q, bl, limit, maySplit)
  {
    RemainingWithout(l0, m, m', l[k]);
    assert IndexOf(l, l[k]) == k;
    assert forall j: nat :: j < k ==> l'[j] == l[j];
    forall j: nat | j < k ensures Skips(m', l', j, q, bl, limit, maySplit) {
      assert Skips(m, l, j, q, bl, limit, maySplit);
      assert l[j] in l && l[j] != l[k] && SizeAt(m', l[j]) == SizeAt(m, l[j]);
      if j + 1 == k {
        assert BetterThan(m, l[k], SizeAt(m, l[j]), q, bl) ==> false by {
          if BetterThan(m, l[k], SizeAt(m, l[j]), q, bl) {
            BetterIsPlaceable(m, l[k], SizeAt(m, l[j]), q, bl);
          }
        }
      } else {
        assert l[j + 1] in l && l[j + 1] != l[k] && SizeAt(m', l[j + 1]) == SizeAt(m, l[j + 1]);
      }
    }
  }

  lemma NothingLeft(m0: Hdrs, m: Hdrs, lists: seq<seq<nat>>, index: nat, q: Request, bl: BL.Lists, limit: nat, maySplit: bool)
    requires q.Legal() && index <= N_HBLK_FLS && Placed(m, lists) && DropsOnly(m0, m, q, bl)
    requires Passed(m, lists[index], |lists[index]|, q, bl, limit, maySplit)
    ensures Exhausted(m0, q, bl, index, maySplit)
  {
    forall x: nat | IsFree(m0, x) && FlIndex(SizeAt(m0, x)) == index
      ensures !q.Placeable(bl, x, SizeAt(m0, x), maySplit)
    {
      if IsFree(m, x) {
        assert x in lists[index];
        var j: nat :| j < |lists[index]| && lists[index][j] == x;
        NoneCan(m, lists[index], j, q, bl, limit, maySplit);
      } else {
        assert DroppedAt(m0, m, x, q, bl);
      }
    }
  }

  lemma {:induction false} FinishDropping(m: Hdrs, c: Hdrs, heap: set<nat>, links: Links, l0: seq<seq<nat>>, s: nat)
    requires Tiled(m, heap) && IsFree(m, s) && c == Dropped(m, s, SizeAt(m, s))
    requires LinksOk(m, links) && Placed(m, l0)
    requires forall j, x :: 0 <= j <= N_HBLK_FLS ==> (x in links.lists[j] <==> x in l0[j] && x != s)
    ensures Tiled(c, heap) && LinksOk(c, links) && Placed(c, links.lists)
    ensures LosesFree(m, c, s)
    ensures Coalesced(m) ==> Coalesced(c)
  {
    DropTiles(m, heap, s, c);
    IsAlone(m, heap, s);
    assert LosesFree(m, c, s);
    SetupLists(m, c, links, s);
    if Coalesced(m) {
      forall x: nat, y: nat ensures !Adjacent(c, x, y) {
        assert Adjacent(c, x, y) ==> Adjacent(m, x, y);
      }
    }
  }

  /** The header map g just before the header of b is set up. */
  ghost predicate BeforeSetup(m: Hdrs, g: Hdrs, s: nat, b: nat, n: nat)
    requires Fits(m, s, b, n)
  {
    var m1 := CutBefore(m, s, b);
    g == if b + n == End(m, s) then m1 else m1[b + n := Free(End(m, s) - (b + n))]
  }

  lemma SetupCarves(m: Hdrs, g: Hdrs, s: nat, b: nat, lb: nat)
    requires Fits(m, s, b, Blocks(lb)) && BeforeSetup(m, g, s, b, Blocks(lb))
    ensures Counts(g[b := Used(lb)], b, Blocks(lb)) == Carved(m, s, b, lb)
  {
    var r := b + Blocks(lb);
    var m2 := CutAfter(CutBefore(m, s, b), b, r);
    assert g[b := Used(lb)] == m2[b := Used(lb)];
  }

  /** The free blocks of the result are those of g but b. */
  ghost predicate LosesFree(g: Hdrs, c: Hdrs, b: nat) {
    && (forall x: nat :: IsFree(g, x) && x != b ==> x in c && c[x] == g[x])
    && (forall x: nat :: IsFree(c, x) ==> x != b && x in g && g[x] == c[x])
  }

  lemma SetupFree(m: Hdrs, g: Hdrs, c: Hdrs, s: nat, b: nat, lb: nat)
    requires Fits(m, s, b, Blocks(lb)) && BeforeSetup(m, g, s, b, Blocks(lb)) && Alone(m, s)
    requires c == Counts(g[b := Used(lb)], b, Blocks(lb))
    requires forall x: nat :: IsStart(m, x) ==> SizeAt(m, x) > 0
    ensures LosesFree(g, c, b)
  {
    var r := b + Blocks(lb);
    forall x: nat | IsFree(g, x) && x != b ensures x in c && c[x] == g[x] {
      if x != s && x != r {
        assert IsFree(m, x) && IsStart(m, x) && x != b;
      }
    }
  }

  lemma SetupLists(g: Hdrs, c: Hdrs, links: Links, b: nat)
    requires LosesFree(g, c, b)
    requires LinksOk(g, links) && PlacedBut(g, links.lists, b) && OnNone(links.lists, b)
    ensures LinksOk(c, links) && Placed(c, links.lists)
  {
    forall i, x | 0 <= i <= N_HBLK_FLS && x in links.lists[i] && x in g ensures x in c && c[x] == g[x] {
      assert ListAt(g, links, i);
    }
    HeadersFrame(g, c, links);
    forall x: nat | IsFree(c, x)
      ensures FlIndex(SizeAt(c, x)) <= N_HBLK_FLS && x in links.lists[FlIndex(SizeAt(c, x))]
    {
      BinsOrdered(SizeAt(c, x), 0);
      assert IsFree(g, x) && x != b;
    }
    forall i, x: nat | 0 <= i <= N_HBLK_FLS && x in links.lists[i] ensures IsFree(c, x) && FlIndex(SizeAt(c, x)) == i {
      assert x != b && IsFree(g, x);
    }
  }

  lemma FinishCarving(m: Hdrs, g: Hdrs, c: Hdrs, heap: set<nat>, links: Links, s: nat, b: nat, lb: nat)
    requires Tiled(m, heap) && Fits(m, s, b, Blocks(lb)) && BeforeSetup(m, g, s, b, Blocks(lb))
    requires c == Counts(g[b := Used(lb)], b, Blocks(lb))
    requires LinksOk(g, links) && PlacedBut(g, links.lists, b) && OnNone(links.lists, b)
    ensures c == Carved(m, s, b, lb)
    ensures Tiled(c, heap) && LinksOk(c, links) && Placed(c, links.lists)
    ensures Coalesced(m) ==> Coalesced(c)
  {
    IsAlone(m, heap, s);
    SetupCarves(m, g, s, b, lb);
    SetupFree(m, g, c, s, b, lb);
    SetupLists(g, c, links, b);
    CarvedTiles(m, heap, s, b, lb, c);
    CarvedBlocks(m, s, b, lb);
    if Coalesced(m) {
      CarvedCoalesced(m, c, s, b, lb);
    }
  }

  lemma {:induction false} SplitPlaced(m: Hdrs, m': Hdrs, l0: seq<seq<nat>>, l1: seq<seq<nat>>, l2: seq<seq<nat>>, s: nat, t: nat, index: nat)
    requires Placed(m, l0) && index <= N_HBLK_FLS && |l1| == |l2| == N_HBLK_FLS + 1
    requires IsFree(m, s) && s < t < End(m, s) && t !in m && m' == Split(m, s, t)
    requires forall j, x :: 0 <= j <= N_HBLK_FLS ==>
               (x in l1[j] <==> (x in l0[j] && x != s) || (j == index && x == t))
    requires FlIndex(t - s) <= N_HBLK_FLS && l2 == l1[FlIndex(t - s) := [s] + l1[FlIndex(t - s)]]
    ensures PlacedBut(m', l2, t) && t in l2[index]
  {
    var f := FlIndex(t - s);
    forall j, x: nat | 0 <= j <= N_HBLK_FLS && x in l2[j] && x != t
      ensures IsFree(m', x) && FlIndex(SizeAt(m', x)) == j
    {
      if x in l1[j] {
        assert x in l0[j] && x != s;
        assert IsFree(m, x) && FlIndex(SizeAt(m, x)) == j;
        assert x in m' && m'[x] == m[x];
      } else {
        assert x == s && j == f;
        assert m'[s] == Free(t - s);
      }
    }
    forall x: nat | IsFree(m', x) && x != t
      ensures FlIndex(SizeAt(m', x)) <= N_HBLK_FLS && x in l2[FlIndex(SizeAt(m', x))]
    {
      BinsOrdered(SizeAt(m', x), 0);
      if x != s {
        assert IsFree(m, x);
      }
    }
  }

  /** The rest block r joins its list; b is already off its own. */
  lemma {:induction false} AddPlaced(m: Hdrs, m': Hdrs, l1: seq<seq<nat>>, l2: seq<seq<nat>>, b: nat, r: nat)
    requires PlacedBut(m, l1, b) && OnNone(l1, b) && |l2| == N_HBLK_FLS + 1
    requires r !in m && r != b && r in m' && m'[r].Free? && m' == m[r := m'[r]]
    requires FlIndex(SizeAt(m', r)) <= N_HBLK_FLS
    requires l2 == l1[FlIndex(SizeAt(m', r)) := [r] + l1[FlIndex(SizeAt(m', r))]]
    ensures PlacedBut(m', l2, b) && OnNone(l2, b)
  {
    var f := FlIndex(SizeAt(m', r));
    forall j, x: nat | 0 <= j <= N_HBLK_FLS && x in l2[j] && x != b
      ensures IsFree(m', x) && FlIndex(SizeAt(m', x)) == j
    {
      if x in l1[j] {
        assert IsFree(m, x);
      } else {
        assert x == r && j == f;
      }
    }
    forall x: nat | IsFree(m', x) && x != b
      ensures FlIndex(SizeAt(m', x)) <= N_HBLK_FLS && x in l2[FlIndex(SizeAt(m', x))]
    {
      BinsOrdered(SizeAt(m', x), 0);
      if x != r {
        assert IsFree(m, x);
      }
    }
  }

  /** hb_sz. */
  function Bytes(e: Entry): nat {
    match e
    case Fwd(_) => 0
    case Free(sz) => sz * HBLKSIZE
    case Used(lb) => lb
  }

  lemma NoStartInside(m: Hdrs, s: nat, a: nat)
    requires Apart(m) && Covers(m, s, a)
    ensures forall t: nat :: s < t <= a ==> !IsStart(m, t)
  {
  }

  /** The block over h - 1 ends at h when h starts a block, and no other block ends there. */
  lemma EndsAt(m: Hdrs, heap: set<nat>, p: nat, h: nat)
    requires Tiled(m, heap) && IsStart(m, h) && h > 0 && Covers(m, p, h - 1)
    ensures End(m, p) == h
    ensures forall s: nat :: IsStart(m, s) && End(m, s) == h ==> s == p
  {
    forall s: nat | IsStart(m, s) && End(m, s) == h ensures s == p {
      OneOwner(m, s, p, h - 1);
    }
  }

  lemma EndingIsPrev(m: Hdrs, heap: set<nat>, h: nat, q: Option<nat>)
    requires Tiled(m, heap) && h > 0 && IsPrev(m, h - 1, q)
    ensures forall s: nat :: IsStart(m, s) && End(m, s) == h ==> q == Some(s)
  {
    forall s: nat | IsStart(m, s) && End(m, s) == h ensures q == Some(s) {
      assert SizeAt(m, s) > 0;
    }
  }

  lemma {:induction false} EmptyTotal(free: seq<nat>)
    requires forall i :: 0 <= i < |free| ==> free[i] == 0
    ensures Total(free) == 0
  {
    if free != [] {
      EmptyTotal(free[1..]);
    }
  }
}
