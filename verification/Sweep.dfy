/** Sweeping a block of small objects, and the lazy sweep of a size class. */
module Sweep {
  import opened ObjectLists

  /** The mark bit of the i-th object; successive objects are `step` bits apart. */
  predicate Marked(marks: set<nat>, step: nat, i: nat) {
    Obj(0, step, i) in marks
  }

  /** The unmarked ones among the first n objects of a block, last to first. */
  function Unmarked(base: nat, sz: nat, step: nat, marks: set<nat>, n: nat): seq<nat> {
    if n == 0 then []
    else if Marked(marks, step, n - 1) then Unmarked(base, sz, step, marks, n - 1)
    else [Obj(base, sz, n - 1)] + Unmarked(base, sz, step, marks, n - 1)
  }

  /** Exactly the unmarked objects, each once. */
  lemma {:induction false} UnmarkedElems(base: nat, sz: nat, step: nat, marks: set<nat>, n: nat)
    requires sz > 0
    ensures forall x: nat :: x in Unmarked(base, sz, step, marks, n) <==>
              exists i: nat :: i < n && !Marked(marks, step, i) && Obj(base, sz, i) == x
    ensures forall x: nat :: x in Unmarked(base, sz, step, marks, n) ==> base <= x && x + sz <= Obj(base, sz, n)
    ensures forall a, b :: 0 <= a < b < |Unmarked(base, sz, step, marks, n)| ==>
              Unmarked(base, sz, step, marks, n)[b] < Unmarked(base, sz, step, marks, n)[a]
  {
    if n > 0 {
      UnmarkedElems(base, sz, step, marks, n - 1);
      ObjIs(base, sz, n - 1);
      var u, u' := Unmarked(base, sz, step, marks, n), Unmarked(base, sz, step, marks, n - 1);
      forall x: nat ensures x in u <==> exists i: nat :: i < n && !Marked(marks, step, i) && Obj(base, sz, i) == x {
        if x in u' {
          var i: nat :| i < n - 1 && !Marked(marks, step, i) && Obj(base, sz, i) == x;
        }
      }
      forall a, b | 0 <= a < b < |u| ensures u[b] < u[a] {
        if u != u' {
          assert u[b] == u'[b - 1] && u'[b - 1] in u';
          if a > 0 {
            assert u[a] == u'[a - 1];
          }
        }
      }
    }
  }

  /** What sweeping the first n objects does to the words that are not links: nothing outside
      the unmarked objects, and inside them null where they are cleared. */
  ghost predicate SweptWords(mem: seq<nat>, mem': seq<nat>, base: nat, sz: nat, step: nat, marks: set<nat>, n: nat, clear: bool) {
    && |mem'| == |mem|
    && (forall w: nat :: w < |mem| && !(base <= w < Obj(base, sz, n)) ==> mem'[w] == mem[w])
    && (forall i: nat, d: nat :: i < n && d < sz && Obj(base, sz, i) + d < |mem| ==>
          Word(mem, mem', Obj(base, sz, i), d, Marked(marks, step, i), clear))
  }

  predicate Word(mem: seq<nat>, mem': seq<nat>, p: nat, d: nat, marked: bool, clear: bool)
    requires |mem'| == |mem| && p + d < |mem|
  {
    if marked then mem'[p + d] == mem[p + d]
    else d == 0 || mem'[p + d] == if clear then 0 else mem[p + d]
  }

  /** GC_clear_block: all but the link. */
  method ClearBlock(mem: array<nat>, q: nat, sz: nat) returns (p: nat)
    requires sz > 0 && q + sz <= mem.Length
    modifies mem
    ensures p == q + sz
    ensures forall w: nat :: w < mem.Length ==> mem[w] == if q < w < q + sz then 0 else old(mem[w])
  {
    p := q + 1; // skip the link field
    while p < q + sz
      invariant q < p <= q + sz
      invariant forall w: nat :: w < mem.Length ==> mem[w] == if q < w < p then 0 else old(mem[w])
    {
      mem[p] := 0;
      p := p + 1;
    }
  }

  /** One more object swept. */
  lemma {:induction false} SweepOne(mem: seq<nat>, mem1: seq<nat>, mem2: seq<nat>, base: nat, sz: nat, step: nat, marks: set<nat>, n: nat, clear: bool)
    requires sz > 0 && SweptWords(mem, mem1, base, sz, step, marks, n, clear)
    requires |mem2| == |mem| && Obj(base, sz, n) + sz <= |mem|
    requires if Marked(marks, step, n) then mem2 == mem1 else
               forall w: nat :: w < |mem| && w != Obj(base, sz, n) ==>
                 mem2[w] == if clear && Obj(base, sz, n) < w < Obj(base, sz, n) + sz then 0 else mem1[w]
    ensures SweptWords(mem, mem2, base, sz, step, marks, n + 1, clear)
  {
    forall i: nat, d: nat | i < n + 1 && d < sz && Obj(base, sz, i) + d < |mem|
      ensures Word(mem, mem2, Obj(base, sz, i), d, Marked(marks, step, i), clear)
    {
      if i < n {
        ObjOrder(base, sz, i, n);
        assert Word(mem, mem1, Obj(base, sz, i), d, Marked(marks, step, i), clear);
      } else {
        ObjIs(base, sz, n);
      }
    }
    ObjIs(base, sz, n);
  }

  /** The list is extended by the object just freed; what it held before is untouched. */
  lemma {:induction false} FreeOne(mem1: seq<nat>, mem2: seq<nat>, p: nat, list: nat, u: seq<nat>, l: seq<nat>, sz: nat)
    requires IsList(mem1, list, u + l) && 0 < p && p + sz <= |mem1| && |mem2| == |mem1| && sz > 0
    requires forall w: nat :: w < |mem1| && !(p <= w < p + sz) ==> mem2[w] == mem1[w]
    requires mem2[p] == list
    requires forall x :: x in u + l ==> !(p <= x < p + sz)
    ensures IsList(mem2, p, ([p] + u) + l)
  {
    ListFrame(mem1, mem2, list, u + l);
    assert ([p] + u) + l == [p] + (u + l);
    assert ([p] + (u + l))[1..] == u + l;
  }

  lemma {:induction false} Outside(base: nat, sz: nat, step: nat, marks: set<nat>, n: nat, l: seq<nat>)
    requires sz > 0 && n < Objects(sz)
    requires forall x :: x in l ==> x < base || base + BLOCK_WORDS <= x
    ensures forall x :: x in Unmarked(base, sz, step, marks, n) + l ==>
              !(Obj(base, sz, n) <= x < Obj(base, sz, n) + sz)
    ensures base <= Obj(base, sz, n) && Obj(base, sz, n) + sz <= base + BLOCK_WORDS
  {
    UnmarkedElems(base, sz, step, marks, n);
    LastObject(base, sz, n);
    ObjIs(base, sz, n);
  }

  /** obj_link(p) = list, for the object at p. */
  method PutOnList(mem: array<nat>, p: nat, sz: nat, list: nat, ghost u: seq<nat>, ghost l: seq<nat>)
    requires 0 < sz && 0 < p && p + sz <= mem.Length && IsList(mem[..], list, u + l)
    requires forall x :: x in u + l ==> !(p <= x < p + sz)
    modifies mem
    ensures IsList(mem[..], p, ([p] + u) + l)
    ensures forall w: nat :: w < mem.Length && w != p ==> mem[w] == old(mem[w])
  {
    ghost var m := mem[..];
    mem[p] := list;
    FreeOne(m, mem[..], p, list, u, l, sz);
  }

  /** The same, and the rest of the object is cleared. */
  method PutOnListCleared(mem: array<nat>, p: nat, sz: nat, list: nat, ghost u: seq<nat>, ghost l: seq<nat>) returns (p': nat)
    requires 0 < sz && 0 < p && p + sz <= mem.Length && IsList(mem[..], list, u + l)
    requires forall x :: x in u + l ==> !(p <= x < p + sz)
    modifies mem
    ensures IsList(mem[..], p, ([p] + u) + l) && p' == p + sz
    ensures forall w: nat :: w < mem.Length && w != p ==> mem[w] == if p < w < p + sz then 0 else old(mem[w])
  {
    ghost var m := mem[..];
    mem[p] := list;
    p' := ClearBlock(mem, p, sz);
    FreeOne(m, mem[..], p, list, u, l, sz);
  }

  /** The state of a sweep after i objects. */
  ghost predicate Sweeping(mem: seq<nat>, mem': seq<nat>, base: nat, sz: nat, step: nat, marks: set<nat>, i: nat, clear: bool,
                           r: nat, l: seq<nat>) {
    && IsList(mem', r, Unmarked(base, sz, step, marks, i) + l)
    && SweptWords(mem, mem', base, sz, step, marks, i, clear)
  }

  /** GC_reclaim_clear; sizes in words. */
  method ReclaimClear(mem: array<nat>, base: nat, sz: nat, step: nat, marks: set<nat>, list: nat, count: nat, ghost l: seq<nat>)
    returns (r: nat, count': nat)
    requires 0 < sz <= BLOCK_WORDS && 0 < base && base + BLOCK_WORDS <= mem.Length
    requires IsList(mem[..], list, l) && forall x :: x in l ==> x < base || base + BLOCK_WORDS <= x
    modifies mem
    ensures Swept(old(mem[..]), mem[..], base, sz, step, marks, true, r, l)
    ensures count' == count + FreeWords(base, sz, step, marks)
  {
    r, count' := list, count;
    var bitNo, p, plim := 0, base, base + BLOCK_WORDS - sz;
    ghost var i := 0;
    assert Unmarked(base, sz, step, marks, 0) + l == l;
    while p <= plim
      invariant i <= Objects(sz) && p == Obj(base, sz, i) && bitNo == Obj(0, step, i)
      invariant Sweeping(old(mem[..]), mem[..], base, sz, step, marks, i, true, r, l)
      invariant count' == count + Sum(sz, |Unmarked(base, sz, step, marks, i)|)
      decreases Objects(sz) - i
    {
      LastObject(base, sz, i);
      if bitNo in marks {
        SweepOne(old(mem[..]), mem[..], mem[..], base, sz, step, marks, i, true);
        p := p + sz;
      } else {
        // unmarked: the new head of the list
        var q := p;
        p := FreeCleared(mem, p, base, sz, step, marks, i, r, old(mem[..]), l);
        r := q;
        count' := count' + sz;
      }
      bitNo := bitNo + step;
      i := i + 1;
    }
    LastObject(base, sz, i);
  }

  /** The unmarked object at p, the i-th of the block, is cleared and put on the list. */
  method FreeCleared(mem: array<nat>, p: nat, ghost base: nat, sz: nat, ghost step: nat, ghost marks: set<nat>, ghost i: nat,
                     list: nat, ghost m0: seq<nat>, ghost l: seq<nat>)
    returns (p': nat)
    requires 0 < sz <= BLOCK_WORDS && 0 < base && base + BLOCK_WORDS <= mem.Length
    requires i < Objects(sz) && p == Obj(base, sz, i) && !Marked(marks, step, i)
    requires Sweeping(m0, mem[..], base, sz, step, marks, i, true, list, l)
    requires forall x :: x in l ==> x < base || base + BLOCK_WORDS <= x
    modifies mem
    ensures Sweeping(m0, mem[..], base, sz, step, marks, i + 1, true, p, l) && p' == p + sz
  {
    ghost var m := mem[..];
    Outside(base, sz, step, marks, i, l);
    p' := PutOnListCleared(mem, p, sz, list, Unmarked(base, sz, step, marks, i), l);
    SweepOne(m0, m, mem[..], base, sz, step, marks, i, true);
  }

  /** GC_reclaim_uninit. */
  method ReclaimUninit(mem: array<nat>, base: nat, sz: nat, step: nat, marks: set<nat>, list: nat, count: nat, ghost l: seq<nat>)
    returns (r: nat, count': nat)
    requires 0 < sz <= BLOCK_WORDS && 0 < base && base + BLOCK_WORDS <= mem.Length
    requires IsList(mem[..], list, l) && forall x :: x in l ==> x < base || base + BLOCK_WORDS <= x
    modifies mem
    ensures Swept(old(mem[..]), mem[..], base, sz, step, marks, false, r, l)
    ensures count' == count + FreeWords(base, sz, step, marks)
  {
    r := list;
    var found := 0;
    var bitNo, p, plim := 0, base, base + BLOCK_WORDS - sz;
    ghost var i := 0;
    assert Unmarked(base, sz, step, marks, 0) + l == l;
    while p <= plim
      invariant i <= Objects(sz) && p == Obj(base, sz, i) && bitNo == Obj(0, step, i)
      invariant Sweeping(old(mem[..]), mem[..], base, sz, step, marks, i, false, r, l)
      invariant found == Sum(sz, |Unmarked(base, sz, step, marks, i)|)
      decreases Objects(sz) - i
    {
      LastObject(base, sz, i);
      ghost var m := mem[..];
      Outside(base, sz, step, marks, i, l);
      if bitNo !in marks {
        found := found + sz;
        // unmarked: the new head of the list
        PutOnList(mem, p, sz, r, Unmarked(base, sz, step, marks, i), l);
        r := p;
      }
      SweepOne(old(mem[..]), m, mem[..], base, sz, step, marks, i, false);
      bitNo := bitNo + step;
      p := p + sz;
      i := i + 1;
    }
    LastObject(base, sz, i);
    count' := count + found;
  }

  function Sum(sz: nat, n: nat): nat {
    if n == 0 then 0 else sz + Sum(sz, n - 1)
  }

  lemma {:induction false} SumIs(sz: nat, n: nat)
    ensures Sum(sz, n) == sz * n
  {
    if n > 0 {
      SumIs(sz, n - 1);
    }
  }

  /** The words of the unmarked objects. */
  function FreeWords(base: nat, sz: nat, step: nat, marks: set<nat>): nat
    requires sz > 0
  {
    Sum(sz, |Unmarked(base, sz, step, marks, Objects(sz))|)
  }

  /** The whole block swept: the unmarked objects, each once, are in front of the old list. */
  ghost predicate Swept(mem: seq<nat>, mem': seq<nat>, base: nat, sz: nat, step: nat, marks: set<nat>, clear: bool, r: nat, l: seq<nat>)
    requires sz > 0
  {
    Sweeping(mem, mem', base, sz, step, marks, Objects(sz), clear, r, l)
  }

  // ---- The lazy sweep of one size class.

  datatype Class = Class(sz: nat, step: nat)

  /** The objects the blocks would give, those of later blocks in front. */
  function Yield(c: Class, marks: map<nat, set<nat>>, blocks: seq<nat>): seq<nat>
    requires c.sz > 0
  {
    if blocks == [] then [] else Yield(c, marks, blocks[1..]) + UnmarkedIn(c, marks, blocks[0])
  }

  function UnmarkedIn(c: Class, marks: map<nat, set<nat>>, b: nat): seq<nat>
    requires c.sz > 0
  {
    Unmarked(b, c.sz, c.step, MarksOf(marks, b), Objects(c.sz))
  }

  function MarksOf(marks: map<nat, set<nat>>, b: nat): set<nat> {
    if b in marks then marks[b] else {}
  }

  /** Small objects of one kind and size. */
  class SizeClass {
    const c: Class
    const init: bool                    // ok_init: objects are cleared
    const mem: array<nat>
    const marks: map<nat, set<nat>>     // of the last collection
    var flh: nat                        // ok_freelist
    var pending: seq<nat>               // ok_reclaim_list, linked through hb_next
    var found: nat                      // GC_bytes_found, in words
    ghost var free: seq<nat>

    ghost predicate BlockOk(b: nat) {
      0 < b && b + BLOCK_WORDS <= mem.Length
    }

    ghost predicate Valid()
      reads this, mem
    {
      && 0 < c.sz <= BLOCK_WORDS
      && IsList(mem[..], flh, free)
      && (forall i :: 0 <= i < |pending| ==> BlockOk(pending[i]))
      && AllFar(pending)
      && (forall i, x :: 0 <= i < |pending| && x in free ==> NotIn(x, pending[i]))
      && (init ==> AllClear(mem[..], c.sz, free) && AllApart(c.sz, free, pending))
    }

    /** The objects that are free or will be once the pending blocks have been swept. */
    ghost function Pool(): seq<nat>
      requires c.sz > 0
      reads this
    {
      Yield(c, marks, pending) + free
    }

    /** The words found so far and those the pending blocks will give. */
    ghost function Due(): nat
      requires c.sz > 0
      reads this
    {
      found + Sum(c.sz, |Yield(c, marks, pending)|)
    }

    /** GC_reclaim_small_nonempty_block, for the first pending block; it leaves the list first. */
    method ReclaimNext()
      requires Valid() && pending != []
      modifies this`flh, this`pending, this`found, this`free, mem
      ensures Valid() && pending == old(pending)[1..]
      ensures free == UnmarkedIn(c, marks, old(pending)[0]) + old(free)
      ensures found == old(found) + Sum(c.sz, |UnmarkedIn(c, marks, old(pending)[0])|)
      ensures SweptWords(old(mem[..]), mem[..], old(pending)[0], c.sz, c.step, MarksOf(marks, old(pending)[0]), Objects(c.sz), init)
      ensures Pool() == old(Pool()) && Due() == old(Due())
    {
      ghost var m, f := mem[..], free;
      DueStep(c, marks, pending);
      var hbp := pending[0];
      ghost var rest := pending[1..];
      assert BlockOk(pending[0]);
      NextPending(pending, free, c, marks);
      pending := pending[1..];
      if init {
        flh, found := ReclaimClear(mem, hbp, c.sz, c.step, MarksOf(marks, hbp), flh, found, free);
      } else {
        flh, found := ReclaimUninit(mem, hbp, c.sz, c.step, MarksOf(marks, hbp), flh, found, free);
      }
      free := UnmarkedIn(c, marks, hbp) + free;
      if init {
        SweepClears(m, mem[..], c, marks, hbp, f);
        GivesApart(c, marks, hbp, pending, f);
      }
    }

    /** GC_continue_reclaim: pending blocks are swept until the free list is not empty.  What is
        free or pending together does not change. */
    method ContinueReclaim() returns (ghost n: nat)
      requires Valid()
      modifies this`flh, this`pending, this`found, this`free, mem
      ensures Valid()
      ensures Pool() == old(Pool())
      ensures n <= |old(pending)| && pending == old(pending)[n..]
      ensures free == Yield(c, marks, old(pending)[..n]) + old(free)
      ensures pending == [] || free != []
      ensures n > 1 ==> free == UnmarkedIn(c, marks, old(pending)[n - 1])
      ensures Due() == old(Due())
    {
      ghost var p0, f0 := pending, free;
      n := SweepUntilFree();
      FreeIs(c, marks, p0, n, f0, free);
    }

    /** The loop of GC_continue_reclaim. */
    method SweepUntilFree() returns (ghost n: nat)
      requires Valid()
      modifies this`flh, this`pending, this`found, this`free, mem
      ensures Valid()
      ensures Pool() == old(Pool()) && Due() == old(Due())
      ensures n <= |old(pending)| && pending == old(pending)[n..]
      ensures pending == [] || free != []
      ensures n > 1 ==> free == UnmarkedIn(c, marks, old(pending)[n - 1])
    {
      n := 0;
      ghost var p0 := pending;
      while pending != []
        invariant Valid() && n <= |p0| && pending == p0[n..]
        invariant Pool() == old(Pool()) && Due() == old(Due())
        invariant n > 0 ==> free == []
        invariant n > 1 ==> free == UnmarkedIn(c, marks, p0[n - 1])
        decreases |pending|
      {
        ReclaimNext();
        n := n + 1;
        if flh != 0 {
          // something to allocate has been found
          break;
        }
      }
    }

    /** The fast path of GC_generic_malloc_inner_small: the first free object, after a sweep
        when there is none. */
    method TakeObject() returns (r: nat)
      requires Valid()
      modifies this`flh, this`pending, this`found, this`free, mem
      ensures Valid()
      ensures r == 0 ==> old(Pool()) == [] && Pool() == []
      ensures r != 0 ==> r in old(Pool()) && multiset(Pool()) + multiset{r} == multiset(old(Pool()))
      ensures r != 0 ==> r < mem.Length && mem[r] == 0
      ensures r != 0 && init ==> ClearObject(mem[..], r, c.sz)
      ensures old(flh) != 0 ==> r == old(flh) && pending == old(pending) && mem[..] == old(mem[..])[r := 0]
    {
      if flh == 0 {
        var n := ContinueReclaim();
      }
      r := flh;
      if r != 0 {
        UnlinkFirst();
      }
    }

    /** The first free object leaves the list, its link cleared. */
    method UnlinkFirst()
      requires Valid() && flh != 0
      modifies this`flh, this`free, mem
      ensures Valid() && free == old(free)[1..]
      ensures old(flh) < mem.Length && mem[..] == old(mem[..])[old(flh) := 0]
      ensures init ==> ClearObject(mem[..], old(flh), c.sz)
      ensures old(flh) in old(Pool()) && multiset(Pool()) + multiset{old(flh)} == multiset(old(Pool()))
    {
      var op := flh;
      assert flh in free;
      TakeFirst(Yield(c, marks, pending), free);
      ListNoDup(mem[..], flh, free);
      ghost var m, l := mem[..], free;
      assert forall x :: x in l[1..] ==> x in l && x != l[0] by {
        forall x | x in l[1..] ensures x != l[0] {
          var k :| 0 < k < |l| && l[k] == x;
        }
      }
      flh := mem[op];
      free := free[1..];
      mem[op] := 0;
      ListFrame(m, mem[..], flh, free);
    }

    /** GC_clear_fl_links. */
    method ClearLinks()
      requires Valid()
      modifies this`flh, this`free, mem
      ensures Valid() && free == []
      ensures forall w: nat :: w < mem.Length ==> mem[w] == if w in old(free) then 0 else old(mem[w])
    {
      ghost var gone: seq<nat> := [];
      var next := flh;
      ListInside(mem[..], flh, free);
      flh := 0;
      while next != 0
        invariant flh == 0 && gone + free == old(free) && IsList(mem[..], next, free)
        invariant forall x :: x in free ==> x !in gone
        invariant forall w: nat :: w < mem.Length ==> mem[w] == if w in gone then 0 else old(mem[w])
        decreases |free|
      {
        ghost var m := mem[..];
        ListNoDup(m, next, free);
        var p := next;
        next := mem[p];
        mem[p] := 0;
        ListFrame(m, mem[..], next, free[1..]);
        gone := gone + [free[0]];
        free := free[1..];
      }
    }

    /** The part of GC_start_reclaim and GC_reclaim_block that concerns the blocks of this class,
        in the order in which they are visited; `emptied` are those given to GC_freehblk. */
    method StartReclaim(blocks: seq<nat>, clobber: bool, findLeak: bool) returns (emptied: seq<nat>)
      requires Valid()
      requires forall i :: 0 <= i < |blocks| ==> BlockOk(blocks[i])
      requires AllFar(blocks)
      modifies this`flh, this`pending, this`found, this`free, mem
      ensures Valid() && free == []
      ensures emptied == WithFate(c, marks, findLeak, Emptied, blocks)
      ensures pending == WithFate(c, marks, findLeak, Queued, blocks)
      ensures found == old(found) + Sum(BLOCK_WORDS, |emptied|)
      ensures forall w: nat :: w < mem.Length ==> mem[w] == if clobber && w in old(free) then 0 else old(mem[w])
    {
      if clobber {
        ClearLinks();
      } else {
        flh, free := 0, [];
      }
      pending, emptied := [], [];
      ghost var m := mem[..];
      var i := 0;
      assert blocks[..0] == [];
      while i < |blocks|
        invariant i <= |blocks| && flh == 0 && free == [] && mem[..] == m
        invariant emptied == WithFate(c, marks, findLeak, Emptied, blocks[..i])
        invariant pending == WithFate(c, marks, findLeak, Queued, blocks[..i])
        invariant found == old(found) + Sum(BLOCK_WORDS, |emptied|)
      {
        var hbp := blocks[i];
        assert blocks[..i + 1][..i] == blocks[..i];
        if |MarksOf(marks, hbp)| == 0 {
          found := found + BLOCK_WORDS;
          emptied := [hbp] + emptied;
        } else if findLeak || !NearlyFull(c, marks, hbp) {
          pending := [hbp] + pending;
        }
        i := i + 1;
      }
      assert blocks[..i] == blocks;
      WithFateApart(c, marks, findLeak, Queued, blocks);
      forall k | 0 <= k < |pending| ensures BlockOk(pending[k]) {
        assert pending[k] in pending;
        var b :| 0 <= b < |blocks| && blocks[b] == pending[k];
        assert BlockOk(blocks[b]);
      }
    }
  }

  /** All words of the object but its link are null. */
  ghost predicate ClearObject(mem: seq<nat>, x: nat, sz: nat) {
    forall w: nat :: x < w < x + sz && w < |mem| ==> mem[w] == 0
  }

  ghost predicate AllClear(mem: seq<nat>, sz: nat, l: seq<nat>) {
    forall x :: x in l ==> ClearObject(mem, x, sz)
  }

  predicate ApartFrom(x: nat, sz: nat, b: nat) {
    x + sz <= b || b + BLOCK_WORDS <= x
  }

  /** No object of l reaches into one of the blocks. */
  ghost predicate AllApart(sz: nat, l: seq<nat>, blocks: seq<nat>) {
    forall x, i :: x in l && 0 <= i < |blocks| ==> ApartFrom(x, sz, blocks[i])
  }

  /** The objects freed by sweeping block b with clearing are clear, and the others stay so. */
  lemma {:induction false} SweepClears(mem: seq<nat>, mem': seq<nat>, c: Class, marks: map<nat, set<nat>>, b: nat, l: seq<nat>)
    requires 0 < c.sz && SweptWords(mem, mem', b, c.sz, c.step, MarksOf(marks, b), Objects(c.sz), true)
    requires AllClear(mem, c.sz, l) && forall x :: x in l ==> ApartFrom(x, c.sz, b)
    ensures AllClear(mem', c.sz, UnmarkedIn(c, marks, b) + l)
  {
    var n, u, m := Objects(c.sz), UnmarkedIn(c, marks, b), MarksOf(marks, b);
    UnmarkedElems(b, c.sz, c.step, m, n);
    EndOfObjects(b, c.sz);
    forall x | x in u ensures ClearObject(mem', x, c.sz) {
      var i: nat :| i < n && !Marked(m, c.step, i) && Obj(b, c.sz, i) == x;
      forall w: nat | x < w < x + c.sz && w < |mem'| ensures mem'[w] == 0 {
        assert Word(mem, mem', Obj(b, c.sz, i), w - x, Marked(m, c.step, i), true);
      }
    }
    forall x | x in l ensures ClearObject(mem', x, c.sz) {
      assert ClearObject(mem, x, c.sz) && ApartFrom(x, c.sz, b);
    }
  }

  lemma EndOfObjects(b: nat, sz: nat)
    requires 0 < sz
    ensures Obj(b, sz, Objects(sz)) <= b + BLOCK_WORDS
  {
    var n := Objects(sz);
    if n > 0 {
      LastObject(b, sz, n - 1);
    }
  }

  lemma {:induction false} GivesApart(c: Class, marks: map<nat, set<nat>>, b: nat, pending: seq<nat>, l: seq<nat>)
    requires 0 < c.sz && AllApart(c.sz, l, pending) && forall i :: 0 <= i < |pending| ==> Far(b, pending[i])
    ensures AllApart(c.sz, UnmarkedIn(c, marks, b) + l, pending)
  {
    UnmarkedElems(b, c.sz, c.step, MarksOf(marks, b), Objects(c.sz));
    EndOfObjects(b, c.sz);
  }

  /** A block is given back whole, queued for the sweep, or not worth salvaging. */
  datatype Fate = Emptied | Queued | Left

  /** GC_block_nearly_full, the count of marks being exact. */
  predicate NearlyFull(c: Class, marks: map<nat, set<nat>>, b: nat)
    requires c.sz > 0
  {
    |MarksOf(marks, b)| > Objects(c.sz) * 7 / 8
  }

  function FateOf(c: Class, marks: map<nat, set<nat>>, findLeak: bool, b: nat): Fate
    requires c.sz > 0
  {
    if |MarksOf(marks, b)| == 0 then Emptied
    else if findLeak || !NearlyFull(c, marks, b) then Queued
    else Left
  }

  /** The blocks with this fate, last to first. */
  function WithFate(c: Class, marks: map<nat, set<nat>>, findLeak: bool, f: Fate, blocks: seq<nat>): seq<nat>
    requires c.sz > 0
  {
    if blocks == [] then []
    else
      var b, rest := blocks[|blocks| - 1], WithFate(c, marks, findLeak, f, blocks[..|blocks| - 1]);
      if FateOf(c, marks, findLeak, b) == f then [b] + rest else rest
  }

  lemma {:induction false} WithFateElems(c: Class, marks: map<nat, set<nat>>, findLeak: bool, f: Fate, blocks: seq<nat>)
    requires c.sz > 0
    ensures forall b :: b in WithFate(c, marks, findLeak, f, blocks) <==> b in blocks && FateOf(c, marks, findLeak, b) == f
  {
    if blocks != [] {
      WithFateElems(c, marks, findLeak, f, blocks[..|blocks| - 1]);
      assert blocks == blocks[..|blocks| - 1] + [blocks[|blocks| - 1]];
    }
  }

  lemma {:induction false} WithFateApart(c: Class, marks: map<nat, set<nat>>, findLeak: bool, f: Fate, blocks: seq<nat>)
    requires c.sz > 0 && AllFar(blocks)
    ensures forall b :: b in WithFate(c, marks, findLeak, f, blocks) ==> b in blocks
    ensures AllFar(WithFate(c, marks, findLeak, f, blocks))
  {
    WithFateElems(c, marks, findLeak, f, blocks);
    if blocks != [] {
      var front, b := blocks[..|blocks| - 1], blocks[|blocks| - 1];
      WithFateApart(c, marks, findLeak, f, front);
      var q', q := WithFate(c, marks, findLeak, f, front), WithFate(c, marks, findLeak, f, blocks);
      if FateOf(c, marks, findLeak, b) == f {
        forall i, j | 0 <= i < j < |q| ensures Far(q[i], q[j]) {
          assert q[j] == q'[j - 1] && q'[j - 1] in q';
          if i == 0 {
            var k :| 0 <= k < |front| && front[k] == q[j];
            assert blocks[k] == q[j] && Far(blocks[k], blocks[|blocks| - 1]);
          } else {
            assert q[i] == q'[i - 1] && Far(q'[i - 1], q'[j - 1]);
          }
        }
      }
    }
  }

  /** After the start of a sweep, an unmarked object of a block that was neither given back nor
      judged not worth salvaging is in the pool; a marked one is not. */
  lemma {:induction false} SweepMissesOnlyLeft(c: Class, marks: map<nat, set<nat>>, findLeak: bool, blocks: seq<nat>, b: nat, i: nat)
    requires 0 < c.sz && b in blocks && FateOf(c, marks, findLeak, b) == Queued && i < Objects(c.sz)
    requires AllFar(blocks)
    ensures Obj(b, c.sz, i) in Yield(c, marks, WithFate(c, marks, findLeak, Queued, blocks))
       <==> !Marked(MarksOf(marks, b), c.step, i)
  {
    var q, x := WithFate(c, marks, findLeak, Queued, blocks), Obj(b, c.sz, i);
    WithFateElems(c, marks, findLeak, Queued, blocks);
    WithFateApart(c, marks, findLeak, Queued, blocks);
    LastObject(b, c.sz, i);
    ObjIs(b, c.sz, i);
    var k :| 0 <= k < |q| && q[k] == b;
    YieldElems(c, marks, q, k, x);
    InUnmarked(b, c.sz, c.step, MarksOf(marks, b), Objects(c.sz), i);
  }

  lemma {:induction false} InUnmarked(base: nat, sz: nat, step: nat, marks: set<nat>, n: nat, i: nat)
    requires sz > 0 && i < n
    ensures Obj(base, sz, i) in Unmarked(base, sz, step, marks, n) <==> !Marked(marks, step, i)
    decreases n
  {
    if i < n - 1 {
      InUnmarked(base, sz, step, marks, n - 1, i);
      ObjOrder(base, sz, i, n - 1);
    } else {
      NotYetUnmarked(base, sz, step, marks, n - 1);
    }
  }

  /** The mark bits of the first n objects. */
  ghost function Bits(step: nat, n: nat): set<nat> {
    set i: nat | i < n :: Obj(0, step, i)
  }

  lemma {:induction false} BitsNext(step: nat, n: nat)
    requires step > 0
    ensures Bits(step, n + 1) == Bits(step, n) + {Obj(0, step, n)} && Obj(0, step, n) !in Bits(step, n)
  {
    forall i: nat | i < n ensures Obj(0, step, i) != Obj(0, step, n) {
      ObjOrder(0, step, i, n);
    }
  }

  /** Objects are marked or unmarked. */
  lemma {:induction false} UnmarkedCount(base: nat, sz: nat, step: nat, marks: set<nat>, n: nat)
    requires step > 0
    ensures |Unmarked(base, sz, step, marks, n)| + |marks * Bits(step, n)| == n
  {
    if n == 0 {
      assert Bits(step, n) == {};
    } else {
      var x := Obj(0, step, n - 1);
      UnmarkedCount(base, sz, step, marks, n - 1);
      BitsNext(step, n - 1);
      MeetNext(marks, Bits(step, n - 1), x);
    }
  }

  lemma MeetNext(marks: set<nat>, bits: set<nat>, x: nat)
    requires x !in bits
    ensures |marks * (bits + {x})| == |marks * bits| + if x in marks then 1 else 0
  {
    assert marks * (bits + {x}) == if x in marks then marks * bits + {x} else marks * bits;
  }

  /** What is left unswept: blocks of which some objects are marked, but fewer than an eighth are
      not.  When leaks are to be found, none is left. */
  lemma {:induction false} LeftIsNearlyFull(c: Class, marks: map<nat, set<nat>>, findLeak: bool, b: nat)
    requires 0 < c.sz && 0 < c.step && MarksOf(marks, b) <= Bits(c.step, Objects(c.sz))
    ensures FateOf(c, marks, findLeak, b) == Left <==>
              !findLeak && 8 * |UnmarkedIn(c, marks, b)| < Objects(c.sz) && MarksOf(marks, b) != {}
    ensures FateOf(c, marks, findLeak, b) == Emptied <==> |UnmarkedIn(c, marks, b)| == Objects(c.sz)
  {
    UnmarkedCount(b, c.sz, c.step, MarksOf(marks, b), Objects(c.sz));
    assert MarksOf(marks, b) * Bits(c.step, Objects(c.sz)) == MarksOf(marks, b);
  }

  lemma {:induction false} NotYetUnmarked(base: nat, sz: nat, step: nat, marks: set<nat>, n: nat)
    requires sz > 0
    ensures Obj(base, sz, n) !in Unmarked(base, sz, step, marks, n)
  {
    UnmarkedElems(base, sz, step, marks, n);
  }

  /** An object inside the k-th of some separate blocks is among what they give exactly when
      that block gives it. */
  lemma {:induction false} YieldElems(c: Class, marks: map<nat, set<nat>>, q: seq<nat>, k: nat, x: nat)
    requires 0 < c.sz && k < |q| && !NotIn(x, q[k])
    requires AllFar(q)
    ensures x in Yield(c, marks, q) <==> x in UnmarkedIn(c, marks, q[k])
    decreases k
  {
    if k > 0 {
      YieldElems(c, marks, q[1..], k - 1, x);
      assert Far(q[0], q[k]);
      GivesInside(c, marks, q[0], x);
    } else {
      forall j | 0 < j < |q| ensures NotIn(x, q[j]) {
        assert Far(q[0], q[j]);
      }
      NoneGives(c, marks, q[1..], x);
    }
  }

  lemma {:induction false} GivesInside(c: Class, marks: map<nat, set<nat>>, b: nat, x: nat)
    requires 0 < c.sz
    ensures x in UnmarkedIn(c, marks, b) ==> !NotIn(x, b)
  {
    var n := Objects(c.sz);
    UnmarkedElems(b, c.sz, c.step, MarksOf(marks, b), n);
    if n > 0 {
      LastObject(b, c.sz, n - 1);
    }
  }

  lemma {:induction false} NoneGives(c: Class, marks: map<nat, set<nat>>, q: seq<nat>, x: nat)
    requires 0 < c.sz && forall j :: 0 <= j < |q| ==> NotIn(x, q[j])
    ensures x !in Yield(c, marks, q)
    decreases |q|
  {
    if q != [] {
      NoneGives(c, marks, q[1..], x);
      GivesInside(c, marks, q[0], x);
      assert NotIn(x, q[0]);
    }
  }

  predicate Far(a: nat, b: nat) {
    a + BLOCK_WORDS <= b || b + BLOCK_WORDS <= a
  }

  ghost predicate AllFar(q: seq<nat>) {
    forall i, j :: 0 <= i < j < |q| ==> Far(q[i], q[j])
  }

  predicate NotIn(x: nat, b: nat) {
    x < b || b + BLOCK_WORDS <= x
  }

  lemma TakeFirst(y: seq<nat>, l: seq<nat>)
    requires l != []
    ensures l[0] in y + l && multiset(y + l[1..]) + multiset{l[0]} == multiset(y + l)
    ensures forall x :: x in l[1..] ==> x in l
  {
    assert l == [l[0]] + l[1..];
  }

  lemma {:induction false} SumAdd(sz: nat, a: nat, b: nat)
    ensures Sum(sz, a + b) == Sum(sz, a) + Sum(sz, b)
  {
    if a > 0 {
      SumAdd(sz, a - 1, b);
    }
  }

  /** Sweeping the first block frees nothing in the others. */
  lemma NextPending(pending: seq<nat>, free: seq<nat>, c: Class, marks: map<nat, set<nat>>)
    requires c.sz > 0 && pending != []
    requires AllFar(pending)
    requires forall i, x :: 0 <= i < |pending| && x in free ==> NotIn(x, pending[i])
    ensures forall x :: x in free ==> x < pending[0] || pending[0] + BLOCK_WORDS <= x
    ensures forall i, x :: 0 < i < |pending| && x in UnmarkedIn(c, marks, pending[0]) + free ==> NotIn(x, pending[i])
  {
    var b, n := pending[0], Objects(c.sz);
    UnmarkedElems(b, c.sz, c.step, MarksOf(marks, b), n);
    if n > 0 {
      LastObject(b, c.sz, n - 1);
    }
    forall x | x in free ensures NotIn(x, b) {
      assert NotIn(x, pending[0]);
    }
    forall i, x | 0 < i < |pending| && x in UnmarkedIn(c, marks, b) + free ensures NotIn(x, pending[i]) {
      assert Far(pending[0], pending[i]);
    }
  }

  lemma {:induction false} YieldSplit(c: Class, marks: map<nat, set<nat>>, blocks: seq<nat>, n: nat)
    requires c.sz > 0 && n <= |blocks|
    ensures Yield(c, marks, blocks) == Yield(c, marks, blocks[n..]) + Yield(c, marks, blocks[..n])
    decreases n
  {
    if n == 0 {
      assert blocks[n..] == blocks && blocks[..n] == [];
    } else {
      YieldSplit(c, marks, blocks[1..], n - 1);
      assert blocks[1..][n - 1..] == blocks[n..];
      assert blocks[..n][1..] == blocks[1..][..n - 1];
    }
  }

  lemma {:induction false} DueStep(c: Class, marks: map<nat, set<nat>>, pending: seq<nat>)
    requires c.sz > 0 && pending != []
    ensures Sum(c.sz, |Yield(c, marks, pending)|)
         == Sum(c.sz, |Yield(c, marks, pending[1..])|) + Sum(c.sz, |UnmarkedIn(c, marks, pending[0])|)
  {
    var y, u := Yield(c, marks, pending[1..]), UnmarkedIn(c, marks, pending[0]);
    YieldStep(c, marks, pending, y, u);
    SumAdd(c.sz, |y|, |u|);
  }

  lemma {:induction false} YieldStep(c: Class, marks: map<nat, set<nat>>, pending: seq<nat>, y: seq<nat>, u: seq<nat>)
    requires c.sz > 0 && pending != []
    requires y == Yield(c, marks, pending[1..]) && u == UnmarkedIn(c, marks, pending[0])
    ensures Yield(c, marks, pending) == y + u
  {
  }

  lemma {:induction false} FreeIs(c: Class, marks: map<nat, set<nat>>, blocks: seq<nat>, n: nat, f0: seq<nat>, f: seq<nat>)
    requires c.sz > 0 && n <= |blocks|
    requires Yield(c, marks, blocks[n..]) + f == Yield(c, marks, blocks) + f0
    ensures f == Yield(c, marks, blocks[..n]) + f0
  {
    YieldSplit(c, marks, blocks, n);
    var a, b := Yield(c, marks, blocks[n..]), Yield(c, marks, blocks[..n]);
    assert (a + f)[|a|..] == f;
    assert ((a + b) + f0)[|a|..] == b + f0;
  }
}
