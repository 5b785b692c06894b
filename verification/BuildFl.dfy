/** Building the free list of a new block, by the general loop and by the loops for objects of
    two and four words. */
module BuildFl {
  import opened ObjectLists

  /** Each of the first n objects links to the one before it, the first to the old list. */
  ghost predicate LinkedDown(mem: seq<nat>, base: nat, sz: nat, n: nat, list: nat) {
    && (forall i: nat :: i < n ==> Obj(base, sz, i) < |mem|)
    && (n > 0 ==> mem[Obj(base, sz, 0)] == list)
    && (forall i: nat, j: nat :: i < j < n && j == i + 1 ==> mem[Obj(base, sz, j)] == Obj(base, sz, i))
  }

  lemma {:induction false} LinkedIsList(mem: seq<nat>, base: nat, sz: nat, n: nat, list: nat, l: seq<nat>)
    requires base > 0 && LinkedDown(mem, base, sz, n, list) && IsList(mem, list, l)
    ensures IsList(mem, if n == 0 then list else Obj(base, sz, n - 1), Down(base, sz, n) + l)
  {
    if n == 0 {
      assert Down(base, sz, n) + l == l;
    } else {
      LinkedIsList(mem, base, sz, n - 1, list, l);
      assert (Down(base, sz, n) + l)[1..] == Down(base, sz, n - 1) + l;
      ObjIs(base, sz, n - 1);
      if n > 1 {
        assert mem[Obj(base, sz, n - 1)] == Obj(base, sz, n - 2);
      }
    }
  }

  predicate IsStart(base: nat, sz: nat, n: nat, w: nat) {
    exists i: nat :: i < n && Obj(base, sz, i) == w
  }

  /** What every builder does to memory: the block's objects are linked last to first in front
      of the old list; of the other words of the block, all are null if it was to be cleared
      and none has changed if not; nothing outside the block has changed. */
  ghost predicate Built(mem: seq<nat>, mem': seq<nat>, base: nat, sz: nat, clear: bool, list: nat, r: nat)
    requires sz > 0
  {
    var n := Objects(sz);
    && |mem'| == |mem|
    && n > 0 && LinkedDown(mem', base, sz, n, list) && r == Obj(base, sz, n - 1)
    && (forall w: nat :: base <= w < base + BLOCK_WORDS && w < |mem| && !IsStart(base, sz, n, w) ==>
          mem'[w] == if clear then 0 else mem[w])
    && (forall w: nat :: w < |mem| && !(base <= w < base + BLOCK_WORDS) ==> mem'[w] == mem[w])
  }

  /** The result heads a list of every object of the block, once, and then the old list. */
  lemma {:induction false} BuiltIsList(mem: seq<nat>, mem': seq<nat>, base: nat, sz: nat, clear: bool, list: nat, r: nat, l: seq<nat>)
    requires sz > 0 && base > 0 && Built(mem, mem', base, sz, clear, list, r)
    requires IsList(mem, list, l) && forall x :: x in l ==> x < base || base + BLOCK_WORDS <= x
    ensures IsList(mem', r, Down(base, sz, Objects(sz)) + l)
  {
    ListFrame(mem, mem', list, l);
    LinkedIsList(mem', base, sz, Objects(sz), list, l);
  }

  /** Two builders that meet this leave the same memory, word for word. */
  lemma {:induction false} BuildersAgree(mem: seq<nat>, mem1: seq<nat>, mem2: seq<nat>, base: nat, sz: nat, clear: bool, list: nat, r1: nat, r2: nat)
    requires sz > 0 && Built(mem, mem1, base, sz, clear, list, r1) && Built(mem, mem2, base, sz, clear, list, r2)
    ensures r1 == r2 && mem1 == mem2
  {
    forall w: nat | w < |mem| ensures mem1[w] == mem2[w] {
      if IsStart(base, sz, Objects(sz), w) {
        var i: nat :| i < Objects(sz) && Obj(base, sz, i) == w;
        if i > 0 {
          assert mem1[Obj(base, sz, i)] == Obj(base, sz, i - 1) && mem2[Obj(base, sz, i)] == Obj(base, sz, i - 1);
        }
      }
    }
  }

  /** GC_build_fl for other sizes. */
  method BuildGeneral(mem: array<nat>, h: nat, list: nat, sz: nat, clear: bool) returns (r: nat)
    requires 0 < sz <= BLOCK_WORDS && h + BLOCK_WORDS <= mem.Length
    modifies mem
    ensures Built(old(mem[..]), mem[..], h, sz, clear, list, r)
  {
    // all words null first, where they have to be
    if clear {
      Clear(mem, h, BLOCK_WORDS);
    }
    ghost var cleared := mem[..];
    // p is the second object, prev the first
    var prev := h; // the object before p
    var plim := h + BLOCK_WORDS - sz;
    // each object links to the one before it
    var p := prev + sz;
    ghost var i := 1;
    LastObject(h, sz, 0);
    while p <= plim
      invariant 1 <= i <= Objects(sz) && p == Obj(h, sz, i) && prev == Obj(h, sz, i - 1)
      invariant Linking(cleared, mem[..], h, sz, i)
    {
      LastObject(h, sz, i);
      LinkOne(cleared, mem[..], h, sz, i);
      mem[p] := prev;
      prev := p;
      p := p + sz;
      i := i + 1;
    }
    LastObject(h, sz, i);
    p := p - sz;
    // p has gone one object too far
    Finish(old(mem[..]), cleared, mem[..], h, sz, clear, list);
    mem[h] := list;
    r := p;
  }

  lemma {:induction false} Finish(mem: seq<nat>, cleared: seq<nat>, mem': seq<nat>, base: nat, sz: nat, clear: bool, list: nat)
    requires 0 < sz <= BLOCK_WORDS && base + BLOCK_WORDS <= |mem| && |cleared| == |mem|
    requires forall w: nat :: w < |mem| ==> cleared[w] == if clear && base <= w < base + BLOCK_WORDS then 0 else mem[w]
    requires Objects(sz) > 0 && Linking(cleared, mem', base, sz, Objects(sz))
    ensures Built(mem, mem'[base := list], base, sz, clear, list, Obj(base, sz, Objects(sz) - 1))
  {
    var n := Objects(sz);
    LinkFirst(cleared, mem', base, sz, n, list);
    forall w: nat | w < |mem| && !(base <= w < base + BLOCK_WORDS) ensures !IsStart(base, sz, n, w) {
      StartsInside(base, sz, w);
    }
  }

  lemma {:induction false} StartsInside(base: nat, sz: nat, w: nat)
    requires sz > 0 && !(base <= w < base + BLOCK_WORDS)
    ensures !IsStart(base, sz, Objects(sz), w)
  {
    forall i: nat | i < Objects(sz) ensures Obj(base, sz, i) != w {
      LastObject(base, sz, i);
      ObjIs(base, sz, i);
    }
  }

  method Clear(mem: array<nat>, h: nat, n: nat)
    requires h + n <= mem.Length
    modifies mem
    ensures forall w: nat :: w < mem.Length ==> mem[w] == if h <= w < h + n then 0 else old(mem[w])
  {
    var w := h;
    while w < h + n
      invariant h <= w <= h + n
      invariant forall x: nat :: x < mem.Length ==> mem[x] == if h <= x < w then 0 else old(mem[x])
    {
      mem[w] := 0;
      w := w + 1;
    }
  }

  /** The links of the objects before i are in place, but for the first; nothing else has changed. */
  ghost predicate Linking(mem: seq<nat>, mem': seq<nat>, base: nat, sz: nat, n: nat) {
    && |mem'| == |mem|
    && (forall i: nat :: i < n ==> Obj(base, sz, i) < |mem|)
    && (forall i: nat, j: nat :: i < j < n && j == i + 1 ==> mem'[Obj(base, sz, j)] == Obj(base, sz, i))
    && (forall w: nat :: w < |mem| && !IsStart(base, sz, n, w) ==> mem'[w] == mem[w])
  }

  lemma {:induction false} LinkOne(mem: seq<nat>, mem': seq<nat>, base: nat, sz: nat, n: nat)
    requires Linking(mem, mem', base, sz, n) && n > 0 && sz > 0 && Obj(base, sz, n) < |mem|
    ensures Linking(mem, mem'[Obj(base, sz, n) := Obj(base, sz, n - 1)], base, sz, n + 1)
  {
    var m := mem'[Obj(base, sz, n) := Obj(base, sz, n - 1)];
    forall i: nat | i < n ensures Obj(base, sz, i) < Obj(base, sz, n) {
      ObjOrder(base, sz, i, n);
    }
    forall w: nat | w < |mem| && !IsStart(base, sz, n + 1, w) ensures m[w] == mem[w] {
      assert w != Obj(base, sz, n);
      assert !IsStart(base, sz, n, w);
    }
  }

  lemma {:induction false} LinkFirst(mem: seq<nat>, mem': seq<nat>, base: nat, sz: nat, n: nat, list: nat)
    requires Linking(mem, mem', base, sz, n) && n > 0 && sz > 0 && base < |mem'|
    ensures LinkedDown(mem'[base := list], base, sz, n, list)
    ensures forall w: nat :: w < |mem| && !IsStart(base, sz, n, w) ==> mem'[base := list][w] == mem[w]
  {
    forall i: nat | 0 < i < n ensures base < Obj(base, sz, i) {
      ObjOrder(base, sz, 0, i);
    }
    assert Obj(base, sz, 0) == base;
    assert IsStart(base, sz, n, base);
  }

  // ---- The loops for two and four words.

  /** What a word of the part dealt with holds. */
  predicate FillWord(mem: seq<nat>, mem': seq<nat>, base: nat, sz: nat, clear: bool, list: nat, w: nat)
    requires sz > 0 && base <= w < |mem| && |mem'| == |mem|
  {
    mem'[w] == if (w - base) % sz == 0 then (if w == base then list else w - sz) else if clear then 0 else mem[w]
  }

  /** The block has been dealt with up to the address `upto`. */
  ghost predicate Filled(mem: seq<nat>, mem': seq<nat>, base: nat, sz: nat, clear: bool, list: nat, upto: nat)
    requires sz > 0
  {
    && |mem'| == |mem|
    && (forall w: nat {:trigger mem'[w]} :: base <= w < upto && w < |mem| ==> FillWord(mem, mem', base, sz, clear, list, w))
    && (forall w: nat :: w < |mem| && !(base <= w < upto) ==> mem'[w] == mem[w])
  }

  /** Remainders of the addresses after a multiple of the stride. */
  lemma {:induction false} Around(x: nat)
    requires x % 4 == 0
    ensures x % 2 == 0 && (x + 1) % 2 == 1 && (x + 2) % 2 == 0 && (x + 3) % 2 == 1
    ensures (x + 1) % 4 == 1 && (x + 2) % 4 == 2 && (x + 3) % 4 == 3 && (x + 4) % 4 == 0
  {
    var t := x / 4;
    assert x == 4 * t && x == 2 * (2 * t);
  }

  lemma {:induction false} EightIsFour(x: nat)
    requires x % 8 == 0
    ensures x % 4 == 0 && (x + 4) % 4 == 0 && (x + 8) % 8 == 0
  {
    var t := x / 8;
    assert x == 8 * t && x == 4 * (2 * t);
  }

  lemma {:induction false} FillMore(mem: seq<nat>, mem1: seq<nat>, mem2: seq<nat>, base: nat, sz: nat, clear: bool, list: nat, p: nat, n: nat)
    requires (sz == 2 || sz == 4) && base <= p && p + n <= |mem| && |mem2| == |mem|
    requires Filled(mem, mem1, base, sz, clear, list, p)
    requires forall w: nat :: p <= w < p + n ==> FillWord(mem, mem2, base, sz, clear, list, w)
    requires forall w: nat :: w < |mem| && !(p <= w < p + n) ==> mem2[w] == mem1[w]
    ensures Filled(mem, mem2, base, sz, clear, list, p + n)
  {
    forall w: nat | base <= w < p + n ensures FillWord(mem, mem2, base, sz, clear, list, w) {
      if w < p {
        assert mem2[w] == mem1[w];
      }
    }
  }

  /** With objects of two or four words, the starts are the multiples of the size. */
  lemma {:induction false} StartsAre(base: nat, sz: nat, w: nat)
    requires (sz == 2 || sz == 4) && base <= w < base + BLOCK_WORDS
    ensures IsStart(base, sz, Objects(sz), w) <==> (w - base) % sz == 0
  {
    if IsStart(base, sz, Objects(sz), w) {
      var i: nat :| i < Objects(sz) && Obj(base, sz, i) == w;
      ObjIs(base, sz, i);
    }
    if (w - base) % sz == 0 {
      var i := (w - base) / sz;
      ObjIs(base, sz, i);
      assert Obj(base, sz, i) == w;
    }
  }

  lemma {:induction false} StartAligned(base: nat, sz: nat, i: nat)
    requires (sz == 2 || sz == 4) && i < Objects(sz)
    ensures base <= Obj(base, sz, i) < base + BLOCK_WORDS && (Obj(base, sz, i) - base) % sz == 0
  {
    ObjIs(base, sz, i);
    if sz == 2 {
      assert Obj(base, sz, i) - base == 2 * i;
    } else {
      assert Obj(base, sz, i) - base == 4 * i;
    }
  }

  lemma {:induction false} FilledIsLinked(mem: seq<nat>, mem': seq<nat>, base: nat, sz: nat, clear: bool, list: nat)
    requires sz == 2 || sz == 4
    requires base + BLOCK_WORDS <= |mem| && Filled(mem, mem', base, sz, clear, list, base + BLOCK_WORDS)
    ensures LinkedDown(mem', base, sz, Objects(sz), list)
  {
    forall i: nat | i < Objects(sz) ensures Obj(base, sz, i) < |mem| {
      StartAligned(base, sz, i);
    }
    forall i: nat, j: nat | i < j < Objects(sz) && j == i + 1 ensures mem'[Obj(base, sz, j)] == Obj(base, sz, i) {
      StartAligned(base, sz, j);
      ObjOrder(base, sz, 0, j);
      assert Obj(base, sz, j) == Obj(base, sz, i) + sz;
    }
  }

  lemma {:induction false} FilledIsBuilt(mem: seq<nat>, mem': seq<nat>, base: nat, sz: nat, clear: bool, list: nat)
    requires sz == 2 || sz == 4
    requires base + BLOCK_WORDS <= |mem| && Filled(mem, mem', base, sz, clear, list, base + BLOCK_WORDS)
    ensures Built(mem, mem', base, sz, clear, list, base + BLOCK_WORDS - sz)
  {
    FilledIsLinked(mem, mem', base, sz, clear, list);
    forall w: nat | base <= w < base + BLOCK_WORDS && !IsStart(base, sz, Objects(sz), w) ensures (w - base) % sz != 0 {
      StartsAre(base, sz, w);
    }
    ObjIs(base, sz, Objects(sz) - 1);
  }

  /** GC_build_fl_clear2. */
  method BuildClear2(mem: array<nat>, h: nat, ofl: nat) returns (r: nat)
    requires h + BLOCK_WORDS <= mem.Length
    modifies mem
    ensures Built(old(mem[..]), mem[..], h, 2, true, ofl, r)
  {
    var p, plim := h, h + BLOCK_WORDS;
    ghost var m0 := mem[..];
    mem[p], mem[p + 1], mem[p + 2], mem[p + 3] := ofl, 0, p, 0;
    FillMore(old(mem[..]), m0, mem[..], h, 2, true, ofl, p, 4);
    p := p + 4;
    while p < plim
      invariant h + 4 <= p <= plim && (p - h) % 4 == 0
      invariant Filled(old(mem[..]), mem[..], h, 2, true, ofl, p)
    {
      Around(p - h);
      ghost var m := mem[..];
      mem[p], mem[p + 1], mem[p + 2], mem[p + 3] := p - 2, 0, p, 0;
      FillMore(old(mem[..]), m, mem[..], h, 2, true, ofl, p, 4);
      p := p + 4;
    }
    FilledIsBuilt(old(mem[..]), mem[..], h, 2, true, ofl);
    return p - 2;
  }

  /** GC_build_fl2. */
  method Build2(mem: array<nat>, h: nat, ofl: nat) returns (r: nat)
    requires h + BLOCK_WORDS <= mem.Length
    modifies mem
    ensures Built(old(mem[..]), mem[..], h, 2, false, ofl, r)
  {
    var p, plim := h, h + BLOCK_WORDS;
    ghost var m0 := mem[..];
    mem[p], mem[p + 2] := ofl, p;
    FillMore(old(mem[..]), m0, mem[..], h, 2, false, ofl, p, 4);
    p := p + 4;
    while p < plim
      invariant h + 4 <= p <= plim && (p - h) % 4 == 0
      invariant Filled(old(mem[..]), mem[..], h, 2, false, ofl, p)
    {
      Around(p - h);
      ghost var m := mem[..];
      mem[p], mem[p + 2] := p - 2, p;
      FillMore(old(mem[..]), m, mem[..], h, 2, false, ofl, p, 4);
      p := p + 4;
    }
    FilledIsBuilt(old(mem[..]), mem[..], h, 2, false, ofl);
    return p - 2;
  }

  /** GC_build_fl_clear4. */
  method BuildClear4(mem: array<nat>, h: nat, ofl: nat) returns (r: nat)
    requires h + BLOCK_WORDS <= mem.Length
    modifies mem
    ensures Built(old(mem[..]), mem[..], h, 4, true, ofl, r)
  {
    var p, plim := h, h + BLOCK_WORDS;
    ghost var m0 := mem[..];
    mem[p], mem[p + 1], mem[p + 2], mem[p + 3] := ofl, 0, 0, 0;
    FillMore(old(mem[..]), m0, mem[..], h, 4, true, ofl, p, 4);
    p := p + 4;
    while p < plim
      invariant h + 4 <= p <= plim && (p - h) % 4 == 0
      invariant Filled(old(mem[..]), mem[..], h, 4, true, ofl, p)
    {
      Around(p - h);
      ghost var m := mem[..];
      mem[p], mem[p + 1], mem[p + 2], mem[p + 3] := p - 4, 0, 0, 0;
      FillMore(old(mem[..]), m, mem[..], h, 4, true, ofl, p, 4);
      p := p + 4;
    }
    FilledIsBuilt(old(mem[..]), mem[..], h, 4, true, ofl);
    return p - 4;
  }

  /** GC_build_fl4, unrolled by two. */
  method Build4(mem: array<nat>, h: nat, ofl: nat) returns (r: nat)
    requires h + BLOCK_WORDS <= mem.Length
    modifies mem
    ensures Built(old(mem[..]), mem[..], h, 4, false, ofl, r)
  {
    var p, plim := h, h + BLOCK_WORDS;
    ghost var m0 := mem[..];
    mem[p], mem[p + 4] := ofl, p;
    FillMore(old(mem[..]), m0, mem[..], h, 4, false, ofl, p, 8);
    p := p + 8;
    while p < plim
      invariant h + 8 <= p <= plim && (p - h) % 8 == 0
      invariant Filled(old(mem[..]), mem[..], h, 4, false, ofl, p)
    {
      EightIsFour(p - h);
      Around(p - h);
      Around(p + 4 - h);
      ghost var m := mem[..];
      mem[p], mem[p + 4] := p - 4, p;
      FillMore(old(mem[..]), m, mem[..], h, 4, false, ofl, p, 8);
      p := p + 8;
    }
    FilledIsBuilt(old(mem[..]), mem[..], h, 4, false, ofl);
    return p - 4;
  }

  /** GC_build_fl: the head of a list of every object of the block, last to first, followed
      by the old list. */
  method Build(mem: array<nat>, h: nat, list: nat, sz: nat, clear: bool, ghost l: seq<nat>) returns (r: nat)
    requires 0 < sz <= BLOCK_WORDS && 0 < h && h + BLOCK_WORDS <= mem.Length
    requires IsList(mem[..], list, l) && forall x :: x in l ==> x < h || h + BLOCK_WORDS <= x
    modifies mem
    ensures Built(old(mem[..]), mem[..], h, sz, clear, list, r)
    ensures IsList(mem[..], r, Down(h, sz, Objects(sz)) + l)
  {
    if sz == 2 {
      if clear {
        r := BuildClear2(mem, h, list);
      } else {
        r := Build2(mem, h, list);
      }
    } else if sz == 4 {
      if clear {
        r := BuildClear4(mem, h, list);
      } else {
        r := Build4(mem, h, list);
      }
    } else {
      r := BuildGeneral(mem, h, list, sz, clear);
    }
    BuiltIsList(old(mem[..]), mem[..], h, sz, clear, list, r, l);
  }
}
