/** Free lists of small objects, linked through the first word of each object.  Memory is
    addressed in words; 0 is the null pointer. */
module ObjectLists {

  /** HBLKSIZE in words. */
  const BLOCK_WORDS: nat := 512

  /** p is the head of a list of exactly the objects l. */
  ghost predicate IsList(mem: seq<nat>, p: nat, l: seq<nat>)
    decreases |l|
  {
    if l == [] then p == 0
    else p == l[0] && 0 < p < |mem| && IsList(mem, mem[p], l[1..])
  }

  lemma {:induction false} ListFrame(mem: seq<nat>, mem': seq<nat>, p: nat, l: seq<nat>)
    requires IsList(mem, p, l) && |mem'| == |mem|
    requires forall x :: x in l && x < |mem| ==> mem'[x] == mem[x]
    ensures IsList(mem', p, l)
    decreases |l|
  {
    if l != [] {
      assert forall x :: x in l[1..] ==> x in l;
      ListFrame(mem, mem', mem[p], l[1..]);
    }
  }

  lemma {:induction false} ListInside(mem: seq<nat>, p: nat, l: seq<nat>)
    requires IsList(mem, p, l)
    ensures forall x :: x in l ==> 0 < x < |mem|
    decreases |l|
  {
    if l != [] {
      ListInside(mem, mem[p], l[1..]);
      assert l == [l[0]] + l[1..];
    }
  }

  /** A list that ends does not meet itself. */
  lemma {:induction false} ListNoDup(mem: seq<nat>, p: nat, l: seq<nat>)
    requires IsList(mem, p, l)
    ensures forall i, j :: 0 <= i < j < |l| ==> l[i] != l[j]
    decreases |l|
  {
    if l != [] {
      ListNoDup(mem, mem[p], l[1..]);
      forall j | 0 < j < |l| ensures l[0] != l[j] {
        ListTail(mem, p, l, j);
        if l[0] == l[j] {
          SameLength(mem, p, l, l[j..]);
        }
      }
    }
  }

  lemma {:induction false} ListTail(mem: seq<nat>, p: nat, l: seq<nat>, j: nat)
    requires IsList(mem, p, l) && j < |l|
    ensures IsList(mem, l[j], l[j..])
    decreases j
  {
    if j > 0 {
      ListTail(mem, mem[p], l[1..], j - 1);
      assert l[1..][j - 1..] == l[j..];
    } else {
      assert l[0..] == l;
    }
  }

  lemma {:induction false} SameLength(mem: seq<nat>, p: nat, a: seq<nat>, b: seq<nat>)
    requires IsList(mem, p, a) && IsList(mem, p, b)
    ensures |a| == |b|
    decreases |a|
  {
    if a != [] {
      SameLength(mem, mem[p], a[1..], b[1..]);
    }
  }

  /** The address of the i-th object of sz words from base. */
  function Obj(base: nat, sz: nat, i: nat): nat {
    if i == 0 then base else Obj(base, sz, i - 1) + sz
  }

  lemma {:induction false} ObjIs(base: nat, sz: nat, i: nat)
    ensures Obj(base, sz, i) == base + i * sz
  {
    if i > 0 {
      ObjIs(base, sz, i - 1);
      assert i * sz == (i - 1) * sz + sz;
    }
  }

  lemma {:induction false} ObjOrder(base: nat, sz: nat, i: nat, j: nat)
    requires i < j
    ensures Obj(base, sz, i) + sz <= Obj(base, sz, j)
    decreases j
  {
    if i < j - 1 {
      ObjOrder(base, sz, i, j - 1);
    }
  }

  /** HBLK_OBJS: the objects of sz words that a block holds. */
  function Objects(sz: nat): nat
    requires sz > 0
  {
    BLOCK_WORDS / sz
  }

  lemma MulMono(a: nat, b: nat, c: nat)
    requires a <= b
    ensures a * c <= b * c
  {
    assert b * c - a * c == (b - a) * c;
  }

  /** The loops over a block stop after its last object. */
  lemma {:induction false} LastObject(base: nat, sz: nat, i: nat)
    requires 0 < sz
    ensures Obj(base, sz, i) + sz <= base + BLOCK_WORDS <==> i < Objects(sz)
  {
    var n := Objects(sz);
    DivParts(sz);
    ObjIs(base, sz, i + 1);
    if i < n {
      MulMono(i + 1, n, sz);
    } else {
      MulMono(n + 1, i + 1, sz);
    }
  }

  lemma DivParts(sz: nat)
    requires 0 < sz
    ensures Objects(sz) * sz <= BLOCK_WORDS < (Objects(sz) + 1) * sz
  {
    var n, r := BLOCK_WORDS / sz, BLOCK_WORDS % sz;
    assert BLOCK_WORDS == n * sz + r;
    assert (n + 1) * sz == n * sz + sz;
  }

  /** The first n objects, last to first. */
  function Down(base: nat, sz: nat, n: nat): seq<nat> {
    if n == 0 then [] else [Obj(base, sz, n - 1)] + Down(base, sz, n - 1)
  }

  lemma {:induction false} DownElems(base: nat, sz: nat, n: nat)
    ensures |Down(base, sz, n)| == n
    ensures forall k: nat :: k < n ==> Down(base, sz, n)[k] == Obj(base, sz, n - 1 - k)
  {
    if n > 0 {
      DownElems(base, sz, n - 1);
    }
  }
}
