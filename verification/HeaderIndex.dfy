/** The two-level header index: bottom tables of BOTTOM_SZ entries, linked in the order of
    their keys, and the walks over it. */
module HeaderIndex {
  import opened Basics
  import opened Tiling
  import opened FreeLists

  const BOTTOM_SZ: nat := 1024

  type Table = t: seq<Option<Entry>> | |t| == BOTTOM_SZ witness seq(BOTTOM_SZ, _ => None)

  ghost predicate Sorted(l: seq<nat>) {
    forall i, j :: 0 <= i < j < |l| ==> l[i] < l[j]
  }

  function Hi(a: nat): nat { a / BOTTOM_SZ }

  function Lo(a: nat): nat { a % BOTTOM_SZ }

  function Addr(k: nat, j: nat): nat { k * BOTTOM_SZ + j }

  lemma HiLo(a: nat)
    ensures Lo(a) < BOTTOM_SZ && Addr(Hi(a), Lo(a)) == a
  {
  }

  lemma AddrParts(k: nat, j: nat)
    requires j < BOTTOM_SZ
    ensures Hi(Addr(k, j)) == k && Lo(Addr(k, j)) == j
  {
  }

  /** HDR. */
  function Lookup(top: map<nat, Table>, a: nat): Option<Entry> {
    HiLo(a);
    if Hi(a) in top then top[Hi(a)][Lo(a)] else None
  }

  function Find(m: Hdrs, a: nat): Option<Entry> {
    if a in m then Some(m[a]) else None
  }

  /** The index holds exactly the entries of m. */
  ghost predicate Holds(top: map<nat, Table>, m: Hdrs) {
    forall a: nat :: Lookup(top, a) == Find(m, a)
  }

  function Last(l: seq<nat>): Option<nat> {
    if l == [] then None else Some(l[|l| - 1])
  }

  ghost predicate KeysOf(top: map<nat, Table>, keys: seq<nat>) {
    forall k: nat {:trigger k in keys} :: k in keys <==> k in top
  }

  /** The tables hold m and are linked in key order. */
  ghost predicate IndexOk(top: map<nat, Table>, asc: Link, desc: Link, first: Option<nat>, last: Option<nat>,
                          keys: seq<nat>, m: Hdrs) {
    && Holds(top, m)
    && Chained(first, asc, desc, keys) && last == Last(keys) && Sorted(keys)
    && KeysOf(top, keys)
  }

  class Index {
    var top: map<nat, Table>            // the bottom tables by key
    var asc: Link                       // asc_link
    var desc: Link                      // desc_link
    var first: Option<nat>              // GC_all_bottom_indices
    var last: Option<nat>               // GC_all_bottom_indices_end
    ghost var keys: seq<nat>
    ghost var hdrs: Hdrs

    ghost predicate Valid()
      reads this
    {
      IndexOk(top, asc, desc, first, last, keys, hdrs)
    }

    constructor ()
      ensures Valid() && hdrs == map[]
    {
      top, asc, desc := map[], map[], map[];
      first, last, keys, hdrs := None, None, [], map[];
    }

    /** get_index. */
    method GetIndex(hi: nat)
      requires Valid()
      modifies `top, `asc, `desc, `first, `last, `keys
      ensures Valid()
      ensures top.Keys == old(top).Keys + {hi}
    {
      if hi !in top {
        AddTable(hi);
      }
    }

    /** The loop of get_index: the tables just below and above the key. */
    method FindPlace(hi: nat) returns (pi: Option<nat>, p: Option<nat>, ghost i: nat)
      requires Chained(first, asc, desc, keys)
      ensures i <= |keys|
      ensures p == if i < |keys| then Some(keys[i]) else None
      ensures pi == if i > 0 then Some(keys[i - 1]) else None
      ensures (forall j :: 0 <= j < i ==> keys[j] < hi) && (i < |keys| ==> hi <= keys[i])
    {
      p, pi, i := first, None, 0;
      while p.Some? && p.value < hi
        invariant i <= |keys|
        invariant p == if i < |keys| then Some(keys[i]) else None
        invariant pi == if i > 0 then Some(keys[i - 1]) else None
        invariant forall j :: 0 <= j < i ==> keys[j] < hi
        decreases |keys| - i
      {
        Neighbours(first, asc, desc, keys, i);
        pi, p := p, At(asc, p.value);
        i := i + 1;
      }
    }

    /** The part of get_index that adds a bottom table, keeping the tables in key order. */
    method AddTable(hi: nat)
      requires Valid() && hi !in top
      modifies `top, `asc, `desc, `first, `last, `keys
      ensures Valid()
      ensures top.Keys == old(top).Keys + {hi}
    {
      var pi, p, i := FindPlace(hi);
      InsertOk(top, asc, desc, first, last, keys, hdrs, i, hi, pi, p);
      var top', asc', desc' :=
        top[hi := seq(BOTTOM_SZ, _ => None)], SetLink(asc[hi := p], pi, Some(hi)), SetLink(desc[hi := pi], p, Some(hi));
      var first', last' := if pi.None? then Some(hi) else first, if p.None? then Some(hi) else last;
      assert IndexOk(top', asc', desc', first', last', Inserted(keys, i, hi), hdrs);
      top, asc, desc, first, last, keys := top', asc', desc', first', last', Inserted(keys, i, hi);
    }

    /** SET_HDR; None stands for a nil entry. */
    method SetHdr(a: nat, e: Option<Entry>)
      requires Valid() && Hi(a) in top
      modifies `top, `hdrs
      ensures Valid()
      ensures hdrs == if e.Some? then old(hdrs)[a := e.value] else old(hdrs) - {a}
      ensures top.Keys == old(top).Keys
    {
      HiLo(a);
      ghost var m := if e.Some? then hdrs[a := e.value] else hdrs - {a};
      SetHolds(top, hdrs, a, e, m);
      top := top[Hi(a) := top[Hi(a)][Lo(a) := e]];
      hdrs := m;
    }

    /** The first loop of GC_install_counts: a bottom table for each of the n blocks from h. */
    method MakeTables(h: nat, n: nat)
      requires Valid() && n > 0
      modifies `top, `asc, `desc, `first, `last, `keys
      ensures Valid()
      ensures forall a: nat :: h <= a < h + n ==> Hi(a) in top
      ensures forall k: nat :: k in top && k !in old(top) ==> Hi(h) <= k <= Hi(h + n - 1)
    {
      ghost var t := 0;
      var p := h;
      while p < h + n
        invariant Valid()
        invariant p == h + t * BOTTOM_SZ && Hi(p) == Hi(h) + t
        invariant forall k: nat :: Hi(h) <= k < Hi(h) + t ==> k in top
        invariant forall k: nat :: k in top && k !in old(top) ==> Hi(h) <= k < Hi(p)
        invariant p >= h + n ==> Hi(p) <= Hi(h + n - 1) + 1
      {
        GetIndex(Hi(p));
        p := p + BOTTOM_SZ;
        t := t + 1;
      }
      GetIndex(Hi(h + n - 1));
    }

    /** The second loop of GC_install_counts. */
    method SetCounts(h: nat, n: nat)
      requires Valid() && n > 0
      requires forall a: nat :: h <= a < h + n ==> Hi(a) in top
      modifies `top, `hdrs
      ensures Valid() && hdrs == Counts(old(hdrs), h, n)
    {
      ghost var m, keys0 := hdrs, top.Keys;
      var i := 1;
      while i < n
        invariant 1 <= i <= n
        invariant Valid() && top.Keys == keys0
        invariant hdrs == Counts(m, h, i)
      {
        CountsStep(m, h, i);
        assert Hi(h + i) in keys0;
        SetHdr(h + i, Some(Fwd(if i > MAX_JUMP then MAX_JUMP else i)));
        i := i + 1;
      }
    }

    /** GC_install_counts. */
    method InstallCounts(h: nat, n: nat)
      requires Valid() && n > 0
      modifies this
      ensures Valid() && hdrs == Counts(old(hdrs), h, n)
    {
      MakeTables(h, n);
      SetCounts(h, n);
    }

    /** GC_apply_to_all_blocks: the blocks the client function is called on, in order. */
    method ApplyToAllBlocks(ghost heap: set<nat>) returns (visited: seq<nat>)
      requires Valid() && Tiled(hdrs, heap)
      ensures NoDup(visited)
      ensures forall x: nat :: x in visited <==> IsUsed(hdrs, x)
    {
      visited := [];
      FirstKey(top, hdrs, keys);
      var bi := first;
      ghost var i := 0;
      while bi.Some?
        invariant i <= |keys| && bi == if i < |keys| then Some(keys[i]) else None
        invariant NoDup(visited)
        invariant forall x: nat :: x in visited <==> IsUsed(hdrs, x) && (bi.Some? ==> Hi(x) < bi.value)
        decreases |keys| - i
      {
        var k := bi.value;
        var j: int := BOTTOM_SZ - 1;
        while j >= 0
          invariant j < BOTTOM_SZ
          invariant NoDup(visited)
          invariant forall x: nat :: x in visited <==> IsUsed(hdrs, x) && (Hi(x) < k || (Hi(x) == k && Lo(x) > j))
        {
          var a := Addr(k, j);
          AddrParts(k, j);
          assert k in keys;
          var slot := top[k][j];
          assert Lookup(top, a) == Find(hdrs, a);
          match slot {
            case None =>
              j := j - 1;
            case Some(Fwd(n)) =>
              PassCount(hdrs, heap, k, j);
              j := j - n;
            case Some(e) =>
              if e.Used? {
                visited := visited + [a];
              }
              j := j - 1;
          }
        }
        Neighbours(first, asc, desc, keys, i);
        NextKey(top, hdrs, keys, i);
        bi := At(asc, k);
        i := i + 1;
      }
    }

    /** The first bottom table whose key is not below hi. */
    method FirstFrom(hi: nat) returns (bi: Option<nat>, ghost i: nat)
      requires Valid()
      ensures AtPos(keys, i, bi) && (forall j :: 0 <= j < i ==> keys[j] < hi) && (bi.Some? ==> bi.value >= hi)
    {
      bi, i := first, 0;
      while bi.Some? && bi.value < hi
        invariant AtPos(keys, i, bi)
        invariant forall j :: 0 <= j < i ==> keys[j] < hi
        decreases |keys| - i
      {
        Neighbours(first, asc, desc, keys, i);
        bi := At(asc, bi.value);
        i := i + 1;
      }
    }

    /** The inner loop of GC_next_block, over the table k from position from on. */
    method NextInTable(k: nat, from: nat, allowFree: bool, ghost heap: set<nat>) returns (r: Option<nat>, j: nat)
      requires Valid() && Tiled(hdrs, heap) && k in top
      ensures r.Some? ==> IsNext(hdrs, Addr(k, from), allowFree, r)
      ensures r.None? ==> j >= BOTTOM_SZ && AllSkippable(hdrs, Addr(k, from), Addr(k, j), allowFree)
    {
      j := from;
      while j < BOTTOM_SZ
        invariant from <= j
        invariant AllSkippable(hdrs, Addr(k, from), Addr(k, j), allowFree)
        decreases BOTTOM_SZ - j
      {
        var a := Addr(k, j);
        AddrParts(k, j);
        var slot := top[k][j];
        assert Lookup(top, a) == Find(hdrs, a);
        match slot {
          case None => j := j + 1;
          case Some(Fwd(_)) => j := j + 1;
          case Some(Used(_)) => return Some(a), j;
          case Some(Free(sz)) =>
            if allowFree {
              return Some(a), j;
            }
            NoStartIn(hdrs, heap, a);
            j := j + sz;
        }
      }
      r := None;
    }

    /** Where GC_next_block starts looking. */
    method Locate(h: nat) returns (bi: Option<nat>, j: nat, ghost i: nat)
      requires Valid()
      ensures AtPos(keys, i, bi)
      ensures bi.Some? ==> j < BOTTOM_SZ && h <= Addr(bi.value, j)
                           && forall s: nat :: h <= s < Addr(bi.value, j) ==> !IsStart(hdrs, s)
      ensures bi.None? ==> forall s: nat :: h <= s ==> !IsStart(hdrs, s)
    {
      HiLo(h);
      if Hi(h) in top {
        bi, j, i := Some(Hi(h)), Lo(h), KeyIndex(top, keys, Hi(h));
      } else {
        bi, i := FirstFrom(Hi(h));
        j := 0;
        NoneBetween(top, hdrs, keys, i, h);
      }
    }

    /** GC_next_block. */
    method NextBlock(h: nat, allowFree: bool, ghost heap: set<nat>) returns (r: Option<nat>)
      requires Valid() && Tiled(hdrs, heap)
      ensures IsNext(hdrs, h, allowFree, r)
    {
      var bi: Option<nat>, j: nat, i: nat := Locate(h);
      while bi.Some?
        invariant AtPos(keys, i, bi)
        invariant bi.Some? ==> j < BOTTOM_SZ && h <= Addr(bi.value, j) && AllSkippable(hdrs, h, Addr(bi.value, j), allowFree)
        invariant bi.None? ==> forall s: nat :: h <= s && IsStart(hdrs, s) ==> Skippable(hdrs, s, allowFree)
        decreases |keys| - i
      {
        var k := bi.value;
        assert k in keys;
        r, j := NextInTable(k, j, allowFree, heap);
        if r.Some? {
          return r;
        }
        Neighbours(first, asc, desc, keys, i);
        NextTable(top, hdrs, keys, i, h, Addr(k, j), allowFree);
        bi := At(asc, k);
        i := i + 1;
        j := 0;
      }
      r := None;
    }

    /** The last bottom table whose key is not above hi. */
    method LastUpTo(hi: nat) returns (bi: Option<nat>, ghost i: nat)
      requires Valid()
      ensures i <= |keys| && bi == (if i > 0 then Some(keys[i - 1]) else None)
      ensures (forall j :: i <= j < |keys| ==> keys[j] > hi) && (bi.Some? ==> bi.value <= hi)
    {
      bi, i := last, |keys|;
      while bi.Some? && bi.value > hi
        invariant i <= |keys| && bi == if i > 0 then Some(keys[i - 1]) else None
        invariant forall j :: i <= j < |keys| ==> keys[j] > hi
        decreases i
      {
        Neighbours(first, asc, desc, keys, i - 1);
        bi := At(desc, bi.value);
        i := i - 1;
      }
    }

    /** GC_prev_block. */
    method PrevBlock(h: nat, ghost heap: set<nat>) returns (r: Option<nat>)
      requires Valid() && Tiled(hdrs, heap)
      ensures IsPrev(hdrs, h, r)
    {
      HiLo(h);
      var j: int := Lo(h);
      var bi: Option<nat> := None;
      ghost var i := 0;
      if Hi(h) in top {
        bi := Some(Hi(h));
        i := KeyIndex(top, keys, Hi(h)) + 1;
      } else {
        bi, i := LastUpTo(Hi(h));
        j := BOTTOM_SZ - 1;
        NoneAfter(top, hdrs, keys, i, h);
      }
      while bi.Some?
        invariant i <= |keys| && bi == if i > 0 then Some(keys[i - 1]) else None
        invariant j < BOTTOM_SZ
        invariant bi.Some? ==> 0 <= j && Addr(bi.value, j) <= h
        invariant forall s: nat :: s <= h && IsStart(hdrs, s) ==> bi.Some? && s <= Addr(bi.value, j)
        decreases i
      {
        var k := bi.value;
        assert k in keys;
        while j >= 0
          invariant j < BOTTOM_SZ && k * BOTTOM_SZ + j <= h
          invariant forall s: nat :: s <= h && IsStart(hdrs, s) ==> s <= k * BOTTOM_SZ + j
        {
          var a := Addr(k, j);
          AddrParts(k, j);
          var slot := top[k][j];
          assert Lookup(top, a) == Find(hdrs, a);
          match slot {
            case None => j := j - 1;
            case Some(Fwd(n)) =>
              PassBack(hdrs, heap, a);
              j := j - n;
            case Some(e) => return Some(a);
          }
        }
        Neighbours(first, asc, desc, keys, i - 1);
        PrevTable(top, hdrs, keys, i - 1);
        bi := At(desc, k);
        i := i - 1;
        j := BOTTOM_SZ - 1;
      }
      r := None;
    }
  }

  ghost predicate AtPos(l: seq<nat>, i: nat, e: Option<nat>) {
    i <= |l| && e == if i < |l| then Some(l[i]) else None
  }

  /** Every block starting in [a, b) may be passed over. */
  ghost predicate AllSkippable(m: Hdrs, a: nat, b: nat, allowFree: bool) {
    forall s: nat :: a <= s < b && IsStart(m, s) ==> Skippable(m, s, allowFree)
  }

  predicate Skippable(m: Hdrs, s: nat, allowFree: bool) {
    IsFree(m, s) && !allowFree
  }

  ghost function KeyIndex(top: map<nat, Table>, keys: seq<nat>, k: nat): (i: nat)
    requires KeysOf(top, keys) && k in top
    ensures i < |keys| && keys[i] == k
  {
    assert k in keys;
    IndexOf(keys, k)
  }

  lemma EntryKey(top: map<nat, Table>, m: Hdrs, keys: seq<nat>, x: nat) returns (j: nat)
    requires Holds(top, m) && KeysOf(top, keys) && x in m
    ensures j < |keys| && keys[j] == Hi(x)
  {
    assert Lookup(top, x) == Find(m, x);
    j := KeyIndex(top, keys, Hi(x));
  }

  /** No entry lies between h, in an absent table, and the first table after it. */
  lemma NoneBetween(top: map<nat, Table>, m: Hdrs, keys: seq<nat>, i: nat, h: nat)
    requires Holds(top, m) && KeysOf(top, keys) && Sorted(keys) && Hi(h) !in top && i <= |keys|
    requires (forall j :: 0 <= j < i ==> keys[j] < Hi(h)) && (i < |keys| ==> keys[i] >= Hi(h))
    ensures i < |keys| ==> h <= Addr(keys[i], 0)
    ensures forall s: nat :: h <= s && IsStart(m, s) ==> i < |keys| && Addr(keys[i], 0) <= s
  {
    HiLo(h);
    if i < |keys| {
      assert keys[i] in keys;
    }
    forall s: nat | h <= s && IsStart(m, s) ensures i < |keys| && Addr(keys[i], 0) <= s {
      HiLo(s);
      var j := EntryKey(top, m, keys, s);
    }
  }

  lemma NoneAfter(top: map<nat, Table>, m: Hdrs, keys: seq<nat>, i: nat, h: nat)
    requires Holds(top, m) && KeysOf(top, keys) && Sorted(keys) && Hi(h) !in top && i <= |keys|
    requires (forall j :: i <= j < |keys| ==> keys[j] > Hi(h)) && (i > 0 ==> keys[i - 1] <= Hi(h))
    ensures i > 0 ==> Addr(keys[i - 1], BOTTOM_SZ - 1) <= h
    ensures forall s: nat :: s <= h && IsStart(m, s) ==> i > 0 && s <= Addr(keys[i - 1], BOTTOM_SZ - 1)
  {
    HiLo(h);
    if i > 0 {
      assert keys[i - 1] in keys;
    }
    forall s: nat | s <= h && IsStart(m, s) ensures i > 0 && s <= Addr(keys[i - 1], BOTTOM_SZ - 1) {
      HiLo(s);
      var j := EntryKey(top, m, keys, s);
    }
  }

  /** Past the end of a table, the next entry is in the next table. */
  lemma NextTable(top: map<nat, Table>, m: Hdrs, keys: seq<nat>, i: nat, h: nat, a: nat, allowFree: bool)
    requires Holds(top, m) && KeysOf(top, keys) && Sorted(keys) && i < |keys| && a >= Addr(keys[i], BOTTOM_SZ)
    requires h < Addr(keys[i], BOTTOM_SZ) && AllSkippable(m, h, a, allowFree)
    ensures i + 1 < |keys| ==> h <= Addr(keys[i + 1], 0) && AllSkippable(m, h, Addr(keys[i + 1], 0), allowFree)
    ensures i + 1 == |keys| ==> forall s: nat :: h <= s && IsStart(m, s) ==> Skippable(m, s, allowFree)
  {
    forall s: nat | IsStart(m, s) && (i + 1 < |keys| ==> s < Addr(keys[i + 1], 0)) ensures s < Addr(keys[i], BOTTOM_SZ) {
      HiLo(s);
      var j := EntryKey(top, m, keys, s);
    }
  }

  lemma PrevTable(top: map<nat, Table>, m: Hdrs, keys: seq<nat>, i: nat)
    requires Holds(top, m) && KeysOf(top, keys) && Sorted(keys) && i < |keys|
    ensures i > 0 ==> Addr(keys[i - 1], BOTTOM_SZ - 1) < Addr(keys[i], 0)
    ensures forall s: nat :: IsStart(m, s) && s < Addr(keys[i], 0) ==> i > 0 && s <= Addr(keys[i - 1], BOTTOM_SZ - 1)
  {
    forall s: nat | IsStart(m, s) && s < Addr(keys[i], 0) ensures i > 0 && s <= Addr(keys[i - 1], BOTTOM_SZ - 1) {
      HiLo(s);
      var j := EntryKey(top, m, keys, s);
    }
  }

  lemma NoStartIn(m: Hdrs, heap: set<nat>, a: nat)
    requires Tiled(m, heap) && IsStart(m, a)
    ensures SizeAt(m, a) > 0
    ensures forall s: nat :: a < s < a + SizeAt(m, a) ==> !IsStart(m, s)
  {
    forall s: nat | a < s < a + SizeAt(m, a) ensures !IsStart(m, s) {
      assert IsStart(m, s) ==> End(m, a) <= s;
    }
  }

  lemma PassBack(m: Hdrs, heap: set<nat>, a: nat)
    requires Tiled(m, heap) && a in m && m[a].Fwd?
    ensures 0 < m[a].n <= a
    ensures forall s: nat :: s <= a && IsStart(m, s) ==> s <= a - m[a].n
  {
    var s := EntryOwner(m, heap, a);
    CountStep(m, heap, s, a);
    assert IsStart(m, s);
    assert forall t: nat :: s < t <= a ==> !IsStart(m, t);
  }

  /** No block starts at the positions a forwarding count passes over. */
  lemma PassCount(m: Hdrs, heap: set<nat>, k: nat, j: nat)
    requires Tiled(m, heap) && j < BOTTOM_SZ && Find(m, Addr(k, j)).Some? && m[Addr(k, j)].Fwd?
    ensures m[Addr(k, j)].n > 0
    ensures forall x: nat :: IsStart(m, x) ==>
              (Hi(x) == k && Lo(x) > j - m[Addr(k, j)].n <==> Hi(x) == k && Lo(x) > j)
  {
    var a := Addr(k, j);
    var s := EntryOwner(m, heap, a);
    CountStep(m, heap, s, a);
    forall x: nat | IsStart(m, x) && Hi(x) == k && Lo(x) > j - m[a].n ensures Lo(x) > j {
      HiLo(x);
      assert s < x <= a ==> !IsStart(m, x);
    }
  }

  lemma FirstKey(top: map<nat, Table>, m: Hdrs, keys: seq<nat>)
    requires Holds(top, m) && Sorted(keys) && KeysOf(top, keys)
    ensures forall x: nat :: x in m ==> keys != [] && keys[0] <= Hi(x)
  {
    forall x: nat | x in m ensures keys != [] && keys[0] <= Hi(x) {
      assert Lookup(top, x) == Find(m, x);
      assert Hi(x) in keys;
      var j :| 0 <= j < |keys| && keys[j] == Hi(x);
    }
  }

  /** No entry lies between a bottom table and the next. */
  lemma NextKey(top: map<nat, Table>, m: Hdrs, keys: seq<nat>, i: nat)
    requires Holds(top, m) && Sorted(keys) && KeysOf(top, keys) && i < |keys|
    ensures forall x: nat :: x in m ==> (Hi(x) <= keys[i] <==> i + 1 >= |keys| || Hi(x) < keys[i + 1])
  {
    forall x: nat | x in m ensures Hi(x) in keys {
      assert Lookup(top, x) == Find(m, x);
    }
    forall x: nat | x in m ensures Hi(x) <= keys[i] <==> i + 1 >= |keys| || Hi(x) < keys[i + 1] {
      var j :| 0 <= j < |keys| && keys[j] == Hi(x);
    }
  }

  lemma InsertOk(top: map<nat, Table>, asc: Link, desc: Link, first: Option<nat>, last: Option<nat>, keys: seq<nat>, m: Hdrs,
                 i: nat, t: nat, pi: Option<nat>, p: Option<nat>)
    requires IndexOk(top, asc, desc, first, last, keys, m) && t !in top && i <= |keys|
    requires (forall j :: 0 <= j < i ==> keys[j] < t) && (i < |keys| ==> t <= keys[i])
    requires pi == (if i > 0 then Some(keys[i - 1]) else None) && p == (if i < |keys| then Some(keys[i]) else None)
    ensures IndexOk(top[t := seq(BOTTOM_SZ, _ => None)],
                    SetLink(asc[t := p], pi, Some(t)), SetLink(desc[t := pi], p, Some(t)),
                    if pi.None? then Some(t) else first, if p.None? then Some(t) else last,
                    Inserted(keys, i, t), m)
  {
    assert t !in keys;
    InsertedElems(keys, i, t);
    InsertChain(first, asc, desc, keys, i, t, pi, p);
  }

  lemma SetHolds(top: map<nat, Table>, m: Hdrs, a: nat, e: Option<Entry>, m': Hdrs)
    requires Holds(top, m) && Hi(a) in top
    requires m' == if e.Some? then m[a := e.value] else m - {a}
    ensures Lo(a) < BOTTOM_SZ
    ensures Holds(top[Hi(a) := top[Hi(a)][Lo(a) := e]], m')
  {
    HiLo(a);
    var t := top[Hi(a) := top[Hi(a)][Lo(a) := e]];
    forall b: nat ensures Lookup(t, b) == Find(m', b) {
      HiLo(b);
      assert Lookup(top, b) == Find(m, b);
      if Hi(b) == Hi(a) && Lo(b) == Lo(a) {
        assert a == b;
      }
    }
  }

  function Inserted(l: seq<nat>, i: nat, t: nat): seq<nat>
    requires i <= |l|
  {
    l[..i] + [t] + l[i..]
  }

  lemma InsertedElems(l: seq<nat>, i: nat, t: nat)
    requires Sorted(l) && i <= |l| && (forall j :: 0 <= j < i ==> l[j] < t) && (i < |l| ==> t < l[i])
    ensures Sorted(Inserted(l, i, t))
    ensures forall x :: x in Inserted(l, i, t) <==> x in l || x == t
    ensures Last(Inserted(l, i, t)) == if i < |l| then Last(l) else Some(t)
  {
    var l' := Inserted(l, i, t);
    assert l == l[..i] + l[i..];
    forall j | 0 <= j < |l'| ensures l'[j] == if j < i then l[j] else if j == i then t else l[j - 1] {
    }
  }

  lemma {:induction false} InsertChain(first: Option<nat>, asc: Link, desc: Link, l: seq<nat>, i: nat, t: nat, pi: Option<nat>, p: Option<nat>)
    requires Chained(first, asc, desc, l) && Sorted(l) && i <= |l| && t !in l
    requires pi == (if i > 0 then Some(l[i - 1]) else None) && p == (if i < |l| then Some(l[i]) else None)
    ensures Chained(if pi.None? then Some(t) else first, SetLink(asc[t := p], pi, Some(t)), SetLink(desc[t := pi], p, Some(t)),
                    Inserted(l, i, t))
  {
    var l' := Inserted(l, i, t);
    var asc', desc' := SetLink(asc[t := p], pi, Some(t)), SetLink(desc[t := pi], p, Some(t));
    forall k: nat | 0 < k < |l'| ensures LinkedAt(asc', desc', l', k) {
      var j := k - 1;
      if k < i {
        assert l'[j] == l[j] && l'[k] == l[k];
        Neighbours(first, asc, desc, l, j);
        Neighbours(first, asc, desc, l, k);
      } else if j > i {
        assert l'[j] == l[j - 1] && l'[k] == l[j];
        Neighbours(first, asc, desc, l, j - 1);
        Neighbours(first, asc, desc, l, j);
      }
    }
    if l != [] {
      Neighbours(first, asc, desc, l, 0);
      Neighbours(first, asc, desc, l, |l| - 1);
    }
  }
}
