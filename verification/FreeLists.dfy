/** The segregated doubly linked lists of free blocks, as values: what it means for the link
    fields and the counters to represent given lists, and the three ways a list changes. */
module FreeLists {
  import opened Basics
  import opened Tiling

  const UNIQUE_THRESHOLD: nat := 32
  const HUGE_THRESHOLD: nat := 256
  const FL_COMPRESSION: nat := 8
  const N_HBLK_FLS: nat := (HUGE_THRESHOLD - UNIQUE_THRESHOLD) / FL_COMPRESSION + UNIQUE_THRESHOLD

  /** GC_hblk_fl_from_blocks. */
  function FlIndex(blocks: nat): nat {
    if blocks <= UNIQUE_THRESHOLD then blocks
    else if blocks >= HUGE_THRESHOLD then N_HBLK_FLS
    else (blocks - UNIQUE_THRESHOLD) / FL_COMPRESSION + UNIQUE_THRESHOLD
  }

  /** Bins are ordered by size, and those below the threshold hold one size only. */
  lemma BinsOrdered(n: nat, k: nat)
    ensures FlIndex(n) <= N_HBLK_FLS
    ensures n <= k ==> FlIndex(n) <= FlIndex(k)
    ensures FlIndex(n) < UNIQUE_THRESHOLD && FlIndex(n) == FlIndex(k) ==> n == k
  {
  }

  /** Which sizes each list holds: one, eight in a row, or all from 256 blocks on. */
  lemma {:induction false} BinsExact(n: nat, i: nat)
    ensures FlIndex(n) == i <==>
              if i < 32 then n == i
              else if i < 60 then 32 + 8 * (i - 32) <= n < 32 + 8 * (i - 31)
              else i == 60 && n >= 256
  {
  }

  type Link = map<nat, Option<nat>>

  function At(f: Link, s: nat): Option<nat> {
    if s in f then f[s] else None
  }

  /** The heads, the hb_next and hb_prev fields and the counters, beside the lists they
      stand for. */
  datatype Links = Links(heads: seq<Option<nat>>, next: Link, prev: Link, free: seq<nat>, lists: seq<seq<nat>>)

  function First(l: seq<nat>): Option<nat> {
    if l == [] then None else Some(l[0])
  }

  /** The j-th element and the one before it link to each other. */
  ghost predicate LinkedAt(next: Link, prev: Link, l: seq<nat>, j: nat)
    requires 0 < j < |l|
  {
    At(next, l[j - 1]) == Some(l[j]) && At(prev, l[j]) == Some(l[j - 1])
  }

  ghost predicate Chained(head: Option<nat>, next: Link, prev: Link, l: seq<nat>) {
    && head == First(l)
    && (l != [] ==> At(prev, l[0]) == None && At(next, l[|l| - 1]) == None)
    && (forall j: nat :: 0 < j < |l| ==> LinkedAt(next, prev, l, j))
  }

  ghost predicate ListOk(m: Hdrs, head: Option<nat>, next: Link, prev: Link, free: nat, l: seq<nat>) {
    Chained(head, next, prev, l) && NoDup(l) && free == SumSizes(m, l) && forall x :: x in l ==> IsFree(m, x)
  }

  ghost predicate Distinct(lists: seq<seq<nat>>) {
    forall i, j, x :: 0 <= i < |lists| && 0 <= j < |lists| && x in lists[i] && x in lists[j] ==> i == j
  }

  ghost predicate Sized(c: Links) {
    |c.heads| == |c.free| == |c.lists| == N_HBLK_FLS + 1
  }

  ghost predicate ListAt(m: Hdrs, c: Links, i: nat)
    requires Sized(c) && i <= N_HBLK_FLS
  {
    ListOk(m, c.heads[i], c.next, c.prev, c.free[i], c.lists[i])
  }

  ghost predicate LinksOk(m: Hdrs, c: Links) {
    && Sized(c)
    && Distinct(c.lists)
    && forall i: nat :: i <= N_HBLK_FLS ==> ListAt(m, c, i)
  }

  /** Each free block is on the list for its size, and nothing else is on any list. */
  ghost predicate Placed(m: Hdrs, lists: seq<seq<nat>>) {
    && |lists| == N_HBLK_FLS + 1
    && (forall x: nat :: IsFree(m, x) ==> x in lists[FlIndex(SizeAt(m, x))])
    && (forall i, x: nat :: 0 <= i <= N_HBLK_FLS && x in lists[i] ==> IsFree(m, x) && FlIndex(SizeAt(m, x)) == i)
  }

  /** The same but for the block at b. */
  ghost predicate PlacedBut(m: Hdrs, lists: seq<seq<nat>>, b: nat) {
    && |lists| == N_HBLK_FLS + 1
    && (forall x: nat :: IsFree(m, x) && x != b ==> x in lists[FlIndex(SizeAt(m, x))])
    && (forall i, x: nat :: 0 <= i <= N_HBLK_FLS && x in lists[i] && x != b ==>
          IsFree(m, x) && FlIndex(SizeAt(m, x)) == i)
  }

  ghost predicate OnNone(lists: seq<seq<nat>>, s: nat) {
    forall j :: 0 <= j < |lists| ==> s !in lists[j]
  }

  // ---- Lists without repetition.

  function IndexOf(l: seq<nat>, s: nat): (k: nat)
    requires s in l
    ensures k < |l| && l[k] == s
  {
    if l[0] == s then 0 else IndexOf(l[1..], s) + 1
  }

  function RemoveAt(l: seq<nat>, k: nat): seq<nat>
    requires k < |l|
  {
    l[..k] + l[k + 1..]
  }

  function Without(l: seq<nat>, s: nat): seq<nat>
    requires s in l
  {
    RemoveAt(l, IndexOf(l, s))
  }

  function With(l: seq<nat>, s: nat, t: nat): seq<nat>
    requires s in l
  {
    l[IndexOf(l, s) := t]
  }

  lemma {:induction false} SumAppend(m: Hdrs, a: seq<nat>, b: seq<nat>)
    ensures SumSizes(m, a + b) == SumSizes(m, a) + SumSizes(m, b)
  {
    if a == [] {
      assert a + b == b;
    } else {
      assert (a + b)[1..] == a[1..] + b;
      SumAppend(m, a[1..], b);
    }
  }

  lemma SumWithout(m: Hdrs, l: seq<nat>, k: nat)
    requires k < |l|
    ensures SumSizes(m, l) == SumSizes(m, RemoveAt(l, k)) + SizeAt(m, l[k])
  {
    assert l == l[..k] + ([l[k]] + l[k + 1..]);
    SumAppend(m, l[..k], [l[k]] + l[k + 1..]);
    SumAppend(m, [l[k]], l[k + 1..]);
    SumAppend(m, l[..k], l[k + 1..]);
    assert SumSizes(m, [l[k]]) == SizeAt(m, l[k]) + SumSizes(m, []);
  }

  lemma {:induction false} SumFrame(m: Hdrs, m': Hdrs, l: seq<nat>)
    requires forall x :: x in l ==> SizeAt(m, x) == SizeAt(m', x)
    ensures SumSizes(m, l) == SumSizes(m', l)
  {
    if l != [] {
      assert forall x :: x in l[1..] ==> x in l;
      SumFrame(m, m', l[1..]);
    }
  }

  lemma ListFrame(m: Hdrs, c: Links, m': Hdrs, c': Links, i: nat)
    requires Sized(c) && Sized(c') && i <= N_HBLK_FLS
    requires ListAt(m, c, i)
    requires c'.heads[i] == c.heads[i] && c'.free[i] == c.free[i] && c'.lists[i] == c.lists[i]
    requires forall x :: x in c.lists[i] ==>
               x in m && x in m' && m'[x] == m[x] && At(c'.next, x) == At(c.next, x) && At(c'.prev, x) == At(c.prev, x)
    ensures ListAt(m', c', i)
  {
    var l := c.lists[i];
    SumFrame(m, m', l);
    assert forall j :: 0 <= j < |l| ==> l[j] in l;
    forall j: nat | 0 < j < |l| ensures LinkedAt(c'.next, c'.prev, l, j) {
      assert LinkedAt(c.next, c.prev, l, j);
    }
  }

  /** Changing headers of blocks that are on no list. */
  lemma HeadersFrame(m: Hdrs, m': Hdrs, c: Links)
    requires LinksOk(m, c)
    requires forall i, x :: 0 <= i <= N_HBLK_FLS && x in c.lists[i] && x in m ==> x in m' && m'[x] == m[x]
    ensures LinksOk(m', c)
  {
    forall i: nat | i <= N_HBLK_FLS
      ensures ListAt(m', c, i)
    {
      assert ListAt(m, c, i);
      ListFrame(m, c, m', c, i);
    }
  }

  lemma NotFreeOnNone(m: Hdrs, c: Links, s: nat)
    requires LinksOk(m, c) && !IsFree(m, s)
    ensures OnNone(c.lists, s)
  {
    forall j: nat | j < |c.lists| ensures s !in c.lists[j] {
      assert ListAt(m, c, j);
    }
  }

  function Total(free: seq<nat>): nat {
    if free == [] then 0 else free[0] + Total(free[1..])
  }

  lemma {:induction false} TotalUpdate(free: seq<nat>, i: nat, v: nat)
    requires i < |free|
    ensures Total(free[i := v]) + free[i] == Total(free) + v
  {
    if i == 0 {
      assert free[i := v][1..] == free[1..];
    } else {
      assert free[i := v][1..] == free[1..][i - 1 := v];
      TotalUpdate(free[1..], i - 1, v);
    }
  }

  // ---- GC_remove_from_fl_at.

  /** A write through a link that may be null. */
  function SetLink(f: Link, s: Option<nat>, v: Option<nat>): Link {
    if s.Some? then f[s.value := v] else f
  }

  /** The block at s taken off list i. */
  ghost function Unlinked(m: Hdrs, c: Links, s: nat, i: nat): Links
    requires Sized(c) && i <= N_HBLK_FLS && s in c.lists[i] && c.free[i] >= SizeAt(m, s)
  {
    var p, n := At(c.prev, s), At(c.next, s);
    Links(if p.None? then c.heads[i := n] else c.heads,
          SetLink(c.next, p, n),
          SetLink(c.prev, n, p),
          c.free[i := c.free[i] - SizeAt(m, s)],
          c.lists[i := Without(c.lists[i], s)])
  }

  lemma Neighbours(head: Option<nat>, next: Link, prev: Link, l: seq<nat>, k: nat)
    requires Chained(head, next, prev, l) && k < |l|
    ensures At(next, l[k]) == if k + 1 < |l| then Some(l[k + 1]) else None
    ensures At(prev, l[k]) == if k > 0 then Some(l[k - 1]) else None
  {
    if k + 1 < |l| {
      assert LinkedAt(next, prev, l, k + 1);
    }
    if k > 0 {
      assert LinkedAt(next, prev, l, k);
    }
  }

  lemma UnlinkChain(head: Option<nat>, next: Link, prev: Link, l: seq<nat>, k: nat)
    requires Chained(head, next, prev, l) && NoDup(l) && k < |l|
    ensures var p, n := At(prev, l[k]), At(next, l[k]);
      Chained(if p.None? then n else head, SetLink(next, p, n), SetLink(prev, n, p), RemoveAt(l, k))
  {
    Neighbours(head, next, prev, l, k);
    var p, n, l' := At(prev, l[k]), At(next, l[k]), RemoveAt(l, k);
    var next', prev' := SetLink(next, p, n), SetLink(prev, n, p);
    forall j: nat | 0 < j < |l'| ensures LinkedAt(next', prev', l', j) {
      var i := j - 1;
      if j < k {
        assert l'[i] == l[i] && l'[j] == l[j];
        Neighbours(head, next, prev, l, i);
        Neighbours(head, next, prev, l, j);
      } else if i >= k {
        assert l'[i] == l[i + 1] && l'[j] == l[j + 1];
        Neighbours(head, next, prev, l, i + 1);
        Neighbours(head, next, prev, l, j + 1);
      } else {
        assert l'[i] == l[k - 1] && l'[j] == l[k + 1];
      }
    }
    if l' != [] {
      assert l'[0] == if k == 0 then l[1] else l[0];
      assert l'[|l'| - 1] == if k == |l| - 1 then l[|l| - 2] else l[|l| - 1];
    }
  }

  lemma UnlinkOthers(m: Hdrs, c: Links, s: nat, i: nat, j: nat)
    requires LinksOk(m, c) && i <= N_HBLK_FLS && s in c.lists[i] && j <= N_HBLK_FLS && j != i
    requires c.free[i] >= SizeAt(m, s)
    ensures var c' := Unlinked(m, c, s, i);
      ListAt(m, c', j)
  {
    var c' := Unlinked(m, c, s, i);
    var k := IndexOf(c.lists[i], s);
    assert ListAt(m, c, i) && ListAt(m, c, j);
    Neighbours(c.heads[i], c.next, c.prev, c.lists[i], k);
    forall x | x in c.lists[j]
      ensures At(c'.next, x) == At(c.next, x) && At(c'.prev, x) == At(c.prev, x)
    {
      assert x !in c.lists[i];
    }
    ListFrame(m, c, m, c', j);
  }

  lemma {:induction false} UnlinkHere(m: Hdrs, c: Links, s: nat, i: nat)
    requires Sized(c) && i <= N_HBLK_FLS && s in c.lists[i] && ListAt(m, c, i)
    ensures c.free[i] >= SizeAt(m, s)
    ensures ListAt(m, Unlinked(m, c, s, i), i)
    ensures forall x :: x in Unlinked(m, c, s, i).lists[i] <==> x in c.lists[i] && x != s
  {
    var l := c.lists[i];
    var k := IndexOf(l, s);
    SumWithout(m, l, k);
    UnlinkChain(c.heads[i], c.next, c.prev, l, k);
    ElemsWithout(l, k);
  }

  lemma {:induction false} ElemsWithout(l: seq<nat>, k: nat)
    requires NoDup(l) && k < |l|
    ensures NoDup(RemoveAt(l, k))
    ensures forall x :: x in RemoveAt(l, k) <==> x in l && x != l[k]
  {
    var r := RemoveAt(l, k);
    forall x | x in l && x != l[k] ensures x in r {
      var j :| 0 <= j < |l| && l[j] == x;
      assert r[if j < k then j else j - 1] == x;
    }
  }

  lemma {:induction false} UnlinkOk(m: Hdrs, c: Links, s: nat, i: nat)
    requires LinksOk(m, c) && i <= N_HBLK_FLS && s in c.lists[i]
    ensures c.free[i] >= SizeAt(m, s)
    ensures LinksOk(m, Unlinked(m, c, s, i))
    ensures Total(Unlinked(m, c, s, i).free) + SizeAt(m, s) == Total(c.free)
    ensures forall j, x :: 0 <= j <= N_HBLK_FLS ==>
              (x in Unlinked(m, c, s, i).lists[j] <==> x in c.lists[j] && x != s)
  {
    assert ListAt(m, c, i);
    UnlinkHere(m, c, s, i);
    TotalUpdate(c.free, i, c.free[i] - SizeAt(m, s));
    var c' := Unlinked(m, c, s, i);
    forall j: nat | j <= N_HBLK_FLS && j != i
      ensures ListAt(m, c', j) && c'.lists[j] == c.lists[j] && s !in c.lists[j]
    {
      UnlinkOthers(m, c, s, i, j);
    }
  }

  // ---- GC_add_to_fl.

  /** The block at s, of the size its header in m says, put at the front of list i. */
  ghost function Pushed(m: Hdrs, c: Links, s: nat, i: nat): Links
    requires Sized(c) && i <= N_HBLK_FLS
  {
    Links(c.heads[i := Some(s)],
          c.next[s := c.heads[i]],
          SetLink(c.prev[s := None], c.heads[i], Some(s)),
          c.free[i := c.free[i] + SizeAt(m, s)],
          c.lists[i := [s] + c.lists[i]])
  }

  lemma PushChain(head: Option<nat>, next: Link, prev: Link, l: seq<nat>, s: nat)
    requires Chained(head, next, prev, l) && NoDup(l) && s !in l
    ensures Chained(Some(s), next[s := head], SetLink(prev[s := None], head, Some(s)), [s] + l)
    ensures NoDup([s] + l)
  {
    var l' := [s] + l;
    var next', prev' := next[s := head], SetLink(prev[s := None], head, Some(s));
    forall j: nat | 0 < j < |l'| ensures LinkedAt(next', prev', l', j) {
      var i := j - 1;
      if i > 0 {
        assert l'[i] == l[i - 1] && l'[j] == l[i];
        Neighbours(head, next, prev, l, i - 1);
        Neighbours(head, next, prev, l, i);
      }
    }
  }

  lemma {:induction false} PushOk(m: Hdrs, c: Links, s: nat, i: nat)
    requires LinksOk(m, c) && i <= N_HBLK_FLS && IsFree(m, s)
    requires OnNone(c.lists, s)
    ensures LinksOk(m, Pushed(m, c, s, i))
    ensures Total(Pushed(m, c, s, i).free) == Total(c.free) + SizeAt(m, s)
  {
    var c', l := Pushed(m, c, s, i), c.lists[i];
    assert ListAt(m, c, i);
    PushChain(c.heads[i], c.next, c.prev, l, s);
    TotalUpdate(c.free, i, c.free[i] + SizeAt(m, s));
    assert ([s] + l)[1..] == l;
    forall j: nat | j <= N_HBLK_FLS
      ensures ListAt(m, c', j)
    {
      if j != i {
        assert ListAt(m, c, j);
        assert l != [] ==> l[0] in l;
        ListFrame(m, c, m, c', j);
      }
    }
  }

  lemma SetHeaderPush(m: Hdrs, c: Links, s: nat, sz: nat)
    requires LinksOk(m, c)
    requires OnNone(c.lists, s)
    ensures FlIndex(sz) <= N_HBLK_FLS
    ensures LinksOk(m[s := Free(sz)], Pushed(m[s := Free(sz)], c, s, FlIndex(sz)))
    ensures Total(Pushed(m[s := Free(sz)], c, s, FlIndex(sz)).free) == Total(c.free) + sz
  {
    var m' := m[s := Free(sz)];
    forall i, x | 0 <= i <= N_HBLK_FLS && x in c.lists[i] ensures x in m' && m'[x] == m[x] {
      assert ListAt(m, c, i);
    }
    HeadersFrame(m, m', c);
    BinsOrdered(sz, 0);
    PushOk(m', c, s, FlIndex(sz));
  }

  // ---- The replacement done by GC_split_block.

  /** On list i, t takes the place of s and counts for less. */
  ghost function Replaced(c: Links, s: nat, t: nat, i: nat, less: nat): Links
    requires Sized(c) && i <= N_HBLK_FLS && s in c.lists[i] && less <= c.free[i]
  {
    var p, n := At(c.prev, s), At(c.next, s);
    Links(if p.None? then c.heads[i := Some(t)] else c.heads,
          SetLink(c.next[t := n], p, Some(t)),
          SetLink(c.prev[t := p], n, Some(t)),
          c.free[i := c.free[i] - less],
          c.lists[i := With(c.lists[i], s, t)])
  }

  lemma {:induction false} ReplaceChain(head: Option<nat>, next: Link, prev: Link, l: seq<nat>, k: nat, t: nat)
    requires Chained(head, next, prev, l) && NoDup(l) && k < |l| && t !in l
    ensures var p, n := At(prev, l[k]), At(next, l[k]);
      Chained(if p.None? then Some(t) else head, SetLink(next[t := n], p, Some(t)), SetLink(prev[t := p], n, Some(t)),
              l[k := t])
    ensures NoDup(l[k := t])
  {
    Neighbours(head, next, prev, l, k);
    var p, n, l' := At(prev, l[k]), At(next, l[k]), l[k := t];
    var next', prev' := SetLink(next[t := n], p, Some(t)), SetLink(prev[t := p], n, Some(t));
    forall j: nat | 0 < j < |l'| ensures LinkedAt(next', prev', l', j) {
      var i := j - 1;
      Neighbours(head, next, prev, l, i);
      Neighbours(head, next, prev, l, j);
      if i == k {
        assert l'[j] == l[j] && n == Some(l[j]);
      } else if j == k {
        assert l'[i] == l[i] && p == Some(l[i]);
      } else {
        assert l'[i] == l[i] && l'[j] == l[j];
        assert k > 0 && i != k - 1 ==> l[i] != l[k - 1];
        assert k + 1 < |l| && j != k + 1 ==> l[j] != l[k + 1];
      }
    }
  }

  lemma SumReplace(m: Hdrs, m': Hdrs, l: seq<nat>, k: nat, t: nat)
    requires NoDup(l) && k < |l| && t !in l
    requires forall x :: x in l && x != l[k] ==> SizeAt(m', x) == SizeAt(m, x)
    ensures SumSizes(m', l[k := t]) + SizeAt(m, l[k]) == SumSizes(m, l) + SizeAt(m', t)
  {
    var l' := l[k := t];
    SumWithout(m, l, k);
    SumWithout(m', l', k);
    assert RemoveAt(l, k) == RemoveAt(l', k);
    forall x | x in RemoveAt(l, k) ensures SizeAt(m', x) == SizeAt(m, x) {
      var j :| 0 <= j < |RemoveAt(l, k)| && RemoveAt(l, k)[j] == x;
      assert x == l[if j < k then j else j + 1];
    }
    SumFrame(m, m', RemoveAt(l, k));
  }

  lemma ReplaceOthers(m: Hdrs, m': Hdrs, c: Links, s: nat, t: nat, i: nat, less: nat, j: nat)
    requires LinksOk(m, c) && i <= N_HBLK_FLS && s in c.lists[i] && j <= N_HBLK_FLS && j != i
    requires OnNone(c.lists, t)
    requires forall x :: x in c.lists[j] && x in m ==> x in m' && m'[x] == m[x]
    requires less <= c.free[i]
    ensures var c' := Replaced(c, s, t, i, less);
      ListAt(m', c', j)
  {
    var c' := Replaced(c, s, t, i, less);
    var k := IndexOf(c.lists[i], s);
    assert ListAt(m, c, i);
    Neighbours(c.heads[i], c.next, c.prev, c.lists[i], k);
    assert ListAt(m, c, j);
    forall x | x in c.lists[j]
      ensures At(c'.next, x) == At(c.next, x) && At(c'.prev, x) == At(c.prev, x)
    {
      assert x !in c.lists[i];
    }
    ListFrame(m, c, m', c', j);
  }

  lemma {:induction false} ReplaceHere(m: Hdrs, m': Hdrs, c: Links, s: nat, t: nat, i: nat, less: nat)
    requires Sized(c) && i <= N_HBLK_FLS && s in c.lists[i] && t !in c.lists[i]
    requires ListAt(m, c, i)
    requires IsFree(m', t) && SizeAt(m', t) + less == SizeAt(m, s)
    requires forall x :: x in m && x != s && x != t ==> x in m' && m'[x] == m[x]
    ensures less <= c.free[i]
    ensures forall x :: x in Replaced(c, s, t, i, less).lists[i] <==> (x in c.lists[i] && x != s) || x == t
    ensures var c' := Replaced(c, s, t, i, less);
      ListAt(m', c', i)
  {
    var l, k := c.lists[i], IndexOf(c.lists[i], s);
    SumWithout(m, l, k);
    ReplaceChain(c.heads[i], c.next, c.prev, l, k, t);
    SumReplace(m, m', l, k, t);
    var c' := Replaced(c, s, t, i, less);
    forall x ensures x in c'.lists[i] <==> (x in l && x != s) || x == t {
      if x in l && x != s {
        var j :| 0 <= j < |l| && l[j] == x;
        assert c'.lists[i][j] == x;
      }
      assert c'.lists[i][k] == t;
    }
  }

  /** m' differs from m in s, which leaves the lists, and t, which joins them. */
  lemma {:induction false} ReplaceOk(m: Hdrs, m': Hdrs, c: Links, s: nat, t: nat, i: nat, less: nat)
    requires LinksOk(m, c) && i <= N_HBLK_FLS && s in c.lists[i] && OnNone(c.lists, t)
    requires IsFree(m', t) && SizeAt(m', t) + less == SizeAt(m, s)
    requires forall x :: x in m && x != s && x != t ==> x in m' && m'[x] == m[x]
    ensures less <= c.free[i]
    ensures LinksOk(m', Replaced(c, s, t, i, less))
    ensures Total(Replaced(c, s, t, i, less).free) + less == Total(c.free)
    ensures forall j, x :: 0 <= j <= N_HBLK_FLS ==>
              (x in Replaced(c, s, t, i, less).lists[j] <==> (x in c.lists[j] && x != s) || (j == i && x == t))
  {
    assert ListAt(m, c, i);
    ReplaceHere(m, m', c, s, t, i, less);
    TotalUpdate(c.free, i, c.free[i] - less);
    var c' := Replaced(c, s, t, i, less);
    forall j: nat | j <= N_HBLK_FLS && j != i
      ensures ListAt(m', c', j)
      ensures c'.lists[j] == c.lists[j] && s !in c.lists[j]
    {
      assert ListAt(m, c, j);
      ReplaceOthers(m, m', c, s, t, i, less, j);
    }
  }

  // ---- The counters.

  /** The lists joined. */
  function Joined(lists: seq<seq<nat>>): seq<nat> {
    if lists == [] then [] else lists[0] + Joined(lists[1..])
  }

  lemma {:induction false} JoinedSums(m: Hdrs, lists: seq<seq<nat>>, free: seq<nat>)
    requires |lists| == |free|
    requires forall i :: 0 <= i < |lists| ==> free[i] == SumSizes(m, lists[i])
    ensures SumSizes(m, Joined(lists)) == Total(free)
  {
    if lists != [] {
      forall i | 0 <= i < |lists[1..]| ensures free[1..][i] == SumSizes(m, lists[1..][i]) {
        assert free[i + 1] == SumSizes(m, lists[i + 1]);
      }
      JoinedSums(m, lists[1..], free[1..]);
      SumAppend(m, lists[0], Joined(lists[1..]));
    }
  }

  lemma {:induction false} JoinedElems(lists: seq<seq<nat>>, x: nat)
    ensures x in Joined(lists) <==> exists i :: 0 <= i < |lists| && x in lists[i]
  {
    if lists != [] {
      JoinedElems(lists[1..], x);
      if i :| 0 <= i < |lists| && x in lists[i] {
        assert i > 0 ==> lists[1..][i - 1] == lists[i];
      }
      if i :| 0 <= i < |lists[1..]| && x in lists[1..][i] {
        assert lists[i + 1] == lists[1..][i];
      }
    }
  }

  lemma {:induction false} JoinedNoDup(lists: seq<seq<nat>>)
    requires Distinct(lists)
    requires forall i :: 0 <= i < |lists| ==> NoDup(lists[i])
    ensures NoDup(Joined(lists))
  {
    if lists != [] {
      var rest := lists[1..];
      forall i, j, x | 0 <= i < |rest| && 0 <= j < |rest| && x in rest[i] && x in rest[j] ensures i == j {
        assert x in lists[i + 1] && x in lists[j + 1];
      }
      forall i | 0 <= i < |rest| ensures NoDup(rest[i]) {
        assert rest[i] == lists[i + 1];
      }
      JoinedNoDup(rest);
      forall x | x in lists[0] ensures x !in Joined(rest) {
        forall i | 0 <= i < |rest| ensures x !in rest[i] {
          assert rest[i] == lists[i + 1];
        }
        JoinedElems(rest, x);
      }
      AppendNoDup(lists[0], Joined(rest));
    }
  }

  lemma AppendNoDup(a: seq<nat>, b: seq<nat>)
    requires NoDup(a) && NoDup(b)
    requires forall x :: x in a ==> x !in b
    ensures NoDup(a + b)
  {
    forall i, j | 0 <= i < j < |a + b| ensures (a + b)[i] != (a + b)[j] {
      if i < |a| <= j {
        assert (a + b)[i] in a && (a + b)[j] in b;
      }
    }
  }

  /** The heap blocks of all free blocks. */
  ghost function FreeCells(m: Hdrs, heap: set<nat>): set<nat> {
    set a | a in heap && exists s: nat :: IsFree(m, s) && Covers(m, s, a)
  }

  /** The counters add up to the number of free heap blocks. */
  lemma {:induction false} CountersExact(m: Hdrs, heap: set<nat>, c: Links)
    requires Tiled(m, heap) && LinksOk(m, c) && Placed(m, c.lists)
    ensures Total(c.free) == |FreeCells(m, heap)|
  {
    var all := Joined(c.lists);
    forall i: nat | i < |c.lists| ensures NoDup(c.lists[i]) && c.free[i] == SumSizes(m, c.lists[i]) {
      assert ListAt(m, c, i);
    }
    JoinedNoDup(c.lists);
    JoinedSums(m, c.lists, c.free);
    forall x: nat ensures x in all <==> IsFree(m, x) {
      JoinedElems(c.lists, x);
      BinsOrdered(SizeAt(m, x), 0);
    }
    SumIsCard(m, all);
    forall a: nat ensures a in CellsOf(m, all) <==> a in FreeCells(m, heap) {
      InCells(m, all, a);
      if s: nat :| IsFree(m, s) && Covers(m, s, a) {
        CoveredInHeap(m, heap, s, a);
      }
    }
    assert CellsOf(m, all) == FreeCells(m, heap);
  }
}
