/** The open-addressing hash table behind the assembler's symbol table. */
module HashTable {
  import opened Basics
  import opened Arith

  /** A null bucket, a bucket whose key has been freed, or a bucket in use. */
  datatype Slot<V> = Empty | Tomb | Live(key: string, data: V)

  const INITIAL_CAP: nat := 4

  function Home(hash: string -> nat, cap: nat, key: string): nat
    requires cap > 0
  {
    hash(key) % cap
  }

  /** The probe distance of the first cycle. */
  function Stride(home: nat): nat {
    if home % 16 == 0 then 1 else home % 16
  }

  /** The j-th slot probed: after cap probes the distance becomes 1. */
  function Probe(hash: string -> nat, cap: nat, key: string, j: nat): (s: nat)
    requires cap > 0
    ensures s < cap
  {
    var home := Home(hash, cap, key);
    if j == 0 then home
    else (Probe(hash, cap, key, j - 1) + if j <= cap then Stride(home) else 1) % cap
  }

  /** A probe for the key ends at this slot. */
  predicate Stops<V>(slot: Slot<V>, key: string) {
    !slot.Live? || slot.key == key
  }

  /** The probe for the key ends at its j-th step. */
  ghost predicate EndsAt<V>(hash: string -> nat, t: seq<Slot<V>>, key: string, j: nat)
    requires |t| > 0
  {
    Stops(t[Probe(hash, |t|, key, j)], key)
    && forall i :: 0 <= i < j ==> !Stops(t[Probe(hash, |t|, key, i)], key)
  }

  ghost predicate EndSlot<V>(hash: string -> nat, t: seq<Slot<V>>, key: string, s: nat)
    requires |t| > 0
  {
    exists j: nat :: EndsAt(hash, t, key, j) && Probe(hash, |t|, key, j) == s
  }

  lemma EndUnique<V>(hash: string -> nat, t: seq<Slot<V>>, key: string, s: nat, s': nat)
    requires |t| > 0 && EndSlot(hash, t, key, s) && EndSlot(hash, t, key, s')
    ensures s == s'
  {
    var j: nat :| EndsAt(hash, t, key, j) && Probe(hash, |t|, key, j) == s;
    var j': nat :| EndsAt(hash, t, key, j') && Probe(hash, |t|, key, j') == s';
    assert j == j';
  }

  /** Once the distance is 1, cap consecutive probes cover the table. */
  lemma {:induction false} UnitSteps(hash: string -> nat, cap: nat, key: string, i: nat, p: nat)
    requires cap > 0 && p == Probe(hash, cap, key, cap)
    ensures Probe(hash, cap, key, cap + i) == (p + i) % cap
  {
    if i == 0 {
      ModUnique(p, 0, p, cap);
    } else {
      UnitSteps(hash, cap, key, i - 1, p);
      AddOneMod(p + (i - 1), cap);
    }
  }

  lemma AddOneMod(x: nat, cap: nat)
    requires cap > 0
    ensures (x % cap + 1) % cap == (x + 1) % cap
  {
    var q, r := x / cap, x % cap;
    assert x == q * cap + r;
    if r + 1 < cap {
      ModUnique(x + 1, q, r + 1, cap);
      ModUnique(r + 1, 0, r + 1, cap);
    } else {
      assert (q + 1) * cap == q * cap + cap;
      ModUnique(x + 1, q + 1, 0, cap);
      ModUnique(r + 1, 1, 0, cap);
    }
  }

  lemma Covers(hash: string -> nat, cap: nat, key: string, s: nat) returns (i: nat)
    requires s < cap
    ensures i < cap && Probe(hash, cap, key, cap + i) == s
  {
    var p := Probe(hash, cap, key, cap);
    i := if s >= p then s - p else s + cap - p;
    UnitSteps(hash, cap, key, i, p);
    ModUnique(p + i, if s >= p then 0 else 1, s, cap);
  }

  function LiveSlots<V>(t: seq<Slot<V>>): (r: set<nat>)
    ensures forall i: nat :: i in r <==> i < |t| && t[i].Live?
  {
    set i: nat | i < |t| && t[i].Live?
  }

  ghost function Range(n: nat): (r: set<nat>)
    ensures forall i: nat :: i in r <==> i < n
    ensures |r| == n
  {
    if n == 0 then {} else Range(n - 1) + {n - 1}
  }

  lemma AllLive<V>(t: seq<Slot<V>>)
    ensures (forall i: nat :: i < |t| ==> t[i].Live?) ==> |LiveSlots(t)| == |t|
  {
    if forall i: nat :: i < |t| ==> t[i].Live? {
      assert LiveSlots(t) == Range(|t|);
    }
  }

  /** A table with fewer live slots than slots has one that ends every probe. */
  lemma NotFull<V>(t: seq<Slot<V>>) returns (s: nat)
    requires |LiveSlots(t)| < |t|
    ensures s < |t| && !t[s].Live?
  {
    AllLive(t);
    s :| s < |t| && !t[s].Live?;
  }

  /** Every live slot is where the probe for its key ends, and the live slots hold the
      bindings of m. */
  ghost predicate Holds<V(!new)>(hash: string -> nat, t: seq<Slot<V>>, m: map<string, V>) {
    && |t| > 0
    && (forall s: nat :: s < |t| ==> SlotOk(hash, t, m, s))
    && (forall k :: k in m ==> Bound(t, k))
  }

  ghost predicate SlotOk<V(!new)>(hash: string -> nat, t: seq<Slot<V>>, m: map<string, V>, s: nat)
    requires s < |t|
  {
    && !t[s].Tomb?
    && (t[s].Live? ==> EndSlot(hash, t, t[s].key, s) && t[s].key in m && m[t[s].key] == t[s].data)
  }

  ghost predicate Bound<V>(t: seq<Slot<V>>, k: string) {
    exists s: nat :: s < |t| && t[s].Live? && t[s].key == k
  }

  /** What the slot where the probe for the key ends says of the key. */
  lemma EndTells<V(!new)>(hash: string -> nat, t: seq<Slot<V>>, m: map<string, V>, key: string, s: nat)
    requires Holds(hash, t, m) && EndSlot(hash, t, key, s)
    ensures s < |t| && !t[s].Tomb? && (key in m <==> t[s].Live?) && (t[s].Live? ==> t[s].key == key && m[key] == t[s].data)
  {
    assert s < |t| && SlotOk(hash, t, m, s);
    if key in m {
      assert Bound(t, key);
      var s': nat :| s' < |t| && t[s'].Live? && t[s'].key == key;
      assert SlotOk(hash, t, m, s');
      EndUnique(hash, t, key, s, s');
    }
  }

  /** Filling a slot that ended a probe moves the end of no other probe that found its key. */
  lemma FillKeepsEnds<V>(hash: string -> nat, t: seq<Slot<V>>, s: nat, n: Slot<V>, key: string, e: nat)
    requires |t| > 0 && s < |t| && !t[s].Live? && n.Live?
    requires EndSlot(hash, t, key, e) && (if e == s then n.key == key else t[e].Live? && t[e].key == key)
    ensures EndSlot(hash, t[s := n], key, e)
  {
    var j: nat :| EndsAt(hash, t, key, j) && Probe(hash, |t|, key, j) == e;
    assert EndsAt(hash, t[s := n], key, j);
  }

  lemma {:induction false} FillOk<V(!new)>(hash: string -> nat, t: seq<Slot<V>>, m: map<string, V>, key: string, data: V, s: nat)
    requires Holds(hash, t, m) && EndSlot(hash, t, key, s) && key !in m
    ensures s < |t| && Holds(hash, t[s := Live(key, data)], m[key := data])
    ensures |LiveSlots(t[s := Live(key, data)])| == |LiveSlots(t)| + 1
  {
    EndTells(hash, t, m, key, s);
    var t', m' := t[s := Live(key, data)], m[key := data];
    forall i: nat | i < |t'| ensures SlotOk(hash, t', m', i) {
      assert SlotOk(hash, t, m, i);
      if t'[i].Live? {
        FillKeepsEnds(hash, t, s, Live(key, data), t'[i].key, i);
      }
    }
    forall k | k in m' ensures Bound(t', k) {
      if k == key {
        assert t'[s].key == key;
      } else {
        assert Bound(t, k);
        var i: nat :| i < |t| && t[i].Live? && t[i].key == k;
        assert t'[i] == t[i];
      }
    }
    assert LiveSlots(t') == LiveSlots(t) + {s};
  }

  /** The capacity doubles exactly when the table is at least 4/7 full. */
  function Grown(cap: nat, count: nat): nat {
    if 7 * count >= 4 * cap then 2 * cap else cap
  }

  class Table<V(0, !new)> {
    const hash: string -> nat
    var table: array<Slot<V>>
    var cap: nat
    var count: nat
    var tombstones: int
    ghost var contents: map<string, V>

    ghost predicate Valid()
      reads this, table
    {
      && table.Length == cap >= INITIAL_CAP
      && Holds(hash, table[..], contents)
      && count == |LiveSlots(table[..])| < cap
      && tombstones == 0
      && (cap == INITIAL_CAP || 7 * count >= 2 * cap) // never made larger than needed
    }

    /** create_hashtable. */
    constructor (h: string -> nat)
      ensures Valid() && fresh(table) && contents == map[] && hash == h && cap == INITIAL_CAP
    {
      hash := h;
      cap, count, tombstones, contents := INITIAL_CAP, 0, 0, map[];
      table := new Slot<V>[INITIAL_CAP](_ => Empty);
      new;
      assert LiveSlots(table[..]) == {};
    }

    /** find_slot. */
    method FindSlot(key: string) returns (s: nat)
      requires table.Length == cap > 0 && |LiveSlots(table[..])| < cap
      modifies `tombstones
      ensures s < cap && EndSlot(hash, table[..], key, s)
      ensures tombstones == if table[s].Tomb? then old(tombstones) - 1 else old(tombstones)
    {
      var free := NotFull(table[..]);
      var h := hash(key) % cap;
      var inc := if h % 16 == 0 then 1 else h % 16;
      if table[h].Empty? {
        assert EndsAt(hash, table[..], key, 0);
        return h;
      }
      ghost var rounds, j := 0, 0;
      while true
        invariant 0 <= rounds <= 1 && j == rounds * cap && h == Probe(hash, cap, key, j)
        invariant inc == if rounds == 0 then Stride(Home(hash, cap, key)) else 1
        invariant forall i :: 0 <= i < j ==> !Stops(table[Probe(hash, cap, key, i)], key)
        invariant tombstones == old(tombstones)
        decreases 1 - rounds
      {
        var i := 0;
        while i < cap
          invariant i <= cap && j == rounds * cap + i && h == Probe(hash, cap, key, j)
          invariant forall b :: 0 <= b < j ==> !Stops(table[Probe(hash, cap, key, b)], key)
          invariant tombstones == old(tombstones)
        {
          if Stops(table[h], key) {
            assert EndsAt(hash, table[..], key, j);
            if table[h].Tomb? {
              tombstones := tombstones - 1;
            }
            return h;
          }
          h := (h + inc) % cap;
          i := i + 1;
          j := j + 1;
        }
        if rounds == 1 {
          var b := Covers(hash, cap, key, free);
          assert false;
        }
        inc := 1; // second cycle, one slot a step
        rounds := rounds + 1;
      }
    }

    /** A node moved to the new table. */
    method Reinsert(n: Slot<V>, ghost done: map<string, V>)
      requires n.Live? && n.key !in done && table.Length == cap && tombstones == 0
      requires Holds(hash, table[..], done) && count == |LiveSlots(table[..])| < cap
      modifies table, `count, `tombstones
      ensures Holds(hash, table[..], done[n.key := n.data]) && tombstones == 0
      ensures count == |LiveSlots(table[..])| == old(count) + 1
    {
      var slot := FindSlot(n.key);
      EndTells(hash, table[..], done, n.key, slot);
      FillOk(hash, table[..], done, n.key, n.data, slot);
      ghost var u := table[..];
      table[slot] := n;
      assert table[..] == u[slot := n];
      count := count + 1;
    }

    /** rehash_table: count * 1.75 >= cap. */
    method Rehash()
      requires Valid()
      modifies this
      ensures Valid() && contents == old(contents) && (table == old(table) || fresh(table))
      ensures cap == Grown(old(cap), old(count)) && count == old(count) && count + 1 < cap
      ensures 7 * old(count) < 4 * old(cap) ==> table == old(table) && table[..] == old(table[..])
    {
      if 7 * count >= 4 * cap {
        Double();
      }
    }

    /** The loop of rehash_table. */
    method MoveNodes(oldTab: array<Slot<V>>, ghost m: map<string, V>)
      requires oldTab != table && Holds(hash, oldTab[..], m)
      requires table.Length == cap > oldTab.Length && tombstones == 0
      requires Holds(hash, table[..], map[]) && count == |LiveSlots(table[..])| == 0
      modifies table, `count, `tombstones
      ensures Holds(hash, table[..], m) && count == |LiveSlots(table[..])| && tombstones == 0
    {
      ghost var t := oldTab[..];
      ghost var done: map<string, V> := map[];
      var i := 0;
      while i < oldTab.Length
        invariant i <= oldTab.Length && oldTab[..] == t && tombstones == 0
        invariant Holds(hash, table[..], done) && count == |LiveSlots(table[..])| <= i
        invariant BoundBefore(t, m, done, i)
      {
        if oldTab[i].Live? {
          NewKey(hash, t, m, done, i);
          Reinsert(oldTab[i], done);
          done := done[oldTab[i].key := oldTab[i].data];
        }
        i := i + 1;
      }
      AllBound(hash, t, m, done);
    }

    /** The rest of rehash_table, when the table is at least 4/7 full. */
    method Double()
      requires Valid() && 7 * count >= 4 * cap
      modifies this
      ensures Valid() && contents == old(contents) && fresh(table)
      ensures cap == 2 * old(cap) && count == old(count)
    {
      var oldTab := table;
      ghost var t := table[..];
      cap := 2 * cap; // twice as many slots
      tombstones := 0;
      count := 0;
      table := new Slot<V>[cap](_ => Empty);
      assert LiveSlots(table[..]) == {};
      MoveNodes(oldTab, contents);
      SameCount(hash, t, table[..], contents);
    }

    /** insert_hashtable: 1 when the key was new, 0 when it was not. */
    method Insert(key: string, data: V) returns (r: int)
      requires Valid()
      modifies this, table
      ensures Valid() && (table == old(table) || fresh(table))
      ensures r == if key in old(contents) then 0 else 1
      ensures contents == if key in old(contents) then old(contents) else old(contents)[key := data]
      ensures cap == Grown(old(cap), old(count)) && count == old(count) + r
    {
      Rehash();
      var slot := FindSlot(key);
      EndTells(hash, table[..], contents, key, slot);
      if table[slot].Live? {
        return 0;
      }
      FillOk(hash, table[..], contents, key, data, slot);
      ghost var u := table[..];
      table[slot] := Live(key, data);
      assert table[..] == u[slot := Live(key, data)];
      count := count + 1;
      contents := contents[key := data];
      return 1;
    }

    /** find_hashtable. */
    method Find(key: string) returns (data: Option<V>)
      requires Valid()
      modifies `tombstones
      ensures Valid()
      ensures data == if key in contents then Some(contents[key]) else None
    {
      var slot := FindSlot(key);
      EndTells(hash, table[..], contents, key, slot);
      if table[slot].Live? {
        if table[slot].key == key {
          return Some(table[slot].data);
        }
      }
      return None;
    }

    /** The counters are right and a slot is left; buckets may have been freed. */
    ghost predicate Usable()
      reads this, table
    {
      table.Length == cap > 0 && count == |LiveSlots(table[..])| < cap
    }

    /** remove_hashtable, on any table. */
    method Remove(key: string) returns (ghost s: nat)
      requires Usable()
      modifies table, `count, `tombstones
      ensures Usable() && s < cap && EndSlot(hash, old(table[..]), key, s)
      ensures table[..] == if old(table[s]).Live? then old(table[..])[s := Tomb] else old(table[..])
      ensures count == if old(table[s]).Live? then old(count) - 1 else old(count)
      ensures tombstones == match old(table[s])
                            case Live(_, _) => old(tombstones) + 1
                            case Tomb => old(tombstones) - 1
                            case Empty => old(tombstones)
      ensures old(Valid()) ==> (old(table[s]).Live? <==> key in contents) && (key !in contents ==> Valid())
    {
      ghost var v, t := Valid(), table[..];
      var slot := FindSlot(key);
      s := slot;
      if v {
        EndTells(hash, t, contents, key, slot);
        assert Holds(hash, table[..], contents) && tombstones == 0;
      }
      if table[slot].Live? {
        if table[slot].key == key {
          FreeBucket(slot);
        }
      }
    }

    /** The node in the bucket is freed. */
    method FreeBucket(slot: nat)
      requires Usable() && slot < cap && table[slot].Live?
      modifies table, `count, `tombstones
      ensures Usable() && table[..] == old(table[..])[slot := Tomb]
      ensures count == old(count) - 1 && tombstones == old(tombstones) + 1
    {
      ghost var t := table[..];
      table[slot] := Tomb;
      count := count - 1;
      tombstones := tombstones + 1;
      assert table[..] == t[slot := Tomb];
      assert LiveSlots(t) == LiveSlots(t[slot := Tomb]) + {slot};
    }

    /** A sequence of insertions. */
    method InsertAll(ops: seq<(string, V)>)
      requires Valid()
      modifies this, table
      ensures Valid() && contents == FirstBindings(old(contents), ops)
    {
      var i := 0;
      assert ops[..0] == [];
      while i < |ops|
        invariant i <= |ops| && Valid() && (table == old(table) || fresh(table))
        invariant contents == FirstBindings(old(contents), ops[..i])
      {
        var r := Insert(ops[i].0, ops[i].1);
        assert ops[..i + 1][..i] == ops[..i];
        i := i + 1;
      }
      assert ops[..i] == ops;
    }

    /** hash_name_exists. */
    method NameExists(key: string) returns (r: bool)
      requires Valid()
      modifies `tombstones
      ensures Valid()
      ensures r <==> key in contents
    {
      var data := Find(key);
      r := data.Some?;
    }
  }

  /** done holds the bindings of the live slots before i. */
  ghost predicate BoundBefore<V(!new)>(t: seq<Slot<V>>, m: map<string, V>, done: map<string, V>, i: nat)
    requires i <= |t|
  {
    && (forall k :: k in done ==> k in m && done[k] == m[k] && Bound(t[..i], k))
    && (forall s: nat :: s < i && t[s].Live? ==> t[s].key in done)
  }

  lemma NewKey<V(!new)>(hash: string -> nat, t: seq<Slot<V>>, m: map<string, V>, done: map<string, V>, i: nat)
    requires Holds(hash, t, m) && i < |t| && t[i].Live? && BoundBefore(t, m, done, i)
    ensures t[i].key !in done
    ensures BoundBefore(t, m, done[t[i].key := t[i].data], i + 1)
  {
    var key := t[i].key;
    assert SlotOk(hash, t, m, i);
    if key in done {
      assert Bound(t[..i], key);
      var s: nat :| s < i && t[..i][s].Live? && t[..i][s].key == key;
      assert SlotOk(hash, t, m, s);
      EndUnique(hash, t, key, s, i);
    }
    var done' := done[key := t[i].data];
    forall k | k in done' ensures Bound(t[..i + 1], k) {
      if k == key {
        assert t[..i + 1][i].key == key;
      } else {
        assert Bound(t[..i], k);
        var s: nat :| s < i && t[..i][s].Live? && t[..i][s].key == k;
        assert t[..i + 1][s] == t[..i][s];
      }
    }
  }

  /** The live slots are as many as the bindings. */
  lemma CountBindings<V(!new)>(hash: string -> nat, t: seq<Slot<V>>, m: map<string, V>)
    requires Holds(hash, t, m)
    ensures |LiveSlots(t)| == |m|
  {
    KeysCard(hash, t, m, |t|);
    assert LiveSlots(t[..|t|]) == LiveSlots(t);
    forall k ensures k in m <==> k in KeysBefore(t, |t|) {
      if k in m {
        assert Bound(t, k);
        var s: nat :| s < |t| && t[s].Live? && t[s].key == k;
      }
      if k in KeysBefore(t, |t|) {
        var s: nat :| s < |t| && t[s].Live? && t[s].key == k;
        assert SlotOk(hash, t, m, s);
      }
    }
    assert m.Keys == KeysBefore(t, |t|);
  }

  ghost function KeysBefore<V(!new)>(t: seq<Slot<V>>, i: nat): set<string>
    requires i <= |t|
  {
    set s: nat | s < i && t[s].Live? :: t[s].key
  }

  lemma DistinctKeys<V(!new)>(hash: string -> nat, t: seq<Slot<V>>, m: map<string, V>, b: nat, s: nat)
    requires Holds(hash, t, m) && b < |t| && s < |t| && b != s && t[b].Live? && t[s].Live?
    ensures t[b].key != t[s].key
  {
    assert SlotOk(hash, t, m, b) && SlotOk(hash, t, m, s);
    if t[b].key == t[s].key {
      EndUnique(hash, t, t[s].key, b, s);
    }
  }

  lemma LiveStep<V(!new)>(t: seq<Slot<V>>, s: nat)
    requires s < |t|
    ensures LiveSlots(t[..s + 1]) == if t[s].Live? then LiveSlots(t[..s]) + {s} else LiveSlots(t[..s])
  {
  }

  lemma KeysStep<V(!new)>(t: seq<Slot<V>>, s: nat)
    requires s < |t|
    ensures KeysBefore(t, s + 1) == if t[s].Live? then KeysBefore(t, s) + {t[s].key} else KeysBefore(t, s)
  {
  }

  lemma {:induction false} KeysCard<V(!new)>(hash: string -> nat, t: seq<Slot<V>>, m: map<string, V>, i: nat)
    requires Holds(hash, t, m) && i <= |t|
    ensures |LiveSlots(t[..i])| == |KeysBefore(t, i)|
    decreases i
  {
    if i == 0 {
      assert LiveSlots(t[..i]) == {} && KeysBefore(t, i) == {};
    } else {
      var s := i - 1;
      KeysCard(hash, t, m, s);
      LiveStep(t, s);
      KeysStep(t, s);
      if t[s].Live? {
        forall b: nat | b < s && t[b].Live? ensures t[b].key != t[s].key {
          DistinctKeys(hash, t, m, b, s);
        }
        assert t[s].key !in KeysBefore(t, s);
      }
    }
  }

  lemma SameCount<V(!new)>(hash: string -> nat, t: seq<Slot<V>>, t': seq<Slot<V>>, m: map<string, V>)
    requires Holds(hash, t, m) && Holds(hash, t', m)
    ensures |LiveSlots(t)| == |LiveSlots(t')|
  {
    CountBindings(hash, t, m);
    CountBindings(hash, t', m);
  }

  lemma AllBound<V(!new)>(hash: string -> nat, t: seq<Slot<V>>, m: map<string, V>, done: map<string, V>)
    requires Holds(hash, t, m) && BoundBefore(t, m, done, |t|)
    ensures done == m
  {
    forall k | k in m ensures k in done {
      assert Bound(t, k);
      var s: nat :| s < |t| && t[s].Live? && t[s].key == k;
    }
  }

  /** The map a sequence of insertions builds: a key once bound keeps its value. */
  function FirstBindings<V>(m: map<string, V>, ops: seq<(string, V)>): map<string, V> {
    if ops == [] then m
    else
      var before := FirstBindings(m, ops[..|ops| - 1]);
      var (k, v) := ops[|ops| - 1];
      if k in before then before else before[k := v]
  }

  /** After any insertions into a new table, a lookup gives the first value inserted for the key. */
  lemma {:induction false} FirstWins<V(!new)>(ops: seq<(string, V)>, k: string)
    ensures var m := FirstBindings(map[], ops);
      if k in m then
        exists i :: 0 <= i < |ops| && ops[i] == (k, m[k]) && forall j :: 0 <= j < i ==> ops[j].0 != k
      else
        forall i :: 0 <= i < |ops| ==> ops[i].0 != k
  {
    if ops != [] {
      var before := ops[..|ops| - 1];
      FirstWins(before, k);
      if k in FirstBindings(map[], before) {
        var i :| 0 <= i < |before| && before[i] == (k, FirstBindings(map[], before)[k])
                 && forall j :: 0 <= j < i ==> before[j].0 != k;
        assert ops[i] == before[i];
      } else {
        forall j | 0 <= j < |before| ensures ops[j].0 != k {
          assert before[j] == ops[j];
        }
      }
    }
  }

  // ---- Removal.

  /** The probe that finds b passes over slot s. */
  ghost predicate PassesOver<V>(hash: string -> nat, t: seq<Slot<V>>, b: string, s: nat)
    requires |t| > 0
  {
    exists j: nat, i: nat :: EndsAt(hash, t, b, j) && i < j && Probe(hash, |t|, b, i) == s
  }

  /** After the node in slot s has been removed, the probe for any other key still ends at its
      slot e exactly when it does not pass over s on the way: the probe stops at the first freed
      bucket. */
  lemma {:induction false} RemovalHides<V>(hash: string -> nat, t: seq<Slot<V>>, b: string, s: nat, e: nat)
    requires s < |t| && t[s].Live? && t[s].key != b && EndSlot(hash, t, b, e)
    ensures EndSlot(hash, t[s := Tomb], b, e) <==> !PassesOver(hash, t, b, s)
  {
    var t' := t[s := Tomb];
    var j: nat :| EndsAt(hash, t, b, j) && Probe(hash, |t|, b, j) == e;
    if PassesOver(hash, t, b, s) {
      var j': nat, i: nat :| EndsAt(hash, t, b, j') && i < j' && Probe(hash, |t|, b, i) == s;
      assert Stops(t'[Probe(hash, |t|, b, i)], b);
    } else {
      assert EndsAt(hash, t', b, j);
    }
  }

  /** Such keys exist: with "a" before "b" in a chain of probes, removing "a" hides "b". */
  lemma {:induction false} RemovalLosesAKey()
    ensures var hash := (k: string) => 0;
      var t: seq<Slot<int>> := [Live("a", 1), Live("b", 2), Empty, Empty];
      && Holds(hash, t, map["a" := 1, "b" := 2])
      && EndSlot(hash, t, "a", 0)
      && EndSlot(hash, t[0 := Tomb], "b", 0)
  {
    var hash := (k: string) => 0;
    var t: seq<Slot<int>> := [Live("a", 1), Live("b", 2), Empty, Empty];
    assert "a"[0] != "b"[0];
    assert Probe(hash, 4, "b", 1) == 1;
    assert EndsAt(hash, t, "a", 0);
    assert EndsAt(hash, t, "b", 1);
    assert EndsAt(hash, t[0 := Tomb], "b", 0);
    assert t[0].key == "a" && t[1].key == "b";
    forall s: nat | s < |t| ensures SlotOk(hash, t, map["a" := 1, "b" := 2], s) {
    }
  }
}
