/** The chained hash tables of the finalizer code.  A null table is one without chains; a chain
    is the list of its nodes in link order. */
module ChainTable {
  import opened Basics

  datatype Node<V> = Node(key: nat, val: V)

  function Pow2(n: nat): (r: nat)
    ensures r > 0
  {
    if n == 0 then 1 else 2 * Pow2(n - 1)
  }

  ghost predicate NoDupKeys<V(!new)>(c: seq<Node<V>>) {
    forall j, k :: 0 <= j < k < |c| ==> c[j].key != c[k].key
  }

  ghost predicate InChain<V(!new)>(c: seq<Node<V>>, key: nat) {
    exists n :: n in c && n.key == key
  }

  /** The nodes of chain i bind keys of that hash as m does. */
  ghost predicate ChainOk<V(!new)>(c: seq<Node<V>>, i: nat, m: map<nat, V>, hash: (nat, nat) -> nat, log: nat) {
    NoDupKeys(c) && forall n :: n in c ==> hash(n.key, log) == i && n.key in m && m[n.key] == n.val
  }

  ghost predicate ChainAt<V(!new)>(head: seq<seq<Node<V>>>, i: nat, m: map<nat, V>, hash: (nat, nat) -> nat, log: nat)
    requires i < |head|
  {
    ChainOk(head[i], i, m, hash, log)
  }

  ghost predicate Found<V(!new)>(head: seq<seq<Node<V>>>, k: nat, hash: (nat, nat) -> nat, log: nat) {
    hash(k, log) < |head| && InChain(head[hash(k, log)], k)
  }

  /** The chains hold each binding of m once, in the chain of its key's hash, and nothing else. */
  ghost predicate TableOk<V(!new)>(head: seq<seq<Node<V>>>, m: map<nat, V>, hash: (nat, nat) -> nat, log: nat) {
    && (forall i: nat :: i < |head| ==> ChainAt(head, i, m, hash, log))
    && (forall k: nat {:trigger Found(head, k, hash, log)} :: k in m ==> Found(head, k, hash, log))
  }

  function Drop<V>(c: seq<Node<V>>, k: nat): seq<Node<V>>
    requires k < |c|
  {
    c[..k] + c[k + 1..]
  }

  lemma DeleteOk<V(!new)>(head: seq<seq<Node<V>>>, m: map<nat, V>, hash: (nat, nat) -> nat, log: nat, i: nat, k: nat)
    requires TableOk(head, m, hash, log) && i < |head| && k < |head[i]|
    ensures head[i][k].key in m && m[head[i][k].key] == head[i][k].val
    ensures TableOk(head[i := Drop(head[i], k)], m - {head[i][k].key}, hash, log)
    ensures |m - {head[i][k].key}| == |m| - 1
  {
    var c := head[i];
    assert ChainAt(head, i, m, hash, log) && c[k] in c;
    var head', m' := head[i := Drop(c, k)], m - {c[k].key};
    assert m'.Keys == m.Keys - {c[k].key};
    forall j: nat | j < |head'| ensures ChainAt(head', j, m', hash, log) {
      assert ChainAt(head, j, m, hash, log);
    }
    forall x: nat | x in m' ensures Found(head', x, hash, log) {
      assert x in m ==> Found(head, x, hash, log);
      var n :| n in head[hash(x, log)] && n.key == x;
      assert n in head'[hash(x, log)];
    }
  }

  lemma {:induction false} PutOk<V(!new)>(head: seq<seq<Node<V>>>, m: map<nat, V>, hash: (nat, nat) -> nat, log: nat, n: Node<V>)
    requires TableOk(head, m, hash, log) && n.key !in m && hash(n.key, log) < |head|
    ensures TableOk(head[hash(n.key, log) := [n] + head[hash(n.key, log)]], m[n.key := n.val], hash, log)
    ensures |m[n.key := n.val]| == |m| + 1
  {
    var i := hash(n.key, log);
    var head', m' := head[i := [n] + head[i]], m[n.key := n.val];
    assert m'.Keys == m.Keys + {n.key};
    forall j: nat | j < |head'| ensures ChainAt(head', j, m', hash, log) {
      assert ChainAt(head, j, m, hash, log);
      if j == i {
        forall b | 0 <= b < |head[i]| ensures head[i][b].key != n.key {
          assert head[i][b] in head[i];
        }
      }
    }
    forall x: nat | x in m' ensures Found(head', x, hash, log) {
      assert x in m ==> Found(head, x, hash, log);
      if x == n.key {
        assert n in head'[i];
      } else {
        var y :| y in head[hash(x, log)] && y.key == x;
        assert y in head'[hash(x, log)];
      }
    }
  }

  lemma ReplaceOk<V(!new)>(head: seq<seq<Node<V>>>, m: map<nat, V>, hash: (nat, nat) -> nat, log: nat, i: nat, k: nat, v: V)
    requires TableOk(head, m, hash, log) && i < |head| && k < |head[i]|
    ensures head[i][k].key in m
    ensures TableOk(head[i := head[i][k := Node(head[i][k].key, v)]], m[head[i][k].key := v], hash, log)
    ensures |m[head[i][k].key := v]| == |m|
  {
    var c, key := head[i], head[i][k].key;
    assert ChainAt(head, i, m, hash, log) && c[k] in c;
    var c' := c[k := Node(key, v)];
    var head', m' := head[i := c'], m[key := v];
    assert m'.Keys == m.Keys;
    forall n | n in c' ensures n == Node(key, v) || (n in c && n.key != key) {
      var j :| 0 <= j < |c'| && c'[j] == n;
    }
    forall j: nat | j < |head'| ensures ChainAt(head', j, m', hash, log) {
      assert ChainAt(head, j, m, hash, log);
    }
    forall x: nat | x in m' ensures Found(head', x, hash, log) {
      assert x in m ==> Found(head, x, hash, log);
      if x == key {
        assert c'[k] in c';
      } else {
        var n :| n in head[hash(x, log)] && n.key == x;
        if hash(x, log) == i {
          var j :| 0 <= j < |c| && c[j] == n;
          assert c'[j] == n;
        }
        assert n in head'[hash(x, log)];
      }
    }
  }

  /** A key not found in its chain is not bound. */
  lemma NotFound<V(!new)>(head: seq<seq<Node<V>>>, m: map<nat, V>, hash: (nat, nat) -> nat, log: nat, key: nat)
    requires TableOk(head, m, hash, log)
    requires hash(key, log) < |head| ==> !InChain(head[hash(key, log)], key)
    ensures key !in m
  {
    assert !Found(head, key, hash, log);
  }

  class ChainTable<V(!new)> {
    const hash: (nat, nat) -> nat
    var head: seq<seq<Node<V>>>
    var logSize: nat
    var entries: nat
    ghost var contents: map<nat, V>

    ghost predicate Valid()
      reads this
    {
      && (forall k, l :: hash(k, l) < Pow2(l))
      && (head == [] || |head| == Pow2(logSize))
      && TableOk(head, contents, hash, logSize)
      && entries == |contents|
    }

    constructor (h: (nat, nat) -> nat)
      requires forall k, l :: h(k, l) < Pow2(l)
      ensures Valid() && contents == map[] && hash == h && head == [] && logSize == 0
    {
      hash := h;
      head, logSize, entries, contents := [], 0, 0, map[];
    }

    /** The position of the key in its chain, or the end of the chain. */
    method Search(key: nat) returns (k: nat)
      requires Valid() && head != []
      ensures k <= |head[hash(key, logSize)]|
      ensures k < |head[hash(key, logSize)]| ==> head[hash(key, logSize)][k].key == key
                                                 && key in contents && contents[key] == head[hash(key, logSize)][k].val
      ensures k == |head[hash(key, logSize)]| ==> key !in contents
    {
      var c := head[hash(key, logSize)];
      k := 0;
      while k < |c| && c[k].key != key
        invariant k <= |c|
        invariant forall j :: 0 <= j < k ==> c[j].key != key
      {
        k := k + 1;
      }
      assert ChainAt(head, hash(key, logSize), contents, hash, logSize);
      if k < |c| {
        assert c[k] in c;
      } else {
        NotFound(head, contents, hash, logSize, key);
      }
    }

    /** A node unlinked from its chain. */
    method DeleteAt(i: nat, k: nat)
      requires Valid() && i < |head| && k < |head[i]|
      modifies `head, `entries, `contents
      ensures Valid()
      ensures old(head)[i][k].key in old(contents) && old(contents)[old(head)[i][k].key] == old(head)[i][k].val
      ensures contents == old(contents) - {old(head)[i][k].key}
      ensures head == old(head)[i := Drop(old(head)[i], k)] && entries == old(entries) - 1
      ensures forall x: nat :: Passed(x, i, k) <==> old(Passed(x, i, k))
    {
      DeleteOk(head, contents, hash, logSize, i, k);
      contents := contents - {head[i][k].key};
      head := head[i := Drop(head[i], k)];
      entries := entries - 1;
      assert head[i][..k] == old(head)[i][..k];
    }

    /** A node for a new key put at the front of its chain. */
    method Put(key: nat, val: V)
      requires Valid() && head != [] && key !in contents
      modifies `head, `entries, `contents
      ensures Valid() && head != [] && contents == old(contents)[key := val] && entries == old(entries) + 1
    {
      var i := hash(key, logSize);
      PutOk(head, contents, hash, logSize, Node(key, val));
      contents := contents[key := val];
      head := head[i := [Node(key, val)] + head[i]];
      entries := entries + 1;
    }

    /** The value of a node changed in place. */
    method SetAt(i: nat, k: nat, val: V)
      requires Valid() && i < |head| && k < |head[i]|
      modifies `head, `contents
      ensures Valid() && head != [] && contents == old(contents)[old(head)[i][k].key := val]
    {
      ReplaceOk(head, contents, hash, logSize, i, k, val);
      contents := contents[head[i][k].key := val];
      head := head[i := head[i][k := Node(head[i][k].key, val)]];
    }

    /** The table grown when it is null or holds more entries than chains. */
    method GrowIfFull()
      requires Valid()
      modifies `head, `logSize
      ensures Valid() && head != []
      ensures if old(head) == [] || entries > Pow2(old(logSize)) then logSize == old(logSize) + 1
              else logSize == old(logSize) && head == old(head)
    {
      if head == [] || entries > Pow2(logSize) {
        GrowTable();
      }
    }

    /** A walk over the chains that stands at position k of chain i has passed the key. */
    ghost predicate Passed(x: nat, i: nat, k: nat)
      requires i < |head| ==> k <= |head[i]|
      reads this
    {
      hash(x, logSize) < i || (i < |head| && hash(x, logSize) == i && InChain(head[i][..k], x))
    }

    lemma PassNode(i: nat, k: nat)
      requires Valid() && i < |head| && k < |head[i]|
      ensures forall x: nat :: Passed(x, i, k + 1) <==> Passed(x, i, k) || x == head[i][k].key
      ensures head[i][k].key in contents && contents[head[i][k].key] == head[i][k].val
      ensures !Passed(head[i][k].key, i, k)
    {
      var n := head[i][k];
      assert ChainAt(head, i, contents, hash, logSize) && n in head[i];
      assert hash(n.key, logSize) == i;
      forall x: nat ensures Passed(x, i, k + 1) <==> Passed(x, i, k) || x == n.key {
        assert InChain(head[i][..k + 1], x) <==> InChain(head[i][..k], x) || x == n.key;
      }
    }

    lemma PassChain(i: nat)
      requires Valid() && i < |head|
      ensures forall x: nat :: x in contents ==> (Passed(x, i, |head[i]|) <==> Passed(x, i + 1, 0))
    {
      assert head[i][..|head[i]|] == head[i];
      forall x: nat | x in contents ensures Passed(x, i, |head[i]|) <==> Passed(x, i + 1, 0) {
        assert Found(head, x, hash, logSize);
      }
    }

    lemma PassAll(i: nat)
      requires Valid() && i >= |head|
      ensures forall x: nat :: x in contents ==> Passed(x, i, 0)
    {
      forall x: nat | x in contents ensures Passed(x, i, 0) {
        assert Found(head, x, hash, logSize);
      }
    }

    /** The inner loop of GC_grow_table: the nodes of chain i moved to the new table. */
    method MoveChain(i: nat, table: seq<seq<Node<V>>>, logNew: nat, ghost done: map<nat, V>)
      returns (table': seq<seq<Node<V>>>, ghost done': map<nat, V>)
      requires Valid() && i < |head| && |table| == Pow2(logNew)
      requires TableOk(table, done, hash, logNew) && Moved(done, contents, i)
      ensures |table'| == Pow2(logNew)
      ensures TableOk(table', done', hash, logNew) && Moved(done', contents, i + 1)
    {
      table', done' := table, done;
      var p := head[i];
      assert ChainAt(head, i, contents, hash, logSize);
      PartIsMoved(done, i, 0);
      ghost var k := 0;
      while p != []
        invariant |table'| == Pow2(logNew) && k <= |head[i]| && p == head[i][k..]
        invariant TableOk(table', done', hash, logNew)
        invariant Part(done', i, k)
        decreases |p|
      {
        var n := p[0];
        var newHash := hash(n.key, logNew);
        assert head[i][k] == n && n in head[i];
        PartStep(done', i, k);
        PutOk(table', done', hash, logNew, n);
        table' := table'[newHash := [n] + table'[newHash]];
        done' := done'[n.key := n.val];
        p := p[1..];
        k := k + 1;
      }
      PartIsMoved(done', i, k);
    }

    /** Of the bindings, those of the chains before i. */
    ghost predicate Moved(done: map<nat, V>, m: map<nat, V>, i: nat)
      reads this
    {
      && (forall x: nat :: x in done ==> x in m && done[x] == m[x])
      && (forall x: nat :: x in m ==> (x in done <==> hash(x, logSize) < i))
    }

    /** Of the bindings, those that a walk at position k of chain i has passed. */
    ghost predicate Part(done: map<nat, V>, i: nat, k: nat)
      requires i < |head| && k <= |head[i]|
      reads this
    {
      && (forall x: nat :: x in done ==> x in contents && done[x] == contents[x])
      && (forall x: nat :: x in contents ==> (x in done <==> Passed(x, i, k)))
    }

    lemma PartIsMoved(done: map<nat, V>, i: nat, k: nat)
      requires Valid() && i < |head| && k <= |head[i]|
      ensures k == 0 ==> (Moved(done, contents, i) ==> Part(done, i, k))
      ensures k == |head[i]| ==> (Part(done, i, k) ==> Moved(done, contents, i + 1))
    {
      PassChain(i);
    }

    lemma PartStep(done: map<nat, V>, i: nat, k: nat)
      requires Valid() && i < |head| && k < |head[i]| && Part(done, i, k)
      ensures head[i][k].key !in done
      ensures Part(done[head[i][k].key := head[i][k].val], i, k + 1)
    {
      PassNode(i, k);
    }

    /** GC_grow_table, without the collection it may force first. */
    method GrowTable()
      requires Valid()
      modifies `head, `logSize
      ensures Valid() && head != [] && logSize == old(logSize) + 1
    {
      var logNew := logSize + 1;
      var newTable: seq<seq<Node<V>>> := seq(Pow2(logNew), _ => []);
      ghost var done: map<nat, V> := map[];
      var i := 0;
      while i < |head|
        invariant i <= |head| && |newTable| == Pow2(logNew)
        invariant TableOk(newTable, done, hash, logNew) && Moved(done, contents, i)
        modifies {}
      {
        newTable, done := MoveChain(i, newTable, logNew, done);
        i := i + 1;
      }
      forall x: nat | x in contents ensures x in done {
        assert Found(head, x, hash, logSize);
      }
      assert done == contents;
      logSize := logNew;
      head := newTable;
    }
  }

}
