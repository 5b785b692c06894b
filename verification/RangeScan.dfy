/** How a range with a length descriptor is split and scanned, at the level of bytes. */
module RangeScan {
  import opened Basics

  const PTR: nat := 8                    // sizeof(ptr_t)
  const SPLIT_BYTES: nat := 128 * PTR    // PTRS_TO_BYTES(SPLIT_RANGE_PTRS)
  const PART_BYTES: nat := 127 * PTR
  const SHARE_BYTES: nat := 2048

  /** A mark stack entry with a length descriptor. */
  datatype Entry = Entry(start: nat, len: nat)

  /** What the pointer-sized word at each byte address holds, and the plausible heap addresses. */
  datatype Memory = Memory(load: nat -> nat, least: nat, greatest: nat) {
    predicate Plausible(p: nat) { least < load(p) < greatest }
  }

  /** ALIGNMENT. */
  type Alignment = a: nat | a == 1 || a == 2 || a == 4 || a == 8 witness 1

  /** p and q are a multiple of the alignment apart. */
  predicate InStep(p: int, q: int, a: Alignment) {
    if a == 1 then true
    else if a == 2 then (q - p) % 2 == 0
    else if a == 4 then (q - p) % 4 == 0
    else (q - p) % 8 == 0
  }

  /** p is an aligned pointer slot of the range and holds a plausible pointer. */
  ghost predicate Slot(m: Memory, a: Alignment, e: Entry, p: nat) {
    e.start <= p && p + PTR <= e.start + e.len && InStep(e.start, p, a) && m.Plausible(p)
  }

  /** The highest plausible word at limit, limit - a, ... not below start. */
  function Deferred(m: Memory, a: Alignment, start: nat, limit: int): (r: Option<nat>)
    decreases limit
  {
    if limit < start then None
    else if m.Plausible(limit) then Some(limit)
    else Deferred(m, a, start, limit - a)
  }

  lemma {:induction false} DeferredIs(m: Memory, a: Alignment, start: nat, limit: int)
    ensures var d := Deferred(m, a, start, limit);
      if d.None? then
        forall p: nat :: start <= p <= limit && InStep(p, limit, a) ==> !m.Plausible(p)
      else
        start <= d.value <= limit && InStep(d.value, limit, a) && m.Plausible(d.value)
        && forall p: nat :: d.value < p <= limit && InStep(p, limit, a) ==> !m.Plausible(p)
    decreases limit
  {
    if limit >= start && !m.Plausible(limit) {
      DeferredIs(m, a, start, limit - a);
      forall p: nat
        ensures InStep(p, limit, a) <==> InStep(p, limit - a, a)
        ensures p < limit && InStep(p, limit, a) ==> p <= limit - a
      {
        OneDown(p, limit, a);
      }
    }
  }

  lemma {:induction false} OneDown(p: int, q: int, a: Alignment)
    ensures InStep(p, q, a) <==> InStep(p, q - a, a)
    ensures p < q && InStep(p, q, a) ==> p <= q - a
  {
  }

  lemma {:induction false} StepTrans(p: int, q: int, r: int, a: Alignment)
    requires InStep(p, r, a)
    ensures InStep(p, q, a) <==> InStep(q, r, a)
  {
    if a != 1 {
      Residues(r - p, q - p, a);
    }
  }

  lemma {:induction false} Residues(x: int, y: int, a: Alignment)
    requires a != 1 && InStep(0, x, a)
    ensures InStep(0, y, a) <==> InStep(0, x - y, a)
  {
    if a == 2 {
      Residues2(x, y);
    } else if a == 4 {
      Residues4(x, y);
    } else {
      Residues8(x, y);
    }
  }

  lemma {:induction false} Residues2(x: int, y: int)
    requires x % 2 == 0
    ensures y % 2 == 0 <==> (x - y) % 2 == 0
  {
  }

  lemma {:induction false} Residues4(x: int, y: int)
    requires x % 4 == 0
    ensures y % 4 == 0 <==> (x - y) % 4 == 0
  {
    var t, u, v := x / 4, y / 4, y % 4;
    assert x - y == if v == 0 then 4 * (t - u) else 4 * (t - u - 1) + (4 - v);
  }

  lemma {:induction false} Residues8(x: int, y: int)
    requires x % 8 == 0
    ensures y % 8 == 0 <==> (x - y) % 8 == 0
  {
    var t, u, v := x / 8, y / 8, y % 8;
    assert x - y == if v == 0 then 8 * (t - u) else 8 * (t - u - 1) + (8 - v);
  }

  /** The slots whose contents are considered when words from start to limit are scanned. */
  ghost predicate Considered(m: Memory, a: Alignment, start: nat, limit: int, p: nat) {
    var d := Deferred(m, a, start, limit);
    d.Some? && (p == d.value || (start <= p && p <= d.value - a && InStep(start, p, a) && m.Plausible(p)))
  }

  /** When limit is aligned with start, exactly the aligned plausible words are considered. */
  lemma {:induction false} ConsideredExactly(m: Memory, a: Alignment, start: nat, limit: int, p: nat)
    requires limit >= start ==> InStep(start, limit, a)
    ensures Considered(m, a, start, limit, p) <==> start <= p <= limit && InStep(start, p, a) && m.Plausible(p)
  {
    DeferredIs(m, a, start, limit);
    if start <= p <= limit {
      StepTrans(start, p, limit, a);
      var d := Deferred(m, a, start, limit);
      if d.Some? {
        StepTrans(start, d.value, limit, a);
        if InStep(start, p, a) && p < d.value {
          StepTrans(start, p, d.value, a);
        }
      }
    }
  }

  /** The range loop of GC_mark_from from current to limit (the last word): the addresses
      whose contents are passed to PUSH_CONTENTS. */
  method ScanPart(m: Memory, a: Alignment, current: nat, limit0: nat) returns (visited: seq<nat>)
    requires current <= limit0
    ensures forall p: nat :: p in visited <==> Considered(m, a, current, limit0, p)
    ensures NoDup(visited)
  {
    var limit: int := limit0;
    var deferred := 0;
    // step down to the last plausible word
    while true
      invariant current <= limit
      invariant Deferred(m, a, current, limit) == Deferred(m, a, current, limit0)
      decreases limit
    {
      deferred := limit;
      limit := limit - a;
      if m.Plausible(deferred) {
        break;
      }
      assert Deferred(m, a, current, limit) == Deferred(m, a, current, limit0);
      if limit < current {
        return [];
      }
      // the same for the next word down
      deferred := limit;
      limit := limit - a;
      if m.Plausible(deferred) {
        break;
      }
      assert Deferred(m, a, current, limit) == Deferred(m, a, current, limit0);
      if limit < current {
        return [];
      }
    }
    visited := [];
    var p := current;
    SameStep(current, a);
    while p <= limit
      invariant current <= p && InStep(current, p, a) && limit == deferred - a
      invariant forall q: nat :: q in visited <==> current <= q < p && q <= limit && InStep(current, q, a) && m.Plausible(q)
      invariant NoDup(visited)
      decreases limit - p
    {
      if m.Plausible(p) {
        visited := visited + [p];
      }
      NextStep(current, p, a);
      p := p + a;
    }
    // The word found first is still to be considered.
    visited := visited + [deferred];
  }

  lemma {:induction false} SameStep(p: int, a: Alignment)
    ensures InStep(p, p, a)
  {
  }

  /** Between an aligned address and the next there is no other. */
  lemma {:induction false} NextStep(c: int, p: int, a: Alignment)
    requires InStep(c, p, a)
    ensures InStep(c, p + a, a)
    ensures forall q: nat :: p < q < p + a ==> !InStep(c, q, a)
  {
    forall q: nat | p < q < p + a ensures !InStep(c, q, a) {
      if InStep(c, q, a) {
        StepTrans(c, p, q, a);
      }
    }
  }

  // ---- Splitting.

  /** The address belongs to some entry of the stack. */
  ghost predicate Pending(m: Memory, a: Alignment, stack: seq<Entry>, p: nat) {
    exists i :: 0 <= i < |stack| && Slot(m, a, stack[i], p)
  }

  /** The entries are a multiple of the alignment long. */
  ghost predicate Whole(a: Alignment, stack: seq<Entry>) {
    forall i :: 0 <= i < |stack| ==> InStep(0, stack[i].len, a)
  }

  /** Bounds the work an entry still gives; halving duplicates a word but lowers the sum. */
  function Cost(len: nat): nat {
    if len < 10 then 1 else len - 9
  }

  function Work(stack: seq<Entry>): nat {
    if stack == [] then 0 else Cost(stack[|stack| - 1].len) + Work(stack[..|stack| - 1])
  }

  /** One step of GC_mark_from on the top entry: what replaces it, and the part to scan now,
      if any, from `current` to the last word `limit`. */
  datatype Step = Step(left: seq<Entry>, current: nat, limit: int)

  function TopStep(e: Entry, a: Alignment, parallel: bool, room: bool): Step {
    if e.len < SPLIT_BYTES then
      // scanned at once
      Step([], e.start, e.start + e.len - PTR)
    else if e.len > SHARE_BYTES && parallel && room then
      // halves that share a word, so that a slot across the boundary is in the first
      var newSize := e.len / 2 / PTR * PTR;
      Step([Entry(e.start, newSize + PTR), Entry(e.start + newSize, e.len - newSize)], e.start, e.start - 1)
    else
      // a part now, with the slots that reach into the rest
      Step([Entry(e.start + PART_BYTES, e.len - PART_BYTES)], e.start, e.start + PART_BYTES + PTR - a - PTR)
  }

  /** A step loses no slot and adds none, for an entry of aligned length. */
  lemma {:induction false} StepExact(m: Memory, a: Alignment, e: Entry, parallel: bool, room: bool, p: nat)
    requires InStep(0, e.len, a)
    ensures var s := TopStep(e, a, parallel, room);
      Slot(m, a, e, p) <==> Pending(m, a, s.left, p) || Considered(m, a, s.current, s.limit, p)
  {
    var s := TopStep(e, a, parallel, room);
    StepLimit(a, e, parallel, room);
    ConsideredExactly(m, a, s.current, s.limit, p);
    if e.len < SPLIT_BYTES {
      assert !Pending(m, a, s.left, p);
    } else {
      LeftSlots(m, a, s.left, p);
      if e.len > SHARE_BYTES && parallel && room {
        var newSize := e.len / 2 / PTR * PTR;
        Shift(e.start, newSize, p, a);
      } else {
        Shift(e.start, PART_BYTES, p, a);
        if InStep(e.start, p, a) && p < e.start + PART_BYTES {
          Shift(e.start, PART_BYTES, e.start + PART_BYTES, a);
          SameStep(e.start + PART_BYTES, a);
          StepTrans(e.start, p, e.start + PART_BYTES, a);
        }
      }
    }
  }

  lemma {:induction false} LeftSlots(m: Memory, a: Alignment, l: seq<Entry>, p: nat)
    requires |l| == 1 || |l| == 2
    ensures Pending(m, a, l, p) <==> Slot(m, a, l[0], p) || (|l| == 2 && Slot(m, a, l[1], p))
  {
    if Pending(m, a, l, p) {
      var i :| 0 <= i < |l| && Slot(m, a, l[i], p);
      assert i == 0 || i == 1;
    }
  }

  /** Moving the start by a multiple of the pointer size keeps the alignment. */
  lemma {:induction false} Shift(start: nat, n: nat, p: int, a: Alignment)
    requires n % PTR == 0
    ensures InStep(start, p, a) <==> InStep(start + n, p, a)
  {
    var t := n / 8;
    assert n == 8 * t && InStep(start, start + n, a);
    StepTrans(start, p, start + n, a);
    Flip(p, start + n, a);
  }

  lemma {:induction false} Flip(p: int, q: int, a: Alignment)
    ensures InStep(p, q, a) <==> InStep(q, p, a)
  {
    if a != 1 {
      assert InStep(0, 0, a);
      Residues(0, q - p, a);
    }
  }

  lemma {:induction false} StepLimit(a: Alignment, e: Entry, parallel: bool, room: bool)
    requires InStep(0, e.len, a)
    ensures var s := TopStep(e, a, parallel, room);
      s.limit >= s.current ==> InStep(s.current, s.limit, a)
    ensures Whole(a, TopStep(e, a, parallel, room).left)
  {
    if e.len < SPLIT_BYTES {
      Minus(e.len, PTR, a);
    } else if e.len > SHARE_BYTES && parallel && room {
      var newSize := e.len / 2 / PTR * PTR;
      Minus(e.len, newSize, a);
      Pointers(newSize + PTR, a);
    } else {
      Minus(e.len, PART_BYTES, a);
      Pointers(PART_BYTES, a);
    }
  }

  /** Multiples of the pointer size are aligned. */
  lemma {:induction false} Pointers(n: int, a: Alignment)
    requires n % 8 == 0
    ensures InStep(0, n, a)
  {
    var t := n / 8;
    if a == 2 {
      assert n == 2 * (4 * t);
    } else if a == 4 {
      assert n == 4 * (2 * t);
    }
  }

  lemma {:induction false} Minus(x: int, n: int, a: Alignment)
    requires InStep(0, x, a) && n % 8 == 0
    ensures InStep(0, x - n, a)
  {
    Pointers(n, a);
    if a != 1 {
      Residues(x, n, a);
    }
  }

  // ---- The whole range.

  lemma {:induction false} StepWork(e: Entry, a: Alignment, parallel: bool, room: bool, rest: seq<Entry>)
    ensures Work(rest + TopStep(e, a, parallel, room).left) < Work(rest + [e])
  {
    var l := TopStep(e, a, parallel, room).left;
    assert (rest + [e])[..|rest|] == rest;
    if |l| == 1 {
      assert (rest + l)[..|rest|] == rest;
    } else if |l| == 2 {
      assert (rest + l)[..|rest| + 1] == rest + [l[0]];
      assert (rest + [l[0]])[..|rest|] == rest;
    } else {
      assert rest + l == rest;
    }
  }

  lemma {:induction false} StepStack(m: Memory, a: Alignment, e: Entry, parallel: bool, room: bool, rest: seq<Entry>)
    requires Whole(a, rest + [e])
    ensures var s := TopStep(e, a, parallel, room);
      Whole(a, rest + s.left)
      && forall p: nat :: Pending(m, a, rest + [e], p) <==>
                            Pending(m, a, rest + s.left, p) || Considered(m, a, s.current, s.limit, p)
  {
    var s := TopStep(e, a, parallel, room);
    assert (rest + [e])[|rest|] == e;
    StepLimit(a, e, parallel, room);
    forall i | 0 <= i < |rest| ensures InStep(0, rest[i].len, a) {
      assert (rest + [e])[i] == rest[i];
    }
    forall p: nat ensures Pending(m, a, rest + [e], p) <==>
                            Pending(m, a, rest + s.left, p) || Considered(m, a, s.current, s.limit, p)
    {
      StepExact(m, a, e, parallel, room, p);
      PendingAppend(m, a, rest, [e], p);
      PendingAppend(m, a, rest, s.left, p);
      LeftSlots(m, a, [e], p);
    }
  }

  lemma {:induction false} PendingAppend(m: Memory, a: Alignment, x: seq<Entry>, y: seq<Entry>, p: nat)
    ensures Pending(m, a, x + y, p) <==> Pending(m, a, x, p) || Pending(m, a, y, p)
  {
    if Pending(m, a, x, p) {
      var i :| 0 <= i < |x| && Slot(m, a, x[i], p);
      assert Slot(m, a, (x + y)[i], p);
    }
    if Pending(m, a, y, p) {
      var i :| 0 <= i < |y| && Slot(m, a, y[i], p);
      assert Slot(m, a, (x + y)[|x| + i], p);
    }
    if Pending(m, a, x + y, p) {
      var i :| 0 <= i < |x + y| && Slot(m, a, (x + y)[i], p);
      assert if i < |x| then Slot(m, a, x[i], p) else Slot(m, a, y[i - |x|], p);
    }
  }

  /** The word at p is considered at some step of GC_mark_from, from this stack on.  Halving
      depends on whether marking is parallel and on the room left on a stack of the given size. */
  ghost predicate Looks(m: Memory, a: Alignment, stack: seq<Entry>, parallel: bool, size: nat, p: nat)
    decreases Work(stack)
  {
    stack != [] &&
    var top, rest := stack[|stack| - 1], stack[..|stack| - 1];
    var s := TopStep(top, a, parallel, |stack| < size);
    StepWork(top, a, parallel, |stack| < size, rest);
    assert stack == rest + [top];
    Considered(m, a, s.current, s.limit, p) || Looks(m, a, rest + s.left, parallel, size, p)
  }

  /** GC_mark_from on one range, leaving out what the objects found push themselves: the
      addresses whose contents are considered. */
  method MarkRange(m: Memory, a: Alignment, e: Entry, parallel: bool, stackSize: nat) returns (visited: seq<nat>)
    ensures forall p: nat :: p in visited <==> Looks(m, a, [e], parallel, stackSize, p)
  {
    visited := [];
    var stack := [e];
    while stack != []
      invariant forall p: nat :: p in visited || Looks(m, a, stack, parallel, stackSize, p) <==> Looks(m, a, [e], parallel, stackSize, p)
      decreases Work(stack)
    {
      var top, rest := stack[|stack| - 1], stack[..|stack| - 1];
      assert stack == rest + [top];
      var room := |stack| < stackSize;
      var s := TopStep(top, a, parallel, room);
      StepWork(top, a, parallel, room, rest);
      if s.limit >= s.current {
        var part := ScanPart(m, a, s.current, s.limit);
        visited := visited + part;
      }
      stack := rest + s.left;
    }
  }

  /** Entries of aligned length: just their slots are considered. */
  lemma {:induction false} LooksExactly(m: Memory, a: Alignment, stack: seq<Entry>, parallel: bool, size: nat, p: nat)
    requires Whole(a, stack)
    ensures Looks(m, a, stack, parallel, size, p) <==> Pending(m, a, stack, p)
    decreases Work(stack)
  {
    if stack != [] {
      var top, rest := stack[|stack| - 1], stack[..|stack| - 1];
      var room := |stack| < size;
      assert stack == rest + [top];
      StepWork(top, a, parallel, room, rest);
      StepStack(m, a, top, parallel, room, rest);
      LooksExactly(m, a, rest + TopStep(top, a, parallel, room).left, parallel, size, p);
    }
  }

  // ---- Ranges of other lengths.

  /** The entry ends before p does, or at the end given, which is not a multiple of the alignment
      beyond p but less than one. */
  ghost predicate Misses(a: Alignment, e: Entry, end: nat, p: nat) {
    e.start + e.len < p + PTR || (e.start + e.len == end && e.start <= p && InStep(e.start, p, a))
  }

  /** p is the last aligned slot before the end, and does not end there. */
  predicate Last(a: Alignment, end: nat, p: nat) {
    p + PTR < end < p + PTR + a
  }

  /** The only plausible word is at p. */
  function Only(p: nat): Memory {
    Memory(q => if q == p then 1 else 0, 0, 2)
  }

  lemma {:induction false} ConsideredNot(a: Alignment, start: nat, limit: int, p: nat)
    requires limit < p || limit - a < p < limit
    ensures !Considered(Only(p), a, start, limit, p)
  {
    DeferredIs(Only(p), a, start, limit);
  }

  lemma {:induction false} MissStep(a: Alignment, e: Entry, parallel: bool, room: bool, end: nat, p: nat)
    requires Misses(a, e, end, p) && Last(a, end, p)
    ensures var s := TopStep(e, a, parallel, room);
      !Considered(Only(p), a, s.current, s.limit, p) && forall i :: 0 <= i < |s.left| ==> Misses(a, s.left[i], end, p)
  {
    var s := TopStep(e, a, parallel, room);
    if e.len < SPLIT_BYTES {
      ConsideredNot(a, s.current, s.limit, p);
    } else if e.len > SHARE_BYTES && parallel && room {
      var newSize := e.len / 2 / PTR * PTR;
      Shift(e.start, newSize, p, a);
      ConsideredNot(a, s.current, s.limit, p);
    } else {
      Shift(e.start, PART_BYTES, p, a);
      if p < e.start + PART_BYTES && InStep(e.start + PART_BYTES, p, a) {
        Flip(e.start + PART_BYTES, p, a);
      }
      ConsideredNot(a, s.current, s.limit, p);
    }
  }

  lemma {:induction false} LooksNot(a: Alignment, stack: seq<Entry>, parallel: bool, size: nat, end: nat, p: nat)
    requires Last(a, end, p) && forall i :: 0 <= i < |stack| ==> Misses(a, stack[i], end, p)
    ensures !Looks(Only(p), a, stack, parallel, size, p)
    decreases Work(stack)
  {
    if stack != [] {
      var top, rest := stack[|stack| - 1], stack[..|stack| - 1];
      var room := |stack| < size;
      assert stack == rest + [top];
      StepWork(top, a, parallel, room, rest);
      MissStep(a, top, parallel, room, end, p);
      LooksNot(a, rest + TopStep(top, a, parallel, room).left, parallel, size, end, p);
    }
  }

  /** The last aligned slot of a range whose length is not a multiple of the alignment. */
  lemma {:induction false} LastSlot(a: Alignment, e: Entry) returns (p: nat)
    requires !InStep(0, e.len, a) && e.len >= PTR
    ensures e.start <= p && InStep(e.start, p, a) && Last(a, e.start + e.len, p)
  {
    var g := if a == 2 then e.len % 2 else if a == 4 then e.len % 4 else e.len % 8;
    p := e.start + e.len - PTR - g;
  }

  /** A range, split or not, is scanned exactly, whatever memory holds, if and only if its length
      is a multiple of the alignment or there is no room for a word. */
  lemma {:induction false} RangeExactIff(a: Alignment, e: Entry, parallel: bool, size: nat)
    ensures (forall m: Memory, p: nat :: Slot(m, a, e, p) ==> Looks(m, a, [e], parallel, size, p))
       <==> InStep(0, e.len, a) || e.len < PTR
    ensures InStep(0, e.len, a) ==> forall m: Memory, p: nat :: Looks(m, a, [e], parallel, size, p) <==> Slot(m, a, e, p)
  {
    if InStep(0, e.len, a) {
      forall m: Memory, p: nat ensures Looks(m, a, [e], parallel, size, p) <==> Slot(m, a, e, p) {
        LooksExactly(m, a, [e], parallel, size, p);
        LeftSlots(m, a, [e], p);
      }
    } else if e.len >= PTR {
      var p := LastSlot(a, e);
      LooksNot(a, [e], parallel, size, e.start + e.len, p);
      assert Slot(Only(p), a, e, p);
    }
  }

  /** Scanning a small range considers every aligned plausible word, whatever memory holds,
      exactly when its length is a multiple of the alignment or there is no room for a word:
      the search from the end steps down from the end. */
  lemma {:induction false} SmallRangeExactIff(a: Alignment, e: Entry)
    ensures (forall m: Memory, p: nat :: Slot(m, a, e, p) ==> Considered(m, a, e.start, e.start + e.len - PTR, p))
       <==> InStep(0, e.len, a) || e.len < PTR
  {
    var limit := e.start + e.len - PTR;
    if InStep(0, e.len, a) || e.len < PTR {
      forall m: Memory, p: nat | Slot(m, a, e, p) ensures Considered(m, a, e.start, limit, p) {
        Minus(e.len, PTR, a);
        ConsideredExactly(m, a, e.start, limit, p);
      }
    } else {
      var m := Memory(p => if p == e.start then 1 else 0, 0, 2);
      SameStep(e.start, a);
      assert Slot(m, a, e, e.start);
      DeferredIs(m, a, e.start, limit);
      if InStep(e.start, limit, a) {
        Minus(limit - e.start, -8, a);
      }
      assert !Considered(m, a, e.start, limit, e.start);
    }
  }
}
