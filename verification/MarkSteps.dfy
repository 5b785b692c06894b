/** Marking from the bounded mark stack, one step at a time, as functions on what the steps
    change; and what every step keeps. */
module MarkSteps {
  import opened Basics
  import opened MarkHeap

  datatype MarkState =
    | MS_NONE | MS_PUSH_RESCUERS | MS_PUSH_UNCOLLECTABLE
    | MS_ROOTS_PUSHED | MS_PARTIALLY_INVALID | MS_INVALID

  /** What the marking steps change, and the entries that have been thrown away since the
      marks were last valid. */
  datatype Snap = Snap(st: MarkState, marked: set<nat>, stack: seq<Entry>, dropped: seq<Entry>)

  /** The word at a is accounted for: what it refers to is marked, or the word itself still
      lies in a range on the stack, or in one that was thrown away. */
  ghost predicate Settled(h: Heap, s: Snap, a: nat) {
    h.Target(a).Some? ==> h.Target(a).value in s.marked || In(s.stack, a) || In(s.dropped, a)
  }

  ghost predicate Scanned(h: Heap, s: Snap, o: nat)
    requires h.BlocksValid() && o in h.home
  {
    forall a :: h.Fields(o).Has(a) ==> Settled(h, s, a)
  }

  ghost predicate StackSafe(h: Heap, live: set<nat>, stack: seq<Entry>) {
    forall a :: In(stack, a) ==> h.Safe(live, a)
  }

  /** Whatever is not marked yet leads only to objects of `live`, and so does what is on the
      stack; nothing has been thrown away unless the state says so. */
  ghost predicate SnapOk(h: Heap, live: set<nat>, size: nat, s: Snap)
    requires h.BlocksValid()
  {
    && h.FieldsClosed(live, s.marked)
    && INITIAL_MARK_STACK_SIZE <= size
    && |s.stack| <= size
    && s.marked <= live
    && StackSafe(h, live, s.stack)
    && (s.st != MS_INVALID ==> s.dropped == [])
  }

  /** No word that was accounted for in b is forgotten in c, and the objects newly marked are
      accounted for; the state changes only to MS_INVALID, and only when an entry is dropped. */
  ghost predicate Advance(h: Heap, live: set<nat>, b: Snap, c: Snap)
    requires h.BlocksValid() && live <= h.Objs()
  {
    && b.marked <= c.marked <= live
    && StackSafe(h, live, c.stack)
    && (forall a :: In(c.dropped, a) ==> In(b.dropped, a) || h.Safe(live, a))
    && (c.st == b.st || (c.st == MS_INVALID && b.marked < c.marked && |b.dropped| < |c.dropped|))
    && (c.st != MS_INVALID ==> c.dropped == b.dropped)
    && |b.dropped| <= |c.dropped|
    && (forall o :: o in c.marked && o !in b.marked ==> Scanned(h, c, o))
    && (forall a :: Settled(h, b, a) ==> Settled(h, c, a))
  }

  lemma {:induction false} AdvanceTransitive(h: Heap, live: set<nat>, b: Snap, c: Snap, d: Snap)
    requires h.BlocksValid() && live <= h.Objs()
    requires Advance(h, live, b, c) && Advance(h, live, c, d)
    ensures Advance(h, live, b, d)
  {
  }

  /** Scanning work left on the stack; every entry counts even when it is empty. */
  ghost function Work(stack: seq<Entry>): nat {
    if |stack| == 0 then 0 else stack[|stack| - 1].len + 1 + Work(stack[..|stack| - 1])
  }

  lemma InConcat(s: seq<Entry>, t: seq<Entry>, a: nat)
    ensures In(s + t, a) <==> In(s, a) || In(t, a)
  {
    if i :| 0 <= i < |s| && s[i].Has(a) {
      assert (s + t)[i].Has(a);
    }
    if i :| 0 <= i < |t| && t[i].Has(a) {
      assert (s + t)[|s| + i].Has(a);
    }
  }

  lemma InPush(s: seq<Entry>, e: Entry, a: nat)
    ensures In(s + [e], a) <==> In(s, a) || e.Has(a)
  {
    InConcat(s, [e], a);
    assert [e][0].Has(a) <==> In([e], a);
  }

  // ---- Pushing.

  /** The entry e pushed on a stack of the given size; a full one loses its topmost entries. */
  ghost function WithEntry(size: nat, s: Snap, e: Entry): Snap
    requires |s.stack| <= size && MARK_STACK_DISCARDS <= size
  {
    if |s.stack| < size then s.(stack := s.stack + [e])
    else
      var keep := size - MARK_STACK_DISCARDS;
      Snap(MS_INVALID, s.marked, s.stack[..keep] + [e], s.dropped + s.stack[keep..])
  }

  /** The unmarked object o marked and pushed. */
  ghost function Pushed(h: Heap, size: nat, s: Snap, o: nat): Snap
    requires h.BlocksValid() && o in h.home && |s.stack| <= size && MARK_STACK_DISCARDS <= size
  {
    var t := s.(marked := s.marked + {o});
    if h.Fields(o).len == 0 then t else WithEntry(size, t, h.Fields(o))
  }

  /** What considering the value q as a pointer does. */
  ghost function Considered(h: Heap, size: nat, s: Snap, q: nat): Snap
    requires h.Valid() && |s.stack| <= size && MARK_STACK_DISCARDS <= size
  {
    if h.base(q).None? || h.base(q).value in s.marked then s else Pushed(h, size, s, h.base(q).value)
  }

  lemma {:induction false} WithEntryIn(size: nat, s: Snap, e: Entry, a: nat)
    requires |s.stack| <= size && MARK_STACK_DISCARDS <= size
    ensures var t := WithEntry(size, s, e);
      (In(t.stack, a) || In(t.dropped, a)) <==> (In(s.stack, a) || In(s.dropped, a) || e.Has(a))
  {
    InPush(s.stack, e, a);
    if |s.stack| == size {
      var keep := size - MARK_STACK_DISCARDS;
      assert s.stack == s.stack[..keep] + s.stack[keep..];
      InConcat(s.stack[..keep], s.stack[keep..], a);
      InPush(s.stack[..keep], e, a);
      InConcat(s.dropped, s.stack[keep..], a);
    }
  }

  /** Marking and pushing an object loses nothing but what it throws away. */
  lemma {:induction false} PushedAdvances(h: Heap, live: set<nat>, size: nat, b: Snap, o: nat)
    requires h.Valid() && SnapOk(h, live, size, b) && o in live && o !in b.marked
    ensures var c := Pushed(h, size, b, o);
      SnapOk(h, live, size, c) && Advance(h, live, b, c) && b.marked < c.marked
  {
    var c, e := Pushed(h, size, b, o), h.Fields(o);
    var t := b.(marked := b.marked + {o});
    forall a ensures In(c.stack, a) || In(c.dropped, a) <==> In(b.stack, a) || In(b.dropped, a) || e.Has(a) {
      if e.len != 0 {
        WithEntryIn(size, t, e, a);
      }
    }
  }

  // ---- What an overflow takes.

  /** The pointer-containing objects of c that are not in b. */
  ghost function NewPointers(h: Heap, b: set<nat>, c: set<nat>): set<nat>
    requires h.BlocksValid()
  {
    set o | o in c && o !in b && o in h.home && h.Fields(o).len != 0
  }

  /** Each new entry stands for another object newly marked, and nothing is thrown away before
      there are more of them than the stack holds. */
  ghost predicate Frugal(h: Heap, size: nat, b: Snap, c: Snap)
    requires h.BlocksValid()
  {
    && |c.stack| <= |b.stack| + |NewPointers(h, b.marked, c.marked)|
    && (c.dropped != b.dropped ==> size < |b.stack| + |NewPointers(h, b.marked, c.marked)|)
  }

  lemma {:induction false} NewPointersAdd(h: Heap, b: set<nat>, c: set<nat>, d: set<nat>)
    requires h.BlocksValid() && b <= c <= d
    ensures |NewPointers(h, b, d)| == |NewPointers(h, b, c)| + |NewPointers(h, c, d)|
  {
    assert NewPointers(h, b, d) == NewPointers(h, b, c) + NewPointers(h, c, d);
    assert NewPointers(h, b, c) !! NewPointers(h, c, d);
  }

  lemma {:induction false} FrugalTransitive(h: Heap, size: nat, b: Snap, c: Snap, d: Snap)
    requires h.BlocksValid() && b.marked <= c.marked <= d.marked
    requires Frugal(h, size, b, c) && Frugal(h, size, c, d)
    ensures Frugal(h, size, b, d)
  {
    NewPointersAdd(h, b.marked, c.marked, d.marked);
  }

  lemma {:induction false} PushedIsFrugal(h: Heap, size: nat, b: Snap, o: nat)
    requires h.BlocksValid() && o in h.home && |b.stack| <= size && MARK_STACK_DISCARDS <= size && o !in b.marked
    ensures Frugal(h, size, b, Pushed(h, size, b, o))
  {
    assert NewPointers(h, b.marked, b.marked + {o}) == if h.Fields(o).len != 0 then {o} else {};
  }

  /** What every step of marking from the stack keeps. */
  ghost predicate Follows(h: Heap, live: set<nat>, size: nat, b: Snap, c: Snap)
    requires h.BlocksValid()
  {
    SnapOk(h, live, size, c) && Advance(h, live, b, c) && Frugal(h, size, b, c)
  }

  lemma {:induction false} FollowsSelf(h: Heap, live: set<nat>, size: nat, b: Snap)
    requires h.BlocksValid() && SnapOk(h, live, size, b)
    ensures Follows(h, live, size, b, b)
  {
  }

  lemma {:induction false} FollowsTransitive(h: Heap, live: set<nat>, size: nat, b: Snap, c: Snap, d: Snap)
    requires h.BlocksValid() && Follows(h, live, size, b, c) && Follows(h, live, size, c, d)
    ensures Follows(h, live, size, b, d)
  {
    AdvanceTransitive(h, live, b, c, d);
    FrugalTransitive(h, size, b, c, d);
  }

  lemma {:induction false} ConsideredFollows(h: Heap, live: set<nat>, size: nat, b: Snap, a: nat)
    requires h.Valid() && SnapOk(h, live, size, b) && h.Safe(live, a)
    ensures var c := Considered(h, size, b, h.load(a));
      Follows(h, live, size, b, c) && (c == b || b.marked < c.marked)
      && (h.Target(a).Some? ==> h.Target(a).value in c.marked)
  {
    if h.Target(a).Some? && h.Target(a).value !in b.marked {
      PushedAdvances(h, live, size, b, h.Target(a).value);
      PushedIsFrugal(h, size, b, h.Target(a).value);
    } else {
      FollowsSelf(h, live, size, b);
    }
  }

  // ---- Scanning.

  /** The n words from start considered one after the other. */
  ghost function ScanSnap(h: Heap, size: nat, s: Snap, start: nat, n: nat): (r: Snap)
    requires h.Valid() && |s.stack| <= size && INITIAL_MARK_STACK_SIZE <= size
    ensures |r.stack| <= size
    decreases n
  {
    if n == 0 then s else Considered(h, size, ScanSnap(h, size, s, start, n - 1), h.load(start + n - 1))
  }

  /** Words that refer to nothing change nothing. */
  lemma {:induction false} ScanNothing(h: Heap, size: nat, s: Snap, start: nat, n: nat, n': nat)
    requires h.Valid() && |s.stack| <= size && INITIAL_MARK_STACK_SIZE <= size && n <= n'
    requires forall a: nat :: start + n <= a < start + n' ==> h.Target(a).None?
    ensures ScanSnap(h, size, s, start, n') == ScanSnap(h, size, s, start, n)
    decreases n'
  {
    if n < n' {
      ScanNothing(h, size, s, start, n, n' - 1);
      assert h.Target(start + n' - 1).None?;
    }
  }

  /** What the n words from start refer to is marked. */
  ghost predicate RangeMarked(h: Heap, marked: set<nat>, start: nat, n: nat) {
    forall a: nat :: start <= a < start + n && h.Target(a).Some? ==> h.Target(a).value in marked
  }

  /** c comes of s by considering some words: the n words from start, at least. */
  ghost predicate ScannedTo(h: Heap, live: set<nat>, size: nat, s: Snap, start: nat, n: nat, c: Snap)
    requires h.BlocksValid()
  {
    Follows(h, live, size, s, c) && (c == s || s.marked < c.marked) && RangeMarked(h, c.marked, start, n)
  }

  lemma {:induction false} ScanNext(h: Heap, live: set<nat>, size: nat, s: Snap, start: nat, n: nat, b: Snap, c: Snap)
    requires h.Valid() && n > 0 && ScannedTo(h, live, size, s, start, n - 1, b) && h.Safe(live, start + n - 1)
    requires c == Considered(h, size, b, h.load(start + n - 1))
    ensures ScannedTo(h, live, size, s, start, n, c)
  {
    ConsideredFollows(h, live, size, b, start + n - 1);
    FollowsTransitive(h, live, size, s, b, c);
  }

  ghost predicate RangeSafe(h: Heap, live: set<nat>, start: nat, n: nat) {
    forall a: nat :: start <= a < start + n ==> h.Safe(live, a)
  }

  lemma {:induction false} ScanFollows(h: Heap, live: set<nat>, size: nat, s: Snap, start: nat, n: nat, c: Snap)
    requires h.Valid() && SnapOk(h, live, size, s) && RangeSafe(h, live, start, n)
    requires c == ScanSnap(h, size, s, start, n)
    ensures ScannedTo(h, live, size, s, start, n, c)
    decreases n
  {
    if n == 0 {
      FollowsSelf(h, live, size, s);
    } else {
      var b := ScanSnap(h, size, s, start, n - 1);
      ScanFollows(h, live, size, s, start, n - 1, b);
      ScanNext(h, live, size, s, start, n, b, c);
    }
  }

  // ---- Popping.

  /** How many words of the top entry are scanned at once. */
  function Part(len: nat): nat {
    if len >= SPLIT_RANGE_PTRS then SPLIT_RANGE_PTRS - 1 else len
  }

  /** The stack without the part of its top entry that is scanned next. */
  function Rest(stack: seq<Entry>): seq<Entry>
    requires |stack| > 0
  {
    var e, n := stack[|stack| - 1], Part(stack[|stack| - 1].len);
    if n < e.len then stack[..|stack| - 1] + [Entry(e.start + n, e.len - n)] else stack[..|stack| - 1]
  }

  /** The top entry, or the first part of a large one, taken off the stack and scanned. */
  ghost function PopSnap(h: Heap, size: nat, s: Snap): (r: Snap)
    requires h.Valid() && 0 < |s.stack| <= size && INITIAL_MARK_STACK_SIZE <= size
    ensures |r.stack| <= size
  {
    var e := s.stack[|s.stack| - 1];
    ScanSnap(h, size, s.(stack := Rest(s.stack)), e.start, Part(e.len))
  }

  lemma {:induction false} RestIn(stack: seq<Entry>, a: nat)
    requires |stack| > 0
    ensures var e := stack[|stack| - 1];
      In(stack, a) <==> In(Rest(stack), a) || e.start <= a < e.start + Part(e.len)
  {
    var e, below := stack[|stack| - 1], stack[..|stack| - 1];
    var n := Part(e.len);
    assert stack == below + [e];
    InPush(below, e, a);
    InPush(below, Entry(e.start + n, e.len - n), a);
  }

  lemma {:induction false} RestWork(stack: seq<Entry>)
    requires |stack| > 0
    ensures Work(Rest(stack)) < Work(stack) && |Rest(stack)| <= |stack|
  {
    var e, r := stack[|stack| - 1], Rest(stack);
    if Part(e.len) < e.len {
      assert r[..|r| - 1] == stack[..|stack| - 1];
    }
  }

  lemma {:induction false} PopFollows(h: Heap, live: set<nat>, size: nat, s: Snap)
    requires h.Valid() && SnapOk(h, live, size, s) && |s.stack| > 0
    ensures var c := PopSnap(h, size, s);
      Follows(h, live, size, s, c) && (s.marked < c.marked || (c.marked == s.marked && c.st == s.st && Work(c.stack) < Work(s.stack)))
  {
    var e := s.stack[|s.stack| - 1];
    var t := s.(stack := Rest(s.stack));
    RestWork(s.stack);
    forall a: nat ensures In(s.stack, a) <==> In(t.stack, a) || e.start <= a < e.start + Part(e.len) {
      RestIn(s.stack, a);
    }
    ScanFollows(h, live, size, t, e.start, Part(e.len), PopSnap(h, size, s));
    PoppedFollows(h, live, size, s, t, PopSnap(h, size, s), e.start, Part(e.len));
  }

  /** The words taken off the stack have been looked at. */
  lemma {:induction false} PoppedFollows(h: Heap, live: set<nat>, size: nat, s: Snap, t: Snap, c: Snap, start: nat, n: nat)
    requires h.Valid() && SnapOk(h, live, size, s) && t == s.(stack := t.stack) && |t.stack| <= |s.stack|
    requires forall a: nat {:trigger In(s.stack, a)} {:trigger In(t.stack, a)} :: In(s.stack, a) <==> In(t.stack, a) || start <= a < start + n
    requires Follows(h, live, size, t, c)
    requires RangeMarked(h, c.marked, start, n)
    ensures Follows(h, live, size, s, c)
  {
    forall a: nat | Settled(h, s, a) ensures Settled(h, c, a) {
      assert Settled(h, t, a) || start <= a < start + n;
    }
  }

  // ---- Draining.


  /** The stack popped until it is empty. */
  ghost function Drained(h: Heap, size: nat, s: Snap): (r: Snap)
    requires h.Valid() && s.marked <= h.Objs() && |s.stack| <= size && INITIAL_MARK_STACK_SIZE <= size
    requires s.st != MS_INVALID ==> s.dropped == []
    ensures r.stack == [] && r.marked <= h.Objs()
    decreases h.Objs() - s.marked, Work(s.stack)
  {
    if s.stack == [] then s
    else
      PopFollows(h, h.Objs(), size, s);
      Drained(h, size, PopSnap(h, size, s))
  }

  /** The bytes scanned when the top entry is popped. */
  function PartBytes(stack: seq<Entry>): nat
    requires |stack| > 0
  {
    8 * Part(stack[|stack| - 1].len)
  }

  /** The stack popped until it is empty or more bytes than the credit allows have been scanned. */
  ghost function MarkedFor(h: Heap, size: nat, s: Snap, credit: int): (r: Snap)
    requires h.Valid() && s.marked <= h.Objs() && |s.stack| <= size && INITIAL_MARK_STACK_SIZE <= size
    requires s.st != MS_INVALID ==> s.dropped == []
    decreases h.Objs() - s.marked, Work(s.stack)
  {
    if s.stack == [] || credit < 0 then s
    else
      PopFollows(h, h.Objs(), size, s);
      MarkedFor(h, size, PopSnap(h, size, s), credit - PartBytes(s.stack))
  }

  lemma {:induction false} DrainedFollows(h: Heap, live: set<nat>, size: nat, s: Snap)
    requires h.Valid() && SnapOk(h, live, size, s)
    ensures Follows(h, live, size, s, Drained(h, size, s))
    decreases h.Objs() - s.marked, Work(s.stack)
  {
    if s.stack == [] {
      FollowsSelf(h, live, size, s);
    } else {
      var c := PopSnap(h, size, s);
      PopFollows(h, live, size, s);
      DrainedFollows(h, live, size, c);
      FollowsTransitive(h, live, size, s, c, Drained(h, size, c));
    }
  }
}
