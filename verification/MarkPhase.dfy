/** One mark phase of the sequential marker (GC_parallel is FALSE): the state
    machine of GC_mark_some over the bounded mark stack. */
module MarkPhase {
  import opened Basics
  import opened MarkHeap
  import opened MarkSteps

  /** Which marked objects may still hold unvisited references in a given state. */
  ghost predicate Exempt(h: Heap, st: MarkState, scan: nat, o: nat)
    requires h.BlocksValid() && o in h.home
  {
    match st
    case MS_INVALID => true
    case MS_PARTIALLY_INVALID => h.BlockOf(o).addr >= scan
    case MS_PUSH_UNCOLLECTABLE => h.BlockOf(o).uncollectable && h.BlockOf(o).addr >= scan
    case MS_PUSH_RESCUERS => WasDirty(h, h.BlockOf(o)) && h.BlockOf(o).addr >= scan
    case _ => false
  }

  /** Which root words are already accounted for in a given state. */
  ghost predicate RootOwed(h: Heap, st: MarkState, a: nat) {
    match st
    case MS_NONE => h.RootSlot(a)
    case MS_ROOTS_PUSHED => h.RootSlot(a)
    case MS_PUSH_RESCUERS => In(h.staticRoots, a) && !h.DirtySlot(a)
    case _ => false
  }

  predicate WasDirty(h: Heap, b: Block) {
    exists p | b.addr <= p < b.addr + b.nblocks :: p in h.dirty
  }

  datatype Filter = Any | Uncollectable | Dirty

  ghost predicate Wants(h: Heap, f: Filter, b: Block) {
    match f
    case Any => true
    case Uncollectable => b.uncollectable
    case Dirty => WasDirty(h, b)
  }

  ghost function Rank(st: MarkState, objectsMarked: bool, scan: nat): nat {
    match st
    case MS_NONE => 0
    case MS_ROOTS_PUSHED => 1
    case MS_PARTIALLY_INVALID => 2
    case MS_INVALID => if !objectsMarked then 6 else if scan == 0 then 3 else 4
    case _ => 5
  }

  ghost function BlocksLeft(h: Heap, scan: nat): nat {
    if scan == 0 then |h.blocks| + 2 else |h.blocks| - h.NextBlock(scan) + 1
  }

  /** Strict decrease of (objects to mark, state, blocks to scan, stack work). */
  ghost predicate Closer(h: Heap, b: Snap, bObj: bool, bScan: nat, c: Snap, cObj: bool, cScan: nat) {
    || b.marked < c.marked
    || (b.marked == c.marked &&
        (|| Rank(c.st, cObj, cScan) < Rank(b.st, bObj, bScan)
         || (Rank(c.st, cObj, cScan) == Rank(b.st, bObj, bScan) &&
             (|| BlocksLeft(h, cScan) < BlocksLeft(h, bScan)
              || (BlocksLeft(h, cScan) == BlocksLeft(h, bScan) && Work(c.stack) < Work(b.stack))))))
  }

  /** The scan has moved from `from` to next (0: past the last block), and every block in
      between that f asks for has had its marked objects looked at. */
  ghost predicate PassedOver(h: Heap, s: Snap, f: Filter, from: nat, next: nat)
    requires h.BlocksValid()
  {
    && (next != 0 ==> from < next && h.NextBlock(from) < h.NextBlock(next))
    && (forall o :: o in s.marked && o in h.home && Wants(h, f, h.BlockOf(o))
                    && from <= h.BlockOf(o).addr && (next == 0 || h.BlockOf(o).addr < next) ==>
          Scanned(h, s, o))
  }

  /** The invariant of a mark phase. */
  ghost predicate PhaseInv(h: Heap, live: set<nat>, s: Snap, scan: nat, objectsMarked: bool)
    requires h.BlocksValid() && live <= h.Objs()
  {
    && s.marked <= live
    && (s.st != MS_INVALID ==> s.dropped == [])
    && (forall o :: o in s.marked && !Exempt(h, s.st, scan, o) ==> Scanned(h, s, o))
    && (forall a :: RootOwed(h, s.st, a) ==> Settled(h, s, a))
    && (s.st == MS_NONE ==> s.stack == [])
    && (s.st == MS_ROOTS_PUSHED ==> scan == 0)
    && (s.st == MS_PARTIALLY_INVALID ==> objectsMarked)
    && (s.st == MS_INVALID && !objectsMarked ==>
          && s.stack == []
          && scan == 0
          && forall o :: o in s.marked ==> h.BlockOf(o).uncollectable)
  }

  /** Marking from the stack keeps the invariant. */
  lemma {:induction false} AdvanceKeepsInv(h: Heap, live: set<nat>, b: Snap, c: Snap, scan: nat, objectsMarked: bool)
    requires h.BlocksValid() && live <= h.Objs()
    requires PhaseInv(h, live, b, scan, objectsMarked) && Advance(h, live, b, c)
    requires b.st == MS_NONE ==> c.stack == []
    ensures PhaseInv(h, live, c, scan, true)
  {
    forall o | o in c.marked && !Exempt(h, c.st, scan, o) ensures Scanned(h, c, o) {
      if o in b.marked {
        assert Scanned(h, b, o);
      }
    }
  }

  function ScanFilter(st: MarkState): Filter {
    match st
    case MS_PUSH_RESCUERS => Dirty
    case MS_PUSH_UNCOLLECTABLE => Uncollectable
    case _ => Any
  }

  /** So does moving the scan pointer past blocks that have been looked at. */
  lemma {:induction false} ScanKeepsInv(h: Heap, live: set<nat>, b: Snap, c: Snap, scan: nat, next: nat, objectsMarked: bool, objectsMarked': bool)
    requires h.BlocksValid() && live <= h.Objs()
    requires PhaseInv(h, live, b, scan, objectsMarked) && Advance(h, live, b, c)
    requires b.st in {MS_PUSH_RESCUERS, MS_PUSH_UNCOLLECTABLE, MS_PARTIALLY_INVALID}
    requires PassedOver(h, c, ScanFilter(b.st), scan, next) && next != 0
    requires objectsMarked ==> objectsMarked'
    requires !objectsMarked' ==> b == c
    ensures PhaseInv(h, live, c, next, objectsMarked')
  {
    forall o | o in c.marked && !Exempt(h, c.st, next, o) ensures Scanned(h, c, o) {
      if o in b.marked && !Exempt(h, b.st, scan, o) {
        assert Scanned(h, b, o);
      }
    }
  }

  /** When the scan is over and the roots are pushed, nothing is exempt any more. */
  lemma {:induction false} RootsCompleteInv(h: Heap, live: set<nat>, b: Snap, c: Snap, d: Snap, scan: nat, objectsMarked: bool, all: bool)
    requires h.Valid() && live <= h.Objs()
    requires PhaseInv(h, live, b, scan, objectsMarked)
    requires b.st in {MS_PUSH_RESCUERS, MS_PUSH_UNCOLLECTABLE, MS_PARTIALLY_INVALID}
    requires !all ==> b.st == MS_PUSH_RESCUERS
    requires PassedOver(h, b, ScanFilter(b.st), scan, 0)
    requires Advance(h, live, b, c)
    requires d == (if c.st == MS_INVALID then c else c.(st := MS_ROOTS_PUSHED))
    requires d.st == MS_ROOTS_PUSHED ==>
      forall a :: (In(h.staticRoots, a) && (all || h.DirtySlot(a))) || In(h.stackRoots, a) ==> Settled(h, d, a)
    ensures PhaseInv(h, live, d, 0, true)
  {
    if d.st == MS_ROOTS_PUSHED {
      forall o | o in d.marked ensures Scanned(h, d, o) {
        if o in b.marked {
          assert Scanned(h, b, o);
        } else {
          assert Scanned(h, c, o);
        }
        assert forall a :: Settled(h, c, a) ==> Settled(h, d, a);
      }
      forall a | h.RootSlot(a) ensures Settled(h, d, a) {
        if !all && In(h.staticRoots, a) && !h.DirtySlot(a) {
          assert RootOwed(h, b.st, a);
          assert Settled(h, c, a);
        }
      }
    }
  }

  lemma CloserTransitive(h: Heap, b: Snap, bObj: bool, bScan: nat, c: Snap, cObj: bool, cScan: nat, d: Snap, dObj: bool, dScan: nat)
    requires Closer(h, b, bObj, bScan, c, cObj, cScan) && Closer(h, c, cObj, cScan, d, dObj, dScan)
    ensures Closer(h, b, bObj, bScan, d, dObj, dScan)
  {
  }

  /** A phase may start from the marks of uncollectable objects alone. */
  lemma {:induction false} ClearedInv(h: Heap, u: set<nat>, size: nat)
    requires h.Valid() && u <= h.Objs() && INITIAL_MARK_STACK_SIZE <= size
    requires forall o :: o in u ==> h.BlockOf(o).uncollectable
    ensures
      var live, s := h.LiveSet(u), Snap(MS_INVALID, u, [], []);
      h.Closed(live) && SnapOk(h, live, size, s) && PhaseInv(h, live, s, 0, false)
  {
    LiveSetClosed(h, u);
    ClosedFields(h, h.LiveSet(u), u);
  }

  /** The first of the blocks from index i on that f asks for. */
  ghost function FirstWanted(h: Heap, f: Filter, i: nat): (r: nat)
    requires i <= |h.blocks|
    ensures r <= |h.blocks|
    decreases |h.blocks| - i
  {
    if i == |h.blocks| || Wants(h, f, h.blocks[i]) then i else FirstWanted(h, f, i + 1)
  }

  /** Where a scan from address a goes on after the first block that f asks for; 0 if none is left. */
  ghost function ScanResume(h: Heap, f: Filter, a: nat): nat {
    var i := FirstWanted(h, f, h.NextBlock(a));
    if i >= |h.blocks| then 0 else h.blocks[i].addr + h.blocks[i].nblocks
  }

  lemma NextAfter(h: Heap, i: nat)
    requires h.BlocksValid() && i < |h.blocks|
    ensures h.NextBlock(h.blocks[i].addr + h.blocks[i].nblocks) == i + 1
  {
    assert forall k: nat :: k < i ==> h.blocks[k].addr + h.blocks[k].nblocks <= h.blocks[i].addr;
    assert i + 1 < |h.blocks| ==> h.blocks[i].addr + h.blocks[i].nblocks <= h.blocks[i + 1].addr;
  }

  lemma {:induction false} NotWanted(h: Heap, f: Filter, i: nat)
    requires i <= |h.blocks|
    ensures i <= FirstWanted(h, f, i) <= |h.blocks|
    ensures forall k :: i <= k < FirstWanted(h, f, i) ==> !Wants(h, f, h.blocks[k])
    decreases |h.blocks| - i
  {
    if i < |h.blocks| && !Wants(h, f, h.blocks[i]) {
      NotWanted(h, f, i + 1);
    }
  }

  /** How many entries there can be before the last one that GC_push_selected pushes for a
      range, when there are n before the first. */
  function Most(size: nat, n: nat): nat {
    if n > 3 * size / 4 + 2 then n else 3 * size / 4 + 2
  }

  predicate Near(size: nat, n: nat) {
    n == 0 || n - 1 > 3 * size / 4
  }

  /** Static roots need this many ranges, and one more, to be able to overflow the stack in a
      phase that begins in the given state. */
  function RootLimit(st: MarkState): nat {
    if st == MS_PUSH_RESCUERS then INITIAL_MARK_STACK_SIZE / 4 - 2 else INITIAL_MARK_STACK_SIZE / 2
  }

  class Marker {
    const heap: Heap
    const room: nat -> bool      // is there memory for a mark stack of this size
    var state: MarkState
    var stack: seq<Entry>        // entries GC_mark_stack .. GC_mark_stack_top
    var size: nat                // GC_mark_stack_size
    var marked: set<nat>         // base addresses of objects whose mark bit is set
    var scanPtr: nat             // GC_scan_ptr as a block number; 0 is NULL
    var tooSmall: bool           // GC_mark_stack_too_small
    var objectsMarked: bool      // GC_objects_are_marked
    ghost var live: set<nat>
    ghost var dropped: seq<Entry>

    ghost function Now(): Snap
      reads this
    {
      Snap(state, marked, stack, dropped)
    }

    /** An overflow is remembered until the mark stack has been reallocated. */
    ghost predicate Remembered()
      reads this
    {
      dropped != [] ==> tooSmall
    }

    /** The mark stack can be used. */
    ghost predicate Usable()
      reads this
    {
      heap.Valid() && INITIAL_MARK_STACK_SIZE <= size && |stack| <= size && Remembered()
    }

    ghost predicate Basic()
      reads this
    {
      heap.Valid() && SnapOk(heap, live, size, Now()) && Remembered()
    }

    ghost predicate Valid()
      reads this
    {
      Basic() && heap.Closed(live) && PhaseInv(heap, live, Now(), scanPtr, objectsMarked)
    }

    /** GC_custom_push_proc; a full stack loses its top MARK_STACK_DISCARDS entries. */
    method PushEntry(e: Entry)
      requires |stack| <= size && INITIAL_MARK_STACK_SIZE <= size
      modifies this`stack, this`state, this`tooSmall, this`dropped
      ensures Now() == WithEntry(size, old(Now()), e)
      ensures tooSmall <==> old(tooSmall) || |old(stack)| == size
    {
      if |stack| >= size {
        state := MS_INVALID;
        tooSmall := true;
        dropped := dropped + stack[|stack| - MARK_STACK_DISCARDS..];
        stack := stack[..|stack| - MARK_STACK_DISCARDS];
      }
      stack := stack + [e];
    }

    /** GC_push_contents_hdr: mark the object q refers to, and push it if it was unmarked. */
    method PushContents(q: nat)
      requires Usable()
      modifies this`stack, this`state, this`tooSmall, this`marked, this`dropped
      ensures old(tooSmall) ==> tooSmall
      ensures Usable() && Now() == Considered(heap, size, old(Now()), q)
    {
      var r := heap.base(q);
      if r.None? {
        return;  // not a valid pointer: only black-listed
      }
      var o := r.value;
      if o in marked {
        return;
      }
      marked := marked + {o};
      var e := heap.Fields(o);
      if e.len != 0 {
        PushEntry(e);
      }
    }

    /** The same for the word at p, if it looks like a pointer. */
    method PushWord(p: nat)
      requires Usable()
      modifies this`stack, this`state, this`tooSmall, this`marked, this`dropped
      ensures old(tooSmall) ==> tooSmall
      ensures Usable() && Now() == Considered(heap, size, old(Now()), heap.load(p))
    {
      var q := heap.load(p);
      if heap.Plausible(q) {
        PushContents(q);
      }
    }

    /** Consider n words one after the other. */
    method PushWords(start: nat, n: nat)
      requires Usable()
      modifies this`stack, this`state, this`tooSmall, this`marked, this`dropped
      ensures old(tooSmall) ==> tooSmall
      ensures Usable() && Now() == ScanSnap(heap, size, old(Now()), start, n)
    {
      ghost var b := Now();
      var k := 0;
      while k < n
        invariant k <= n && Usable() && (old(tooSmall) ==> tooSmall) && Now() == ScanSnap(heap, size, b, start, k)
      {
        PushWord(start + k);
        k := k + 1;
      }
    }

    /** The pre-scan of the range loop in GC_mark_from: walk down from the end of the
        range to the last word that looks like a pointer, two words a turn. */
    method FindDeferred(start: nat, len: nat) returns (d: int)
      requires heap.Valid() && 0 < len
      ensures start - 1 <= d < start + len
      ensures forall a: nat :: d < a < start + len ==> heap.Target(a).None?
      ensures start <= d ==> heap.Plausible(heap.load(d))
    {
      var limit: int := start + len - 1;
      while true
        invariant start <= limit < start + len
        invariant forall a: nat :: limit < a < start + len ==> heap.Target(a).None?
        decreases limit
      {
        var deferred := heap.load(limit);
        limit := limit - 1;
        if heap.Plausible(deferred) {
          return limit + 1;
        }
        if limit < start {
          return start - 1;
        }
        deferred := heap.load(limit);
        limit := limit - 1;
        if heap.Plausible(deferred) {
          return limit + 1;
        }
        if limit < start {
          return start - 1;
        }
      }
    }

    /** The range loop of GC_mark_from: the last plausible word is prefetched and
        handled after all the others, which makes no difference. */
    method ScanRange(start: nat, len: nat)
      requires Usable() && 0 < len
      modifies this`stack, this`state, this`tooSmall, this`marked, this`dropped
      ensures old(tooSmall) ==> tooSmall
      ensures Usable() && Now() == ScanSnap(heap, size, old(Now()), start, len)
    {
      ghost var b := Now();
      var d := FindDeferred(start, len);
      if d < start {
        ScanNothing(heap, size, b, start, 0, len);
        return;
      }
      PushWords(start, d - start);
      PushWord(d);
      ScanNothing(heap, size, b, start, d - start + 1, len);
    }

    /** Take the top entry, or the first part of a large one, off the stack and scan it. */
    method PopAndScan() returns (bytes: nat)
      requires Usable() && |stack| > 0
      modifies this`stack, this`state, this`tooSmall, this`marked, this`dropped
      ensures old(tooSmall) ==> tooSmall
      ensures Usable() && Now() == PopSnap(heap, size, old(Now())) && bytes == PartBytes(old(stack))
    {
      var e := stack[|stack| - 1];
      var rest := stack[..|stack| - 1];
      var n := e.len;
      if n >= SPLIT_RANGE_PTRS {
        // A large range: the rest of it stays on the stack.
        n := SPLIT_RANGE_PTRS - 1;
        stack := rest + [Entry(e.start + n, e.len - n)];
      } else {
        stack := rest;
      }
      if n > 0 {
        ScanRange(e.start, n);
      }
      bytes := 8 * n;
    }

    /** Marking from the stack has gone on from b; it does not change where it will end, and the
        credit is what is left of n. */
    ghost predicate Marking(b: Snap, n: int, credit: int)
      requires heap.Valid()
      reads this
    {
      && SnapOk(heap, live, size, b) && Remembered()
      && Follows(heap, live, size, b, Now())
      && Drained(heap, size, Now()) == Drained(heap, size, b)
      && MarkedFor(heap, size, Now(), credit) == MarkedFor(heap, size, b, n)
    }

    /** One iteration of GC_mark_from. */
    method MarkOne(ghost b: Snap, ghost n: int, credit: int) returns (left: int)
      requires heap.Valid() && Marking(b, n, credit) && |stack| > 0 && credit >= 0
      modifies this`stack, this`state, this`tooSmall, this`marked, this`dropped
      ensures old(tooSmall) ==> tooSmall
      ensures Marking(b, n, left) && Now() == PopSnap(heap, size, old(Now())) && left == credit - PartBytes(old(stack))
      ensures old(marked) < marked || (marked == old(marked) && state == old(state) && Work(stack) < Work(old(stack)))
    {
      PopFollows(heap, live, size, Now());
      ghost var c := Now();
      var bytes := PopAndScan();
      left := credit - bytes;
      FollowsTransitive(heap, live, size, b, c, Now());
    }

    /** GC_mark_from: pop entries and scan them until the credit is used up. */
    method MarkFrom()
      requires Basic()
      modifies this`stack, this`state, this`tooSmall, this`marked, this`objectsMarked, this`dropped
      ensures old(tooSmall) ==> tooSmall
      ensures heap.Valid() && Follows(heap, live, size, old(Now()), Now()) && objectsMarked && Remembered()
      ensures |old(stack)| > 0 ==>
                old(marked) < marked || (marked == old(marked) && state == old(state) && Work(stack) < Work(old(stack)))
      ensures Drained(heap, size, Now()) == Drained(heap, size, old(Now()))
      ensures Now() == MarkedFor(heap, size, old(Now()), HBLKSIZE)
    {
      objectsMarked := true;
      var credit: int := HBLKSIZE;
      ghost var b := Now();
      FollowsSelf(heap, live, size, b);
      ghost var moved := false;
      while |stack| > 0 && credit >= 0
        invariant Marking(b, HBLKSIZE, credit) && objectsMarked && (old(tooSmall) ==> tooSmall)
        invariant !moved ==> Now() == b && credit >= 0
        invariant moved ==> b.marked < marked || (marked == b.marked && state == b.st && Work(stack) < Work(b.stack))
        decreases heap.Objs() - marked, Work(stack)
      {
        credit := MarkOne(b, HBLKSIZE, credit);
        moved := true;
      }
    }

    /** GC_push_obj for an object that is already marked. */
    method PushObj(o: nat)
      requires Basic() && heap.Closed(live) && o in marked && |stack| < size
      modifies this`stack, this`state, this`tooSmall, this`dropped
      ensures Basic() && Advance(heap, live, old(Now()), Now())
      ensures Scanned(heap, Now(), o)
      ensures |stack| <= |old(stack)| + 1
    {
      var e := heap.Fields(o);
      if e.len != 0 {
        PushEntry(e);
        forall a ensures In(stack, a) <==> In(old(stack), a) || e.Has(a) {
          InPush(old(stack), e, a);
        }
        assert forall a :: e.Has(a) ==> heap.Extent(o).Has(a);
      }
    }

    /** PUSH_GRANULE over a whole object: mark and push what its words refer to. */
    method PushGranules(o: nat)
      requires Basic() && heap.Closed(live) && o in marked && heap.BlockOf(o).descr != 0 && heap.BlockOf(o).Accelerated()
      modifies this`stack, this`state, this`tooSmall, this`marked, this`dropped
      ensures Basic() && Advance(heap, live, old(Now()), Now())
      ensures Scanned(heap, Now(), o)
    {
      ghost var b := Now();
      var n := 2 * heap.BlockOf(o).lg;
      assert RangeSafe(heap, live, o, n) by {
        forall a: nat | o <= a < o + n ensures heap.Safe(live, a) {
          assert heap.Extent(o).Has(a);
        }
      }
      PushWords(o, n);
      ScanFollows(heap, live, size, b, o, n, Now());
    }

    /** The words of r before `upTo` that may have changed are accounted for. */
    ghost predicate DoneUpTo(r: Entry, upTo: nat)
      requires heap.BlocksValid()
      reads this
    {
      forall a: nat :: r.Has(a) && a < upTo && heap.rootDirty(a / HBLK_WORDS) ==> Settled(heap, Now(), a)
    }

    ghost predicate BlockScanned(i: nat, upTo: nat)
      requires heap.Valid() && i < |heap.blocks| && upTo <= |heap.blocks[i].objs|
      reads this
    {
      forall j :: 0 <= j < upTo && heap.blocks[i].objs[j] in marked ==> Scanned(heap, Now(), heap.blocks[i].objs[j])
    }

    /** GC_push_marked1, GC_push_marked2 and GC_push_marked4: mark words are read 64
        granules at a time. */
    method PushMarkedAccelerated(i: nat)
      requires Basic() && heap.Closed(live) && i < |heap.blocks| && heap.blocks[i].descr != 0 && heap.blocks[i].Accelerated()
      modifies this`stack, this`state, this`tooSmall, this`marked, this`dropped
      ensures Basic() && Advance(heap, live, old(Now()), Now())
      ensures BlockScanned(i, |heap.blocks[i].objs|)
    {
      var b := heap.blocks[i];
      ghost var s := Now();
      var markWord: set<nat> := {};
      for k := 0 to |b.objs|
        invariant Basic() && Advance(heap, live, s, Now())
        invariant k > 0 ==> s.marked <= markWord <= marked
        invariant BlockScanned(i, k)
      {
        if k * b.lg % WORD_BITS == 0 {
          markWord := marked;
        }
        ghost var c := Now();
        if b.objs[k] in markWord {
          PushGranules(b.objs[k]);
        }
        AdvanceTransitive(heap, live, s, c, Now());
      }
    }

    /** The general loop of GC_push_marked: push every marked object of the block. */
    method PushMarkedObjects(i: nat)
      requires Basic() && heap.Closed(live) && i < |heap.blocks|
      requires |stack| + |heap.blocks[i].objs| <= size
      modifies this`stack, this`state, this`tooSmall, this`dropped
      ensures Basic() && Advance(heap, live, old(Now()), Now())
      ensures BlockScanned(i, |heap.blocks[i].objs|)
    {
      var b := heap.blocks[i];
      ghost var s := Now();
      for k := 0 to |b.objs|
        invariant Basic() && Advance(heap, live, s, Now())
        invariant |stack| <= |s.stack| + k
        invariant BlockScanned(i, k)
      {
        ghost var c := Now();
        if b.objs[k] in marked {
          PushObj(b.objs[k]);
        }
        AdvanceTransitive(heap, live, s, c, Now());
      }
    }

    /** GC_push_marked on the i-th allocated block. */
    method PushMarked(i: nat)
      requires Basic() && heap.Closed(live) && i < |heap.blocks|
      requires |stack| + |heap.blocks[i].objs| <= size
      modifies this`stack, this`state, this`tooSmall, this`marked, this`objectsMarked, this`dropped
      ensures Basic() && Advance(heap, live, old(Now()), Now())
      ensures BlockScanned(i, |heap.blocks[i].objs|)
      ensures old(objectsMarked) ==> objectsMarked
      ensures !objectsMarked ==> Now() == old(Now())
    {
      var b := heap.blocks[i];
      if b.descr == 0 {
        return;  // pointer-free
      }
      if forall o | o in b.objs :: o !in marked {
        return;  // GC_block_empty
      }
      objectsMarked := true;
      if b.lg == 1 || b.lg == 2 || b.lg == 4 {
        PushMarkedAccelerated(i);
      } else {
        PushMarkedObjects(i);
      }
    }

    lemma {:induction false} Passed(f: Filter, h: nat, i: nat, next: nat)
      requires heap.Valid() && i < |heap.blocks|
      requires h <= heap.blocks[i].addr && next == heap.blocks[i].addr + heap.blocks[i].nblocks
      requires forall k :: 0 <= k < i && h <= heap.blocks[k].addr ==> !Wants(heap, f, heap.blocks[k])
      requires BlockScanned(i, |heap.blocks[i].objs|)
      ensures PassedOver(heap, Now(), f, h, next)
    {
      forall o | o in marked && o in heap.home && Wants(heap, f, heap.BlockOf(o)) && h <= heap.BlockOf(o).addr < next
        ensures Scanned(heap, Now(), o)
      {
        assert o in heap.blocks[i].objs;
        var j :| 0 <= j < |heap.blocks[i].objs| && heap.blocks[i].objs[j] == o;
      }
    }

    /** GC_push_next_marked: the first allocated block at or after h.  Returns where
        to go on, or 0 (NULL) when there is no such block. */
    method PushNextMarked(h: nat) returns (next: nat)
      requires Basic() && heap.Closed(live) && |stack| + HBLK_GRANULES <= size
      modifies this`stack, this`state, this`tooSmall, this`marked, this`objectsMarked, this`dropped
      ensures Basic() && Advance(heap, live, old(Now()), Now())
      ensures old(objectsMarked) ==> objectsMarked
      ensures !objectsMarked ==> Now() == old(Now())
      ensures PassedOver(heap, Now(), Any, h, next) && next == ScanResume(heap, Any, h)
      ensures next == 0 ==> Now() == old(Now())
    {
      var i := heap.NextBlock(h);
      if i == |heap.blocks| {
        return 0;
      }
      PushMarked(i);
      next := heap.blocks[i].addr + heap.blocks[i].nblocks;
      Passed(Any, h, i, next);
    }

    /** The loop of GC_push_next_marked_dirty. */
    method FindDirty(h0: nat) returns (i: nat)
      requires heap.Valid()
      ensures i == FirstWanted(heap, Dirty, heap.NextBlock(h0))
    {
      var h: nat := h0;
      while true
        invariant FirstWanted(heap, Dirty, heap.NextBlock(h)) == FirstWanted(heap, Dirty, heap.NextBlock(h0))
        decreases |heap.blocks| - heap.NextBlock(h)
      {
        i := heap.NextBlock(h);
        if i == |heap.blocks| || WasDirty(heap, heap.blocks[i]) {
          return;
        }
        NextAfter(heap, i);
        h := heap.blocks[i].addr + heap.blocks[i].nblocks;
      }
    }

    /** GC_push_next_marked_dirty: as above, but only blocks with a dirty page. */
    method PushNextMarkedDirty(h0: nat) returns (next: nat)
      requires Basic() && heap.Closed(live) && |stack| + HBLK_GRANULES <= size
      modifies this`stack, this`state, this`tooSmall, this`marked, this`objectsMarked, this`dropped
      ensures Basic() && Advance(heap, live, old(Now()), Now())
      ensures old(objectsMarked) ==> objectsMarked
      ensures !objectsMarked ==> Now() == old(Now())
      ensures PassedOver(heap, Now(), Dirty, h0, next) && next == ScanResume(heap, Dirty, h0)
      ensures next == 0 ==> Now() == old(Now())
    {
      var i := FindDirty(h0);
      NotWanted(heap, Dirty, heap.NextBlock(h0));
      if i == |heap.blocks| {
        return 0;
      }
      PushMarked(i);
      next := heap.blocks[i].addr + heap.blocks[i].nblocks;
      Passed(Dirty, h0, i, next);
    }

    /** The loop of GC_push_next_marked_uncollectable. */
    method FindUncollectable(h0: nat) returns (i: nat)
      requires heap.Valid()
      ensures i == FirstWanted(heap, Uncollectable, heap.NextBlock(h0))
    {
      var h: nat := h0;
      while true
        invariant FirstWanted(heap, Uncollectable, heap.NextBlock(h)) == FirstWanted(heap, Uncollectable, heap.NextBlock(h0))
        decreases |heap.blocks| - heap.NextBlock(h)
      {
        i := heap.NextBlock(h);
        if i == |heap.blocks| || heap.blocks[i].uncollectable {
          return;
        }
        NextAfter(heap, i);
        h := heap.blocks[i].addr + heap.blocks[i].nblocks;
      }
    }

    /** GC_push_next_marked_uncollectable: as above, but only uncollectable blocks. */
    method PushNextMarkedUncollectable(h0: nat) returns (next: nat)
      requires Basic() && heap.Closed(live) && |stack| + HBLK_GRANULES <= size
      modifies this`stack, this`state, this`tooSmall, this`marked, this`objectsMarked, this`dropped
      ensures Basic() && Advance(heap, live, old(Now()), Now())
      ensures old(objectsMarked) ==> objectsMarked
      ensures !objectsMarked ==> Now() == old(Now())
      ensures PassedOver(heap, Now(), Uncollectable, h0, next) && next == ScanResume(heap, Uncollectable, h0)
      ensures next == 0 ==> Now() == old(Now())
    {
      var i := FindUncollectable(h0);
      NotWanted(heap, Uncollectable, heap.NextBlock(h0));
      if i == |heap.blocks| {
        return 0;
      }
      PushMarked(i);
      next := heap.blocks[i].addr + heap.blocks[i].nblocks;
      Passed(Uncollectable, h0, i, next);
    }

    /** GC_push_all; returns FALSE where the source aborts. */
    method PushAll(r: Entry) returns (ok: bool)
      requires Basic() && forall a :: r.Has(a) ==> heap.Safe(live, a)
      modifies this`stack
      ensures Basic()
      ensures !ok ==> |old(stack)| == size && stack == old(stack)
      ensures ok ==> Advance(heap, live, old(Now()), Now()) && forall a :: r.Has(a) ==> Settled(heap, Now(), a)
      ensures ok ==> stack == if r.len == 0 then old(stack) else old(stack) + [r]
    {
      if r.len == 0 {
        return true;
      }
      if |stack| >= size {
        return false;
      }
      forall a ensures In(stack + [r], a) <==> In(stack, a) || r.Has(a) {
        InPush(stack, r, a);
      }
      stack := stack + [r];
      return true;
    }

    /** GC_push_all_eager: scan a stack section at once. */
    method PushAllEager(r: Entry)
      requires Basic() && forall a :: r.Has(a) ==> heap.Safe(live, a)
      modifies this`stack, this`state, this`tooSmall, this`marked, this`dropped
      ensures Basic() && Advance(heap, live, old(Now()), Now())
      ensures forall a :: r.Has(a) ==> Settled(heap, Now(), a)
    {
      ghost var b := Now();
      assert RangeSafe(heap, live, r.start, r.len) by {
        forall a: nat | r.start <= a < r.start + r.len ensures heap.Safe(live, a) {
          assert r.Has(a);
        }
      }
      PushWords(r.start, r.len);
      ScanFollows(heap, live, size, b, r.start, r.len, Now());
    }

    /** Is the stack taken to be in danger of overflow by GC_push_selected?  The number of
        entries less one is compared as an unsigned word, so an empty stack is as well. */
    predicate NearlyFull()
      reads this
    {
      Near(size, |stack|)
    }

    /** Nothing but words of r that may have changed has been pushed since b, or words from the
        address `rest` on. */
    ghost predicate OnlyChanged(r: Entry, b: Snap, rest: nat)
      reads this
    {
      forall a: nat :: In(stack, a) ==> In(b.stack, a) || (r.Has(a) && (rest <= a || heap.rootDirty(a / HBLK_WORDS)))
    }

    /** Selected pages of r have been pushed since b: those that may have changed are accounted
        for up to the address `upTo`, and there are at most n entries. */
    ghost predicate Selected(r: Entry, b: Snap, upTo: nat, n: nat)
      reads this
    {
      Basic() && Advance(heap, live, b, Now()) && |stack| <= n && DoneUpTo(r, upTo)
    }

    /** Part of r pushed as one entry. */
    method PushPart(r: Entry, from: nat, to: nat, ghost b: Snap, ghost n: nat) returns (ok: bool)
      requires Selected(r, b, from, n) && r.start <= from <= to <= r.start + r.len && OnlyChanged(r, b, r.start + r.len)
      requires forall a :: r.Has(a) ==> heap.Safe(live, a)
      modifies this`stack
      ensures Basic()
      ensures !ok ==> |old(stack)| == size
      ensures ok ==> Selected(r, b, to, n + 1) && |stack| <= |old(stack)| + 1 && OnlyChanged(r, b, from)
      ensures ok && DirtyPart(from, to) ==> OnlyChanged(r, b, r.start + r.len)
      ensures ok && from < to ==> |stack| == |old(stack)| + 1
    {
      var e := Entry(from, to - from);
      assert forall a :: e.Has(a) ==> r.Has(a);
      ok := PushAll(e);
      if ok {
        AdvanceTransitive(heap, live, b, old(Now()), Now());
        PartChanged(r, b, old(stack), from, to);
      }
    }

    /** A page of r that has not changed is passed over. */
    lemma PassPage(r: Entry, from: nat, h: nat)
      requires heap.BlocksValid() && DoneUpTo(r, from)
      requires from / HBLK_WORDS == h && !heap.rootDirty(h)
      ensures DoneUpTo(r, (h + 1) * HBLK_WORDS)
    {
    }

    /** An entry has been pushed on what was `before`. */
    lemma PartChanged(r: Entry, b: Snap, before: seq<Entry>, from: nat, to: nat)
      requires stack == before + if from < to then [Entry(from, to - from)] else []
      requires r.start <= from <= to <= r.start + r.len
      requires forall a: nat :: In(before, a) ==> In(b.stack, a) || (r.Has(a) && heap.rootDirty(a / HBLK_WORDS))
      ensures OnlyChanged(r, b, from)
      ensures DirtyPart(from, to) ==> OnlyChanged(r, b, r.start + r.len)
    {
      forall a: nat | In(stack, a) ensures In(before, a) || from <= a < to {
        if from < to {
          InPush(before, Entry(from, to - from), a);
        }
      }
    }

    /** A part of one page that may have changed. */
    predicate DirtyPart(from: nat, to: nat) {
      from < to ==> from / HBLK_WORDS == (to - 1) / HBLK_WORDS && heap.rootDirty(from / HBLK_WORDS)
    }

    /** GC_push_selected: the pages of r that may have changed, one entry each, or from the first
        such page on the whole rest when the stack is nearly full. */
    method PushSelected(r: Entry) returns (ok: bool, ghost rest: nat)
      requires Basic() && forall a :: r.Has(a) ==> heap.Safe(live, a)
      modifies this`stack
      ensures Basic()
      ensures !ok ==> size <= Most(size, |old(stack)|)
      ensures ok ==> Selected(r, old(Now()), r.start + r.len, Most(size, |old(stack)|) + 1)
      ensures ok ==> OnlyChanged(r, old(Now()), rest) && (rest < r.start + r.len ==> |stack| > 0 && Near(size, |stack| - 1))
    {
      var bottom, top := r.start, r.start + r.len;
      rest := top;
      if bottom >= top {
        return true, rest;
      }
      ghost var b, n := Now(), Most(size, |stack|);
      var h := bottom / HBLK_WORDS + 1;
      if h * HBLK_WORDS >= top {
        ok := true;
        if heap.rootDirty(h - 1) {
          ok := PushPart(r, bottom, top, b, n);
        }
        return;
      }
      if heap.rootDirty(h - 1) {
        if NearlyFull() {
          ok := PushPart(r, bottom, top, b, n);
          rest := bottom;
          return;
        }
        ok := PushPart(r, bottom, h * HBLK_WORDS, b, n);
      } else {
        PassPage(r, bottom, h - 1);
      }
      ok, rest := PushPages(r, h, b, n);
    }

    /** The loop of GC_push_selected, from page h on. */
    method PushPages(r: Entry, h0: nat, ghost b: Snap, ghost n: nat) returns (ok: bool, ghost rest: nat)
      requires Selected(r, b, h0 * HBLK_WORDS, n) && OnlyChanged(r, b, r.start + r.len) && 3 * size / 4 + 2 <= n
      requires r.start <= h0 * HBLK_WORDS <= r.start + r.len
      requires forall a :: r.Has(a) ==> heap.Safe(live, a)
      modifies this`stack
      ensures Basic()
      ensures !ok ==> size <= n
      ensures ok ==> Selected(r, b, r.start + r.len, n + 1)
      ensures ok ==> OnlyChanged(r, b, rest) && (rest < r.start + r.len ==> |stack| > 0 && Near(size, |stack| - 1))
    {
      var top := r.start + r.len;
      rest := top;
      var h := h0;
      while (h + 1) * HBLK_WORDS <= top
        invariant r.start <= h * HBLK_WORDS <= top
        invariant Selected(r, b, h * HBLK_WORDS, n) && OnlyChanged(r, b, top)
      {
        if heap.rootDirty(h) {
          if NearlyFull() {
            ok := PushPart(r, h * HBLK_WORDS, top, b, n);
            rest := h * HBLK_WORDS;
            return;
          }
          ok := PushPart(r, h * HBLK_WORDS, (h + 1) * HBLK_WORDS, b, n);
        } else {
          PassPage(r, h * HBLK_WORDS, h);
        }
        h := h + 1;
      }
      ok := true;
      if h * HBLK_WORDS != top {
        if heap.rootDirty(h) {
          ok := PushPart(r, h * HBLK_WORDS, top, b, n);
        } else {
          PassPage(r, h * HBLK_WORDS, h);
        }
      }
    }

    /** GC_push_conditional_static; returns FALSE where the source aborts. */
    method PushConditionalStatic(r: Entry, all: bool) returns (ok: bool)
      requires Basic() && forall a :: r.Has(a) ==> heap.Safe(live, a)
      modifies this`stack
      ensures Basic()
      ensures !ok ==> size <= (if all then |old(stack)| else Most(size, |old(stack)|))
      ensures ok ==> Advance(heap, live, old(Now()), Now())
                     && |stack| <= (if all then |old(stack)| else Most(size, |old(stack)|)) + 1
      ensures ok ==> forall a: nat :: r.Has(a) && (all || (heap.rootVdb ==> heap.rootDirty(a / HBLK_WORDS))) ==> Settled(heap, Now(), a)
      ensures ok && !all && heap.rootVdb ==> |stack| == 0 || Near(size, |stack| - 1) || OnlyChanged(r, old(Now()), r.start + r.len)
    {
      if all || !heap.rootVdb {
        ok := PushAll(r);
      } else {
        ghost var rest;
        ok, rest := PushSelected(r);
      }
    }

    /** The static part of GC_push_roots; returns FALSE where the source aborts. */
    method PushStaticRoots(all: bool) returns (ok: bool)
      requires Basic() && heap.Closed(live)
      modifies this`stack
      ensures Basic()
      ensures !ok ==> size < (if all then |old(stack)| else Most(size, |old(stack)|)) + |heap.staticRoots|
      ensures ok ==> Advance(heap, live, old(Now()), Now())
      ensures ok ==> forall a :: In(heap.staticRoots, a) && (all || heap.DirtySlot(a)) ==> Settled(heap, Now(), a)
    {
      var roots := heap.staticRoots;
      ghost var b := Now();
      for k := 0 to |roots|
        invariant Basic() && Advance(heap, live, b, Now())
        invariant |stack| <= (if all then |b.stack| else Most(size, |b.stack|)) + k
        invariant forall a :: In(roots[..k], a) && (all || heap.DirtySlot(a)) ==> Settled(heap, Now(), a)
      {
        ghost var c := Now();
        assert forall a :: roots[k].Has(a) ==> In(roots, a) && heap.RootSlot(a);
        ok := PushConditionalStatic(roots[k], all);
        if !ok {
          return;
        }
        AdvanceTransitive(heap, live, b, c, Now());
        forall a | In(roots[..k + 1], a) && (all || heap.DirtySlot(a)) ensures Settled(heap, Now(), a) {
          assert roots[..k + 1] == roots[..k] + [roots[k]];
          InPush(roots[..k], roots[k], a);
        }
      }
      assert roots[..|roots|] == roots;
      return true;
    }

    /** GC_push_all_stack over every stack section: eager once the mark stack is nearly full. */
    method PushStackRoots()
      requires Basic() && heap.Closed(live)
      modifies this`stack, this`state, this`tooSmall, this`marked, this`dropped
      ensures Basic() && Advance(heap, live, old(Now()), Now())
      ensures forall a :: In(heap.stackRoots, a) ==> Settled(heap, Now(), a)
    {
      var roots := heap.stackRoots;
      ghost var b := Now();
      for k := 0 to |roots|
        invariant Basic() && Advance(heap, live, b, Now())
        invariant forall a :: In(roots[..k], a) ==> Settled(heap, Now(), a)
      {
        ghost var c := Now();
        assert forall a :: roots[k].Has(a) ==> In(roots, a) && heap.RootSlot(a);
        if |stack| - 1 < size - INITIAL_MARK_STACK_SIZE / 8 {
          var ok := PushAll(roots[k]);
          assert ok;
        } else {
          PushAllEager(roots[k]);
        }
        AdvanceTransitive(heap, live, b, c, Now());
        forall a | In(roots[..k + 1], a) ensures Settled(heap, Now(), a) {
          assert roots[..k + 1] == roots[..k] + [roots[k]];
          InPush(roots[..k], roots[k], a);
        }
      }
      assert roots[..|roots|] == roots;
    }

    /** push_roots_and_advance. */
    method PushRootsAndAdvance(all: bool) returns (ok: bool)
      requires Basic() && heap.Closed(live)
      modifies this`stack, this`state, this`tooSmall, this`marked, this`objectsMarked, this`dropped
      ensures Basic()
      ensures scanPtr != 0 ==> ok && Now() == old(Now()) && objectsMarked == old(objectsMarked)
      ensures scanPtr == 0 && ok ==>
        && objectsMarked
        && Advance(heap, live, old(Now()), Snap(if state == MS_INVALID then MS_INVALID else old(state), marked, stack, dropped))
        && (state == MS_INVALID || state == MS_ROOTS_PUSHED)
        && (state == MS_ROOTS_PUSHED ==>
              forall a :: (In(heap.staticRoots, a) && (all || heap.DirtySlot(a))) || In(heap.stackRoots, a) ==>
                Settled(heap, Now(), a))
      ensures !ok ==> size < (if all then |old(stack)| else Most(size, |old(stack)|)) + |heap.staticRoots|
    {
      if scanPtr != 0 {
        return true;  // the scan goes on
      }
      ok := PushStaticRoots(all);
      if !ok {
        return;
      }
      ghost var c := Now();
      PushStackRoots();
      AdvanceTransitive(heap, live, old(Now()), c, Now());
      objectsMarked := true;
      if state != MS_INVALID {
        ghost var d := Now();
        state := MS_ROOTS_PUSHED;
        assert forall a :: Settled(heap, d, a) <==> Settled(heap, Now(), a);
      }
    }

    /** alloc_mark_stack(n) for an empty stack; without memory the old one is kept silently. */
    method AllocMarkStack(n: nat)
      requires stack == [] && size <= n
      modifies this`size, this`tooSmall
      ensures size == (if room(n) then n else old(size)) && !tooSmall
    {
      tooSmall := false;
      if room(n) {
        size := n;
      }
    }

    /** The mark stack is doubled, if there is memory, before a heap scan that follows an overflow,
        and at the end of a phase. */
    ghost predicate MayGrow()
      reads this
    {
      && tooSmall && stack == [] && room(2 * size)
      && (state == MS_ROOTS_PUSHED || (state == MS_INVALID && objectsMarked && scanPtr == 0))
    }

    /** What each state's step promises: the invariant, and progress towards the end. */
    twostate predicate Stepped(done: bool)
      reads this
    {
      && Valid()
      && live == old(live)
      && size == (if old(MayGrow()) then 2 * old(size) else old(size))
      && old(marked) <= marked
      && (done <==> state == MS_NONE)
      && (state == MS_PUSH_RESCUERS ==> old(state) == MS_PUSH_RESCUERS)
      && (!done ==> Closer(heap, old(Now()), old(objectsMarked), old(scanPtr), Now(), objectsMarked, scanPtr))
    }

    /** The end of a scanning step: if the scan is over, push the roots.  b, h and o are
        the marks, GC_scan_ptr and GC_objects_are_marked before the step. */
    method PushRootsAfterScan(all: bool, ghost b: Snap, ghost h: nat, ghost o: bool) returns (ok: bool)
      requires Basic() && heap.Closed(live) && PhaseInv(heap, live, b, h, o)
      requires b.st in {MS_PUSH_RESCUERS, MS_PUSH_UNCOLLECTABLE, MS_PARTIALLY_INVALID}
      requires !all ==> b.st == MS_PUSH_RESCUERS
      requires Advance(heap, live, b, Now()) && PassedOver(heap, Now(), ScanFilter(b.st), h, scanPtr)
      requires scanPtr == 0 || !objectsMarked ==> Now() == b
      requires o ==> objectsMarked
      modifies this`stack, this`state, this`tooSmall, this`marked, this`objectsMarked, this`dropped
      ensures ok ==> Valid() && b.marked <= marked && (state == MS_PUSH_RESCUERS ==> b.st == MS_PUSH_RESCUERS)
      ensures ok ==> Closer(heap, b, o, h, Now(), objectsMarked, scanPtr) && state != MS_NONE
      ensures !ok ==> size < (if all then |b.stack| else Most(size, |b.stack|)) + |heap.staticRoots|
    {
      ghost var c := Now();
      ok := PushRootsAndAdvance(all);
      if scanPtr != 0 {
        ScanKeepsInv(heap, live, b, c, h, scanPtr, o, objectsMarked);
      } else if ok {
        RootsCompleteInv(heap, live, b, Snap(if state == MS_INVALID then MS_INVALID else b.st, marked, stack, dropped), Now(), h, o, all);
      }
    }

    /** Marking from the stack is progress by itself. */
    method MarkMore()
      requires Valid() && |stack| > 0
      requires state in {MS_PUSH_RESCUERS, MS_PUSH_UNCOLLECTABLE, MS_INVALID, MS_PARTIALLY_INVALID}
      requires state == MS_INVALID ==> objectsMarked
      modifies this
      ensures Stepped(false) && scanPtr == old(scanPtr) && (old(tooSmall) ==> tooSmall)
      ensures Now() == MarkedFor(heap, size, old(Now()), HBLKSIZE)
    {
      ghost var b, o := Now(), objectsMarked;
      MarkFrom();
      AdvanceKeepsInv(heap, live, b, Now(), scanPtr, o);
    }

    method StepRescuers() returns (ok: bool)
      requires Valid() && state == MS_PUSH_RESCUERS
      modifies this
      ensures ok ==> Stepped(false)
      ensures ok ==>
        if |old(stack)| - 1 >= old(size) - INITIAL_MARK_STACK_SIZE / 2 then
          tooSmall && scanPtr == old(scanPtr) && Now() == MarkedFor(heap, size, old(Now()), HBLKSIZE)
        else scanPtr == ScanResume(heap, Dirty, old(scanPtr))
      ensures !ok ==> RootLimit(old(state)) < |heap.staticRoots|
    {
      ghost var b, h, o := Now(), scanPtr, objectsMarked;
      assert PhaseInv(heap, live, b, h, o);
      if |stack| - 1 >= size - INITIAL_MARK_STACK_SIZE / 2 {
        tooSmall := true;
        MarkMore();
        return true;
      }
      scanPtr := PushNextMarkedDirty(scanPtr);
      ok := PushRootsAfterScan(false, b, h, o);
    }

    method StepUncollectable() returns (ok: bool)
      requires Valid() && state == MS_PUSH_UNCOLLECTABLE
      modifies this
      ensures ok ==> Stepped(false)
      ensures ok ==>
        if |old(stack)| - 1 >= old(size) / 4 then
          scanPtr == old(scanPtr) && Now() == MarkedFor(heap, size, old(Now()), HBLKSIZE)
        else scanPtr == ScanResume(heap, Uncollectable, old(scanPtr))
      ensures !ok ==> RootLimit(old(state)) < |heap.staticRoots|
    {
      ghost var b, h, o := Now(), scanPtr, objectsMarked;
      if |stack| - 1 >= size / 4 {
        MarkMore();
        return true;
      }
      scanPtr := PushNextMarkedUncollectable(scanPtr);
      ok := PushRootsAfterScan(true, b, h, o);
    }

    method StepRootsPushed() returns (done: bool)
      requires Valid() && state == MS_ROOTS_PUSHED
      modifies this
      ensures Stepped(done)
    {
      ghost var b, o := Now(), objectsMarked;
      if |stack| > 0 {
        MarkFrom();
        AdvanceKeepsInv(heap, live, b, Now(), scanPtr, o);
        return false;
      }
      if tooSmall {
        AllocMarkStack(2 * size);
      }
      state := MS_NONE;
      assert forall a :: Settled(heap, b, a) ==> Settled(heap, Now(), a);
      forall x | x in marked ensures Scanned(heap, Now(), x) {
        assert Scanned(heap, b, x);
      }
      return true;
    }

    /** MS_INVALID and MS_PARTIALLY_INVALID. */
    method StepInvalid() returns (ok: bool)
      requires Valid() && (state == MS_INVALID || state == MS_PARTIALLY_INVALID)
      modifies this
      ensures ok ==> Stepped(false)
      ensures !ok ==> RootLimit(old(state)) < |heap.staticRoots|
    {
      if !objectsMarked {
        state := MS_PUSH_UNCOLLECTABLE;
        dropped := [];
        return true;
      }
      if |stack| > 0 {
        MarkMore();
        return true;
      }
      ok := StartOrScan();
    }

    /** The stack is empty and objects may be marked: start a heap scan or go on with it. */
    method StartOrScan() returns (ok: bool)
      requires Valid() && stack == [] && objectsMarked && (state == MS_INVALID || state == MS_PARTIALLY_INVALID)
      modifies this
      ensures ok ==> Stepped(false)
      ensures !ok ==> RootLimit(old(state)) < |heap.staticRoots|
    {
      if scanPtr == 0 && state == MS_INVALID {
        StartHeapScan();
        ghost var m, h, o := Now(), scanPtr, objectsMarked;
        ok := ScanHeap();
        if ok {
          CloserTransitive(heap, old(Now()), old(objectsMarked), old(scanPtr), m, o, h, Now(), objectsMarked, scanPtr);
        }
      } else {
        ok := ScanHeap();
      }
    }

    /** About to start a heap scan; the mark stack is empty, so it may be reallocated. */
    method StartHeapScan()
      requires Valid() && state == MS_INVALID && scanPtr == 0 && stack == [] && objectsMarked
      modifies this`size, this`tooSmall, this`state, this`dropped
      ensures Valid() && state == MS_PARTIALLY_INVALID
      ensures size == (if old(MayGrow()) then 2 * old(size) else old(size))
      ensures Closer(heap, old(Now()), old(objectsMarked), old(scanPtr), Now(), objectsMarked, scanPtr)
    {
      if tooSmall {
        AllocMarkStack(2 * size);
      }
      state := MS_PARTIALLY_INVALID;
      dropped := [];
    }

    /** The heap scan for marked objects. */
    method ScanHeap() returns (ok: bool)
      requires Valid() && stack == [] && objectsMarked
      requires state == MS_PARTIALLY_INVALID || (state == MS_INVALID && scanPtr != 0)
      modifies this
      ensures ok ==> Stepped(false)
      ensures !ok ==> RootLimit(old(state)) < |heap.staticRoots|
    {
      if state == MS_PARTIALLY_INVALID {
        ok := ScanThenRoots();
      } else {
        scanPtr := PushNextMarked(scanPtr);
        ok := true;
      }
    }

    /** The heap scan when its end means that the roots are to be pushed. */
    method ScanThenRoots() returns (ok: bool)
      requires Valid() && stack == [] && objectsMarked && state == MS_PARTIALLY_INVALID
      modifies this
      ensures ok ==> Stepped(false)
      ensures !ok ==> RootLimit(old(state)) < |heap.staticRoots|
    {
      ghost var b, h := Now(), scanPtr;
      assert PhaseInv(heap, live, b, h, true);
      scanPtr := PushNextMarked(scanPtr);
      ok := PushRootsAfterScan(true, b, h, true);
    }

    /** GC_mark_some: a small amount of marking.  `ok` is FALSE where the source aborts. */
    method MarkSome() returns (done: bool, ok: bool)
      requires Valid()
      modifies this
      ensures ok ==> Stepped(done)
      ensures !ok ==> RootLimit(old(state)) < |heap.staticRoots|
    {
      done, ok := false, true;
      match state {
        case MS_NONE =>
          done := true;
        case MS_PUSH_RESCUERS =>
          ok := StepRescuers();
        case MS_PUSH_UNCOLLECTABLE =>
          ok := StepUncollectable();
        case MS_ROOTS_PUSHED =>
          done := StepRootsPushed();
        case _ =>
          ok := StepInvalid();
      }
    }

    /** while(!GC_mark_some(NULL)): it terminates, and unless it aborts nothing reachable
        stays unmarked and nothing unreachable gets marked, whatever overflowed on the way. */
    method Complete() returns (ok: bool)
      requires Valid()
      modifies this
      ensures !ok ==> RootLimit(old(state)) < |heap.staticRoots|
      ensures ok ==> Valid() && state == MS_NONE && live == old(live)
      ensures ok ==> old(marked) <= marked <= live
      ensures ok ==> forall o :: heap.Reach(false, old(marked), o) ==> o in marked
    {
      var done := false;
      ok := true;
      while !done && ok
        invariant ok ==> Valid() && live == old(live) && old(marked) <= marked
        invariant ok && done ==> state == MS_NONE
        invariant ok ==> state == MS_PUSH_RESCUERS ==> old(state) == MS_PUSH_RESCUERS
        invariant !ok ==> RootLimit(old(state)) < |heap.staticRoots|
        decreases !done && ok, heap.Objs() - marked, Rank(state, objectsMarked, scanPtr), BlocksLeft(heap, scanPtr), Work(stack)
      {
        done, ok := MarkSome();
      }
      if ok {
        forall o | heap.Reach(false, old(marked), o) ensures o in marked {
          var p :| heap.ReachBy(false, old(marked), p, o);
          EverythingScanned();
          ClosureContainsReach(heap, old(marked), marked, p);
        }
      }
    }

    lemma EverythingScanned()
      requires Valid() && state == MS_NONE
      ensures forall o, a :: o in marked && o in heap.home && heap.Fields(o).Has(a) && heap.Target(a).Some? ==> heap.Target(a).value in marked
      ensures forall a :: heap.RootSlot(a) && heap.Target(a).Some? ==> heap.Target(a).value in marked
    {
      forall o, a | o in marked && o in heap.home && heap.Fields(o).Has(a) && heap.Target(a).Some?
        ensures heap.Target(a).value in marked
      {
        assert Scanned(heap, Now(), o);
        assert Settled(heap, Now(), a);
      }
      forall a | heap.RootSlot(a) && heap.Target(a).Some? ensures heap.Target(a).value in marked {
        assert RootOwed(heap, state, a);
        assert Settled(heap, Now(), a);
      }
    }

    /** GC_mark_init, with whatever marks an earlier cycle left behind. */
    constructor (h: Heap, marks: set<nat>, memory: nat -> bool)
      ensures heap == h && marked == marks && room == memory && size == INITIAL_MARK_STACK_SIZE
      ensures state == MS_NONE && stack == [] && scanPtr == 0 && !tooSmall && !objectsMarked && dropped == []
    {
      heap, marked, size, room := h, marks, INITIAL_MARK_STACK_SIZE, memory;
      state, stack, scanPtr, tooSmall, objectsMarked, live, dropped := MS_NONE, [], 0, false, false, {}, [];
    }

    /** GC_clear_marks: start a full collection.  Marks of uncollectable objects stay. */
    method ClearMarks()
      requires heap.Valid() && marked <= heap.Objs() && stack == [] && INITIAL_MARK_STACK_SIZE <= size
      modifies this
      ensures Valid() && state == MS_INVALID && scanPtr == 0 && !objectsMarked && size == old(size)
      ensures marked == set o | o in old(marked) && heap.BlockOf(o).uncollectable
      ensures live == heap.LiveSet(marked)
    {
      marked := set o | o in marked && heap.BlockOf(o).uncollectable;
      objectsMarked := false;
      state := MS_INVALID;
      scanPtr := 0;
      dropped := [];
      live := heap.LiveSet(marked);
      ClearedInv(heap, marked, size);
    }

    /** GC_initiate_gc after a completed cycle in incremental mode: only dirty blocks and
        dirty parts of the static roots may refer to unmarked objects. */
    method InitiatePartial()
      requires heap.Valid() && marked <= heap.Objs() && stack == [] && INITIAL_MARK_STACK_SIZE <= size
      requires state == MS_NONE && dropped == []
      requires forall o :: o in marked && !WasDirty(heap, heap.BlockOf(o)) ==> Scanned(heap, Now(), o)
      requires forall a :: In(heap.staticRoots, a) && !heap.DirtySlot(a) ==> Settled(heap, Now(), a)
      modifies this
      ensures Valid() && state == MS_PUSH_RESCUERS && scanPtr == 0 && marked == old(marked)
      ensures live == heap.LiveSet(marked)
    {
      state := MS_PUSH_RESCUERS;
      scanPtr := 0;
      live := heap.LiveSet(marked);
      LiveSetClosed(heap, marked);
      ClosedFields(heap, live, marked);
      forall o | o in marked && !WasDirty(heap, heap.BlockOf(o)) ensures Scanned(heap, Now(), o) {
        assert Scanned(heap, old(Now()), o);
        assert forall a :: Settled(heap, old(Now()), a) ==> Settled(heap, Now(), a);
      }
    }

    /** A whole mark phase from cleared marks: unless it aborts, exactly the objects that
        can be reached from the roots and the marked uncollectable objects end up marked.
        (The granule accelerators may also follow words beyond the descriptor.) */
    method FullMark() returns (ok: bool)
      requires heap.Valid() && marked <= heap.Objs() && stack == [] && INITIAL_MARK_STACK_SIZE <= size
      modifies this
      ensures !ok ==> INITIAL_MARK_STACK_SIZE / 2 < |heap.staticRoots|
      ensures ok ==> state == MS_NONE
      ensures
        var u := set o | o in old(marked) && heap.BlockOf(o).uncollectable;
        ok ==>
          && (forall o :: heap.Reach(false, u, o) ==> o in marked)
          && (forall o :: o in marked ==> heap.Reach(true, u, o))
          && (FullDescriptors(heap) ==> forall o :: o in marked <==> heap.Reach(true, u, o))
    {
      ClearMarks();
      ghost var u := marked;
      ok := Complete();
      if ok && FullDescriptors(heap) {
        forall o ensures heap.Reach(true, u, o) <==> heap.Reach(false, u, o) {
          FullDescriptorsReach(heap, u, o);
        }
      }
    }

    /** A partial (incremental) cycle: marks only grow, and what is reachable is marked. */
    method PartialMark() returns (ok: bool)
      requires heap.Valid() && marked <= heap.Objs() && stack == [] && INITIAL_MARK_STACK_SIZE <= size
      requires state == MS_NONE && dropped == []
      requires forall o :: o in marked && !WasDirty(heap, heap.BlockOf(o)) ==> Scanned(heap, Now(), o)
      requires forall a :: In(heap.staticRoots, a) && !heap.DirtySlot(a) ==> Settled(heap, Now(), a)
      modifies this
      ensures !ok ==> RootLimit(MS_PUSH_RESCUERS) < |heap.staticRoots|
      ensures ok ==>
        && state == MS_NONE
        && old(marked) <= marked
        && (forall o :: heap.Reach(false, old(marked), o) ==> o in marked)
        && (forall o :: o in marked ==> heap.Reach(true, old(marked), o))
    {
      InitiatePartial();
      ok := Complete();
    }
  }
}
