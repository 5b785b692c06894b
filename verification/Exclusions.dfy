/** The table of static root exclusions, and pushing what it leaves of a range. */
module Exclusions {
  import opened Basics

  datatype Range = Range(start: nat, end: nat)

  ghost predicate Covered(t: seq<Range>, a: nat) {
    exists i :: 0 <= i < |t| && In(t[i], a)
  }

  predicate In(r: Range, a: nat) {
    r.start <= a < r.end
  }

  /** Non-empty ranges in increasing order, none overlapping another. */
  ghost predicate Ordered(t: seq<Range>) {
    && (forall i :: 0 <= i < |t| ==> t[i].start < t[i].end)
    && (forall i, j :: 0 <= i < j < |t| ==> t[i].end <= t[j].start)
  }

  class ExclTable {
    const table: array<Range>    // GC_excl_table
    var entries: nat             // GC_excl_table_entries

    ghost predicate Valid()
      reads this, table
    {
      entries <= table.Length && Ordered(table[..entries])
    }

    ghost function Ranges(): seq<Range>
      requires entries <= table.Length
      reads this, table
    {
      table[..entries]
    }

    constructor (maxExclusions: nat)
      ensures Valid() && Ranges() == [] && table.Length == maxExclusions && fresh(table)
    {
      table := new Range[maxExclusions](_ => Range(0, 0));
      entries := 0;
    }

    /** GC_next_exclusion: the first range that ends after the address. */
    method NextExclusion(start: nat) returns (r: Option<nat>)
      requires Valid()
      ensures r.Some? ==> r.value < entries && start < table[r.value].end
                          && forall i :: 0 <= i < r.value ==> table[i].end <= start
      ensures r.None? ==> forall i :: 0 <= i < entries ==> table[i].end <= start
    {
      if entries == 0 {
        return None;
      }
      var low, high := 0, entries - 1;
      assert forall i :: 0 <= i < entries ==> table[i] == Ranges()[i];
      while high > low
        invariant low <= high < entries
        invariant forall i :: 0 <= i < low ==> table[i].end <= start
        invariant high < entries - 1 ==> start < table[high].end
      {
        var mid := (low + high) / 2;
        // mid is in the part still searched
        if start >= table[mid].end {
          forall i | 0 <= i <= mid ensures table[i].end <= start {
            if i < mid {
              assert Ranges()[i].end <= Ranges()[mid].start;
            }
          }
          low := mid + 1;
        } else {
          high := mid;
        }
      }
      if start >= table[low].end {
        return None;
      }
      return Some(low);
    }

    /** GC_exclude_static_roots_inner; false stands for the calls of ABORT. */
    method Exclude(start: nat, finish: nat) returns (ok: bool)
      requires Valid() && start < finish
      modifies this, table
      ensures Valid()
      ensures ok ==> forall a: nat :: Covered(Ranges(), a) <==> Covered(old(Ranges()), a) || start <= a < finish
      ensures ok ==> |Ranges()| == old(|Ranges()|) + if Touched(old(Ranges()), finish) then 0 else 1
      ensures ok <==> !Overlapped(old(Ranges()), start, finish)
                      && (Touched(old(Ranges()), finish) || old(entries) < table.Length)
      ensures !ok ==> Ranges() == old(Ranges())
    {
      ghost var t := Ranges();
      var next := NextExclusion(start);
      if next.Some? {
        if table[next.value].start < finish {
          // the new range meets an old one
          Overlap(t, start, finish, next.value);
          return false;
        }
        if table[next.value].start == finish {
          // the two ranges touch and become one
          table[next.value] := Range(start, table[next.value].end);
          Extended(t, start, finish, next.value);
          assert Ranges() == t[next.value := Range(start, t[next.value].end)];
          return true;
        }
      }
      if entries >= table.Length {
        return false; // too many exclusions
      }
      var nextIndex := if next.Some? then next.value else entries;
      InsertAt(nextIndex, Range(start, finish));
      InsertedElems(t, start, finish, nextIndex);
      InsertedOrdered(t, start, finish, nextIndex);
      return true;
    }

    /** The end of GC_exclude_static_roots_inner: the entries from k on move up for the new one. */
    method InsertAt(k: nat, r: Range)
      requires k <= entries < table.Length
      modifies this, table
      ensures entries == old(entries) + 1 <= table.Length && Ranges() == Inserted(old(Ranges()), k, r)
    {
      ghost var t := Ranges();
      var i := entries;
      while i > k
        invariant k <= i <= entries == old(entries) < table.Length
        invariant forall b :: 0 <= b < i ==> table[b] == t[b]
        invariant forall b :: i < b <= entries ==> table[b] == t[b - 1]
      {
        table[i] := table[i - 1];
        i := i - 1;
      }
      table[k] := r;
      entries := entries + 1;
      assert table[..entries] == t[..k] + [r] + t[k..];
    }

    /** GC_push_conditional_with_exclusions: the ranges pushed, in order. */
    method PushWithExclusions(low: nat, top: nat) returns (pushed: seq<Range>)
      requires Valid()
      ensures Ordered(pushed)
      ensures forall a: nat :: Covered(pushed, a) <==> low <= a < top && !Covered(Ranges(), a)
    {
      pushed := [];
      var bottom := low;
      while bottom < top
        invariant low <= bottom
        invariant Ordered(pushed) && forall i :: 0 <= i < |pushed| ==> pushed[i].end <= bottom
        invariant forall a: nat :: Covered(pushed, a) <==> low <= a < top && a < bottom && !Covered(Ranges(), a)
        decreases top - bottom
      {
        var next := NextExclusion(bottom);
        var exclStart := top;
        if next.Some? {
          if table[next.value].start >= top {
            next := None;
          } else {
            exclStart := table[next.value].start;
          }
        }
        if bottom < exclStart {
          PushOne(pushed, bottom, exclStart);
          pushed := pushed + [Range(bottom, exclStart)];
        }
        if next.None? {
          break;
        }
        assert In(Ranges()[next.value], table[next.value].start);
        bottom := table[next.value].end;
      }
    }
  }

  /** Some range of the table has an address of the new range. */
  ghost predicate Overlapped(t: seq<Range>, start: nat, finish: nat) {
    exists a: nat :: start <= a < finish && Covered(t, a)
  }

  /** Some range of the table begins where the new range ends. */
  ghost predicate Touched(t: seq<Range>, finish: nat) {
    exists i :: 0 <= i < |t| && t[i].start == finish
  }

  lemma {:induction false} Overlap(t: seq<Range>, start: nat, finish: nat, k: nat)
    requires Ordered(t) && k < |t| && start < t[k].end && t[k].start < finish && start < finish
    ensures Overlapped(t, start, finish)
  {
    var a := if start < t[k].start then t[k].start else start;
    assert In(t[k], a);
    assert Covered(t, a);
  }

  lemma {:induction false} Extended(t: seq<Range>, start: nat, finish: nat, k: nat)
    requires Ordered(t) && k < |t| && start < finish == t[k].start && forall i :: 0 <= i < k ==> t[i].end <= start
    ensures Ordered(t[k := Range(start, t[k].end)])
    ensures forall a: nat :: Covered(t[k := Range(start, t[k].end)], a) <==> Covered(t, a) || start <= a < finish
  {
    var t' := t[k := Range(start, t[k].end)];
    forall a: nat ensures Covered(t', a) <==> Covered(t, a) || start <= a < finish {
      if Covered(t, a) {
        var i :| 0 <= i < |t| && In(t[i], a);
        assert In(t'[i], a);
      }
      if start <= a < finish {
        assert In(t'[k], a);
      }
      if Covered(t', a) {
        var i :| 0 <= i < |t'| && In(t'[i], a);
        assert i != k || a < finish || In(t[k], a);
        assert i != k ==> In(t[i], a);
      }
    }
  }

  function Inserted(t: seq<Range>, k: nat, r: Range): seq<Range>
    requires k <= |t|
  {
    t[..k] + [r] + t[k..]
  }

  lemma {:induction false} InsertedOrdered(t: seq<Range>, start: nat, finish: nat, k: nat)
    requires Ordered(t) && k <= |t| && start < finish
    requires (forall i :: 0 <= i < k ==> t[i].end <= start) && (k < |t| ==> finish <= t[k].start)
    ensures Ordered(Inserted(t, k, Range(start, finish)))
  {
    var t' := Inserted(t, k, Range(start, finish));
    assert forall i :: 0 <= i < |t'| ==> t'[i] == if i < k then t[i] else if i == k then Range(start, finish) else t[i - 1];
    forall i, j | 0 <= i < j < |t'| ensures t'[i].end <= t'[j].start {
      if i == k && k < j - 1 {
        assert t[k].end <= t[j - 1].start;
      }
    }
  }

  lemma {:induction false} InsertedElems(t: seq<Range>, start: nat, finish: nat, k: nat)
    requires k <= |t|
    ensures forall a: nat :: Covered(Inserted(t, k, Range(start, finish)), a) <==> Covered(t, a) || start <= a < finish
  {
    var t' := Inserted(t, k, Range(start, finish));
    forall a: nat ensures Covered(t', a) <==> Covered(t, a) || start <= a < finish {
      if Covered(t, a) {
        var i :| 0 <= i < |t| && In(t[i], a);
        assert In(t'[if i < k then i else i + 1], a);
      }
      if start <= a < finish {
        assert In(t'[k], a);
      }
      if Covered(t', a) {
        var i :| 0 <= i < |t'| && In(t'[i], a);
        assert i != k ==> In(t[if i < k then i else i - 1], a);
      }
    }
  }

  lemma {:induction false} PushOne(pushed: seq<Range>, b: nat, e: nat)
    requires Ordered(pushed) && b < e && forall i :: 0 <= i < |pushed| ==> pushed[i].end <= b
    ensures Ordered(pushed + [Range(b, e)])
    ensures forall a: nat :: Covered(pushed + [Range(b, e)], a) <==> Covered(pushed, a) || b <= a < e
  {
    InsertedOrdered(pushed, b, e, |pushed|);
    InsertedElems(pushed, b, e, |pushed|);
    assert Inserted(pushed, |pushed|, Range(b, e)) == pushed + [Range(b, e)];
  }
}
