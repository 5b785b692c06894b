/** The black lists as hash tables of bits, and the search for a start that avoids them.
    Addresses and lengths are in heap blocks. */
module BlackList {
  import opened Basics
  import opened Arith

  const CPP_WORDSZ := 64
  const PHT_ENTRIES := 0x40000   // 1 << 18
  const PHT_SIZE := PHT_ENTRIES / CPP_WORDSZ

  type Table = t: seq<bv64> | |t| == PHT_SIZE witness seq(PHT_SIZE, i => 0)

  function PhtHash(h: nat): (r: nat) {
    h % PHT_ENTRIES
  }

  /** get_pht_entry_from_index. */
  predicate Entry(t: Table, index: nat)
    requires index < PHT_ENTRIES
  {
    (t[index / CPP_WORDSZ] >> (index % CPP_WORDSZ)) & 1 == 1
  }

  /** The black lists in force: those of the last collection and those being collected. */
  datatype Lists = Lists(oldNormal: Table, incompleteNormal: Table, oldStack: Table, incompleteStack: Table,
                         allInteriorPointers: bool) {

    /** A false pointer to anywhere in block h has been seen. */
    predicate StackBlack(h: nat) {
      Entry(oldStack, PhtHash(h)) || Entry(incompleteStack, PhtHash(h))
    }

    /** A false pointer to an object starting in block h has been seen. */
    predicate NormalBlack(h: nat) {
      !allInteriorPointers && (Entry(oldNormal, PhtHash(h)) || Entry(incompleteNormal, PhtHash(h)))
    }

    /** The block-by-block meaning of "the n blocks from h are black-listed"; the first
        block is always looked at. */
    ghost predicate Black(h: nat, n: nat) {
      NormalBlack(h) || StackBlack(h) || exists s :: h <= s < h + n && StackBlack(s)
    }
  }

  /** Consecutive blocks whose table entries lie in one word. */
  lemma SameWord(h: nat, j: nat)
    requires PhtHash(h) % CPP_WORDSZ + j < CPP_WORDSZ
    ensures PhtHash(h + j) == PhtHash(h) + j
    ensures PhtHash(h + j) / CPP_WORDSZ == PhtHash(h) / CPP_WORDSZ
  {
  }

  /** A whole zero word in both tables clears every block from h to the end of the word. */
  lemma {:induction false} ZeroWords(bl: Lists, h: nat)
    requires bl.oldStack[PhtHash(h) / CPP_WORDSZ] == 0
    requires bl.incompleteStack[PhtHash(h) / CPP_WORDSZ] == 0
    ensures forall s :: h <= s < h + CPP_WORDSZ - PhtHash(h) % CPP_WORDSZ ==> !bl.StackBlack(s)
  {
    forall s | h <= s < h + CPP_WORDSZ - PhtHash(h) % CPP_WORDSZ ensures !bl.StackBlack(s) {
      SameWord(h, s - h);
    }
  }

  /** GC_is_black_listed, skipping whole words of the tables.  The result is a start before
      which every later start is black-listed too. */
  method IsBlackListed(bl: Lists, h: nat, n: nat) returns (r: Option<nat>)
    ensures r.None? <==> !bl.Black(h, n)
    ensures r.Some? ==> h < r.value && forall s :: h <= s < r.value ==> bl.Black(s, n)
    ensures r.Some? ==> r.value <= h + (if n == 0 then 1 else n)
  {
    var index := PhtHash(h);
    if bl.NormalBlack(h) {
      return Some(h + 1);
    }
    var i := 0;
    while true
      invariant index == PhtHash(h + i)
      invariant i == 0 || i < n
      invariant forall s :: h <= s < h + i ==> !bl.StackBlack(s)
      decreases n - i
    {
      if bl.oldStack[index / CPP_WORDSZ] == 0 && bl.incompleteStack[index / CPP_WORDSZ] == 0 {
        // the first block alone decides
        ZeroWords(bl, h + i);
        i := i + (CPP_WORDSZ - index % CPP_WORDSZ);
      } else {
        if Entry(bl.oldStack, index) || Entry(bl.incompleteStack, index) {
          assert bl.StackBlack(h + i);
          return Some(h + i + 1);
        }
        i := i + 1;
      }
      if i >= n {
        break;
      }
      index := PhtHash(h + i);
    }
    return None;
  }

  /** ALIGN_PAD_SZ in blocks, for a power-of-two alignment of a blocks. */
  function AlignPad(h: nat, a: nat): (r: nat)
    requires 0 < a
    ensures r < a && (h + r) % a == 0
    ensures forall s :: h <= s < h + r ==> s % a != 0
  {
    PadCorrect(h, a);
    (a - h % a) % a
  }

  lemma PadCorrect(h: nat, a: nat)
    requires 0 < a
    ensures var r := (a - h % a) % a; r < a && (h + r) % a == 0 && forall s :: h <= s < h + r ==> s % a != 0
  {
    var q, m := h / a, h % a;
    ModUnique(h, q, m, a);
    if m == 0 {
      ModUnique(a, 1, 0, a);
    } else {
      ModUnique(a - m, 0, a - m, a);
      ModUnique(h + (a - m), q + 1, 0, a);
      forall s | h <= s < h + (a - m) ensures s % a != 0 {
        ModUnique(s, q, s - q * a, a);
      }
    }
  }

  function AlignDown(p: nat, a: nat): (r: nat)
    requires 0 < a
    ensures r <= p < r + a && r % a == 0
    ensures forall s :: r < s <= p ==> s % a != 0
  {
    DownCorrect(p, a);
    p - p % a
  }

  lemma DownCorrect(p: nat, a: nat)
    requires 0 < a
    ensures (p - p % a) % a == 0
    ensures forall s :: p - p % a < s <= p ==> s % a != 0
  {
    var q, m := p / a, p % a;
    ModUnique(p - m, q, 0, a);
    forall s | p - m < s <= p ensures s % a != 0 {
      ModUnique(s, q, s - q * a, a);
    }
  }

  /** Starts in [h, h + remain] at which n blocks may be placed with alignment a. */
  ghost predicate Clean(bl: Lists, h: nat, remain: nat, n: nat, a: nat, s: nat)
    requires 0 < a
  {
    h <= s <= h + remain && s % a == 0 && !bl.Black(s, n)
  }

  /** find_nonbl_hblk: the least aligned start that fits and is not black-listed. */
  method FindNonBl(bl: Lists, h: nat, remain: nat, n: nat, a: nat) returns (r: Option<nat>)
    requires 0 < a
    requires AlignPad(h, a) <= remain
    ensures r.Some? ==> Clean(bl, h, remain, n, a, r.value)
    ensures r.Some? ==> forall s :: Clean(bl, h, remain, n, a, s) ==> r.value <= s
    ensures r.None? ==> forall s :: !Clean(bl, h, remain, n, a, s)
  {
    var searchEnd := AlignDown(h + remain, a);
    var last := h;
    while true
      invariant h <= last
      invariant last + AlignPad(last, a) <= searchEnd
      invariant forall s :: Clean(bl, h, remain, n, a, s) ==> last <= s
      decreases searchEnd - last
    {
      last := last + AlignPad(last, a);
      var next := IsBlackListed(bl, last, n);
      if next.None? {
        return Some(last);
      }
      last := next.value;
      if last > searchEnd {
        return None;
      }
      assert AlignPad(last, a) <= searchEnd - last;
    }
  }
}
