/** The map from request sizes in bytes to object sizes in granules. */
module SizeMap {
  import opened Arith

  const HBLKSIZE: nat := 4096
  const GRANULE_BYTES: nat := 16
  const HBLK_GRANULES: nat := HBLKSIZE / GRANULE_BYTES
  const MAXOBJBYTES: nat := HBLKSIZE / 2
  const MAXOBJGRANULES: nat := MAXOBJBYTES / GRANULE_BYTES
  const TINY_FREELISTS: nat := 25

  /** ALLOC_REQUEST_GRANS. */
  function RequestGrans(lb: nat, extra: nat): nat {
    (lb + GRANULE_BYTES - 1 + extra) / GRANULE_BYTES
  }

  /** n with the last bit cleared. */
  function Even(n: nat): (r: nat)
    ensures r % 2 == 0 && r <= n < r + 2
  {
    n / 2 * 2
  }

  /** The largest even size of which a block holds as many objects as of lg granules. */
  function Stretch(lg: nat): nat
    requires 0 < lg <= HBLK_GRANULES
  {
    QuotientPositive(lg);
    Even(HBLK_GRANULES / (HBLK_GRANULES / lg))
  }

  lemma {:induction false} QuotientPositive(lg: nat)
    requires 0 < lg <= HBLK_GRANULES
    ensures HBLK_GRANULES / lg > 0
    ensures (HBLK_GRANULES / lg) * lg <= HBLK_GRANULES < (HBLK_GRANULES / lg) * lg + lg
  {
    var q, r := HBLK_GRANULES / lg, HBLK_GRANULES % lg;
    assert HBLK_GRANULES == q * lg + r;
    assert q == 0 ==> q * lg == 0;
  }

  lemma {:induction false} QuotientAtLeast(x: nat, d: nat, k: nat)
    requires d > 0 && k * d <= x
    ensures k <= x / d
  {
    var q, r := x / d, x % d;
    assert x == q * d + r;
    assert (k - q) * d == k * d - q * d;
    OneStep(k - q, d);
  }

  lemma {:induction false} QuotientAtMost(x: nat, d: nat, k: nat)
    requires d > 0 && x < k * d
    ensures x / d < k
  {
    var q, r := x / d, x % d;
    assert x == q * d + r;
    assert (q - k) * d == q * d - k * d;
    OneStep(q - k, d);
    assert q == k ==> (q - k) * d == 0;
  }

  /** Stretching never shrinks an even size and stays within bounds. */
  lemma {:induction false} StretchBounds(lg: nat)
    requires 0 < lg <= MAXOBJGRANULES && lg % 2 == 0
    ensures lg <= Stretch(lg) <= MAXOBJGRANULES
    ensures Stretch(lg) * (HBLK_GRANULES / lg) <= HBLK_GRANULES
  {
    QuotientPositive(lg);
    var n := HBLK_GRANULES / lg;
    QuotientAtLeast(HBLK_GRANULES, n, lg) by {
      assert lg * n == n * lg;
    }
    QuotientAtLeast(HBLK_GRANULES, lg, 2);
    QuotientPositive(n);
    var w := HBLK_GRANULES / n;
    HalfAtMost(n);
    MulMono(Stretch(lg), w, n);
  }

  lemma {:induction false} HalfAtMost(n: nat)
    requires n >= 2
    ensures HBLK_GRANULES / n <= MAXOBJGRANULES
  {
    MulMono(2, n, MAXOBJGRANULES + 1);
    assert n * (MAXOBJGRANULES + 1) == (MAXOBJGRANULES + 1) * n;
    QuotientAtMost(HBLK_GRANULES, n, MAXOBJGRANULES + 1);
  }

  /** Stretching keeps the number of objects in a block. */
  lemma {:induction false} StretchOk(lg: nat)
    requires 0 < lg <= MAXOBJGRANULES && lg % 2 == 0
    ensures lg <= Stretch(lg) <= MAXOBJGRANULES
    ensures HBLK_GRANULES / Stretch(lg) == HBLK_GRANULES / lg
  {
    StretchBounds(lg);
    QuotientPositive(lg);
    SameQuotient(lg, Stretch(lg), HBLK_GRANULES / lg);
  }

  lemma {:induction false} SameQuotient(lg: nat, s: nat, n: nat)
    requires 0 < lg <= s && n * lg <= HBLK_GRANULES < n * lg + lg && s * n <= HBLK_GRANULES
    ensures HBLK_GRANULES / s == n
  {
    QuotientAtLeast(HBLK_GRANULES, s, n) by {
      assert n * s == s * n;
    }
    MulMono(lg, s, n + 1);
    assert lg * (n + 1) == n * lg + lg && s * (n + 1) == (n + 1) * s;
    QuotientAtMost(HBLK_GRANULES, s, n + 1);
  }

  lemma MulMono(a: nat, b: nat, c: nat)
    requires a <= b
    ensures a * c <= b * c
  {
    assert b * c - a * c == (b - a) * c;
  }

  function Max(a: nat, b: nat): nat {
    if a < b then b else a
  }

  /** The next even size, if it is in bounds. */
  function EvenSize(lg: nat): (r: nat)
    requires lg > 0
    ensures 0 < r <= MAXOBJGRANULES && r % 2 == 0
  {
    if Even(lg + 1) > MAXOBJGRANULES then MAXOBJGRANULES else Even(lg + 1)
  }

  /** The size class chosen for objects of at least lg granules. */
  function Rounded(lg: nat): nat
    requires lg > 0
  {
    Stretch(EvenSize(lg))
  }

  /** No larger even size has as many objects in a block. */
  ghost predicate FullBlock(lg: nat) {
    0 < lg <= HBLK_GRANULES && forall k: nat :: lg < k <= HBLK_GRANULES && k % 2 == 0 ==> FewerObjects(k, lg)
  }

  /** A block holds as many objects of r granules as of b, rounded up to even. */
  predicate Fits(r: nat, b: nat)
    requires 0 < r && 0 < b
  {
    HBLK_GRANULES / r >= HBLK_GRANULES / EvenSize(b)
  }

  predicate FewerObjects(k: nat, lg: nat)
    requires 0 < lg && 0 < k
  {
    HBLK_GRANULES / k < HBLK_GRANULES / lg
  }

  /** Rounding never shrinks a size within bounds, and no larger even size has as many objects
      in a block. */
  lemma {:induction false} RoundedOk(lg: nat, original: nat)
    requires 0 < original <= lg && original <= MAXOBJGRANULES
    ensures original <= Rounded(lg) <= MAXOBJGRANULES && Rounded(lg) % 2 == 0
    ensures FullBlock(Rounded(lg))
  {
    StretchOk(EvenSize(lg));
    StretchFull(EvenSize(lg));
  }

  /** What is wasted by rounding: as many objects fit in a block as of the even size next to any
      bound of the size before it. */
  lemma {:induction false} RoundedFits(lg: nat, bound: nat)
    requires 0 < lg <= bound
    ensures Rounded(lg) > 0 && Fits(Rounded(lg), bound)
  {
    StretchOk(EvenSize(lg));
    EvenSizeMono(lg, bound);
    SmallerFitsMore(EvenSize(lg), EvenSize(bound));
  }

  lemma EvenSizeMono(a: nat, b: nat)
    requires 0 < a <= b
    ensures EvenSize(a) <= EvenSize(b)
  {
  }

  lemma {:induction false} SmallerFitsMore(a: nat, b: nat)
    requires 0 < a <= b <= HBLK_GRANULES
    ensures HBLK_GRANULES / a >= HBLK_GRANULES / b
  {
    QuotientPositive(b);
    var n := HBLK_GRANULES / b;
    MulMono(a, b, n);
    assert n * a == a * n && n * b == b * n;
    QuotientAtLeast(HBLK_GRANULES, a, n);
  }

  lemma {:induction false} StretchFull(lg: nat)
    requires 0 < lg <= MAXOBJGRANULES && lg % 2 == 0
    ensures FullBlock(Stretch(lg))
  {
    StretchOk(lg);
    QuotientPositive(lg);
    var n, s := HBLK_GRANULES / lg, Stretch(lg);
    forall k: nat | s < k <= HBLK_GRANULES && k % 2 == 0 ensures FewerObjects(k, s) {
      // k does not fit n times.
      assert k > HBLK_GRANULES / n;
      QuotientPositive(n);
      MulMono(HBLK_GRANULES / n + 1, k, n);
      assert (HBLK_GRANULES / n + 1) * n == (HBLK_GRANULES / n) * n + n;
      QuotientAtMost(HBLK_GRANULES, k, n) by {
        assert n * k == k * n;
      }
    }
  }

  /** The second part of GC_extend_size_map. */
  method Round(lg: nat, ghost original: nat) returns (r: nat)
    requires 0 < original <= lg && original <= MAXOBJGRANULES
    ensures r == Rounded(lg)
    ensures original <= r <= MAXOBJGRANULES && r % 2 == 0 && FullBlock(r)
  {
    RoundedOk(lg, original);
    // the next even size
    r := Even(lg + 1);
    if r > MAXOBJGRANULES {
      r := MAXOBJGRANULES;
    }
    // the largest even size of which a block holds as many
    var numberOfObjs := HBLK_GRANULES / r;
    QuotientPositive(r);
    r := Even(HBLK_GRANULES / numberOfObjs);
  }

  /** A filled entry v for requests of j bytes; 0 stands for one not filled in yet. */
  predicate Holds(v: nat, j: nat, extra: nat) {
    v != 0 ==> j + extra <= v * GRANULE_BYTES && v <= MAXOBJGRANULES
  }

  /** A filled section of the map that ends at n is at least n / 4 entries long. */
  ghost predicate Dense(m: seq<nat>) {
    forall n: nat :: SectionEnd(m, n) ==> FilledFrom(m, n, 3 * n)
  }

  ghost predicate SectionEnd(m: seq<nat>, n: nat) {
    n < |m| && m[n] != 0 && (n + 1 < |m| ==> m[n + 1] == 0)
  }

  /** The entries up to n from the first one above a quarter of b on. */
  ghost predicate FilledFrom(m: seq<nat>, n: nat, b: nat)
    requires n < |m|
  {
    forall k: nat :: b < 4 * k && k <= n ==> m[k] != 0
  }

  /** A section from low to high is long enough with the filled entries before it. */
  ghost predicate Joins(m: seq<nat>, low: nat, high: nat)
    requires low <= |m|
  {
    (forall k: nat :: 3 * high < 4 * k && k < low ==> m[k] != 0) || (low > 0 && m[low - 1] != 0)
  }

  lemma {:induction false} JoinsBelow(m: seq<nat>, r: nat, extra: nat, low: nat)
    requires 0 < r && extra <= 1 && low <= |m|
    requires forall k: nat :: r * GRANULE_BYTES - r * GRANULE_BYTES / 4 <= k < low ==> m[k] != 0
    ensures Joins(m, low, r * GRANULE_BYTES - extra)
  {
  }

  /** Filling from an empty entry on, which either is near the start of the range or follows a
      section filled before, leaves long sections. */
  lemma {:induction false} FillDense(m: seq<nat>, m': seq<nat>, low: nat, high: nat)
    requires Dense(m) && |m'| == |m| && low <= high < |m| && m[low] == 0
    requires forall k: nat :: k < |m| ==> if low <= k <= high then m'[k] != 0 else m'[k] == m[k]
    requires Joins(m, low, high)
    ensures Dense(m')
  {
    forall n: nat | SectionEnd(m', n) ensures FilledFrom(m', n, 3 * n) {
      if n == high {
        if low > 0 && m[low - 1] != 0 {
          assert SectionEnd(m, low - 1);
        }
      } else {
        assert SectionEnd(m, n);
      }
    }
  }

  /** Not too much bigger than the request: a block holds as many objects as of a size half as
      large again, or one granule more. */
  predicate Snug(v: nat, j: nat) {
    v != 0 ==> Fits(v, j / 12 + j / 96 + 1)
  }

  ghost predicate AllSnug(m: seq<nat>) {
    forall j: nat :: j < |m| ==> Snug(m[j], j)
  }

  /** Filling entries that are not far below a request of r granules. */
  lemma {:induction false} FillSnug(m: seq<nat>, m': seq<nat>, low: nat, high: nat, v: nat, r: nat)
    requires AllSnug(m) && |m'| == |m| && 0 < v && 0 < r && 3 * (r * GRANULE_BYTES) <= 4 * low && Fits(v, r + r / 8)
    requires forall k: nat :: k < |m| ==> m'[k] == if low <= k <= high then v else m[k]
    ensures AllSnug(m')
  {
    forall j: nat | j < |m| ensures Snug(m'[j], j) {
      if low <= j <= high {
        SnugBelow(v, r, j);
      }
    }
  }

  /** Entries not far below a request may share its size. */
  lemma {:induction false} SnugBelow(v: nat, r: nat, j: nat)
    requires 0 < r && 0 < v && 3 * (r * GRANULE_BYTES) <= 4 * j && Fits(v, r + r / 8)
    ensures Snug(v, j)
  {
    assert r <= j / 12 && r / 8 <= j / 96;
    EvenSizeMono(r + r / 8, j / 12 + j / 96 + 1);
    SmallerFitsMore(EvenSize(r + r / 8), EvenSize(j / 12 + j / 96 + 1));
  }

  lemma {:induction false} TinySnug(j: nat, extra: nat)
    requires extra <= 1 && 0 < RequestGrans(j, extra) <= MAXOBJGRANULES
    ensures Snug(RequestGrans(j, extra), j)
  {
    var v, b := RequestGrans(j, extra), j / 12 + j / 96 + 1;
    assert v <= b;
    EvenSizeMono(v, b);
    SmallerFitsMore(v, EvenSize(b));
  }

  class Sizes {
    const extra: nat              // EXTRA_BYTES
    const sizeMap: array<nat>     // GC_size_map; 0 for an entry not filled in yet

    ghost predicate Valid()
      reads this, sizeMap
    {
      Basic() && AllSnug(sizeMap[..])
    }

    /** A filled entry gives objects that hold the request and the extra byte. */
    ghost predicate Basic()
      reads this, sizeMap
    {
      && extra <= 1
      && sizeMap.Length == MAXOBJBYTES + 1
      && (forall j: nat :: j <= MAXOBJBYTES ==> Holds(sizeMap[j], j, extra))
      && (forall j: nat :: j <= (TINY_FREELISTS - 1) * GRANULE_BYTES - extra ==>
            sizeMap[j] == if j == 0 then 1 else RequestGrans(j, extra))
      && Dense(sizeMap[..])
    }

    /** GC_init_size_map. */
    constructor (allInteriorPointers: bool)
      ensures Valid() && extra == (if allInteriorPointers then 1 else 0)
      ensures forall j: nat :: 0 < j <= (TINY_FREELISTS - 1) * GRANULE_BYTES - extra ==>
                sizeMap[j] == RequestGrans(j, extra) < TINY_FREELISTS
      ensures forall j: nat :: (TINY_FREELISTS - 1) * GRANULE_BYTES - extra < j <= MAXOBJBYTES ==> sizeMap[j] == 0
    {
      extra := if allInteriorPointers then 1 else 0;
      sizeMap := new nat[MAXOBJBYTES + 1](_ => 0);
      new;
      // requests of no bytes get the smallest objects
      sizeMap[0] := 1;
      var i := 1;
      while i <= (TINY_FREELISTS - 1) * GRANULE_BYTES - extra
        invariant 1 <= i <= (TINY_FREELISTS - 1) * GRANULE_BYTES - extra + 1
        invariant sizeMap[0] == 1
        invariant forall j: nat :: 0 < j < i ==> sizeMap[j] == RequestGrans(j, extra)
        invariant forall j: nat :: i <= j <= MAXOBJBYTES ==> sizeMap[j] == 0
        modifies sizeMap
      {
        sizeMap[i] := RequestGrans(i, extra);
        i := i + 1;
      }
      forall j: nat | 0 < j < i ensures Snug(sizeMap[j], j) {
        TinySnug(j, extra);
      }
      assert Snug(1, 0);
    }

    /** The first entry from low on that is not filled. */
    method FirstEmpty(low: nat, ghost i: nat) returns (r: nat)
      requires low <= i < sizeMap.Length && sizeMap[i] == 0
      ensures low <= r <= i && sizeMap[r] == 0
      ensures forall k: nat :: low <= k < r ==> sizeMap[k] != 0
    {
      r := low;
      while sizeMap[r] != 0
        invariant low <= r <= i
        invariant forall k: nat :: low <= k < r ==> sizeMap[k] != 0
        decreases i - r
      {
        r := r + 1;
      }
    }

    ghost function EighthBelow(i: nat): nat {
      RequestGrans(i, extra) * GRANULE_BYTES - RequestGrans(i, extra) * GRANULE_BYTES / 8
    }

    /** Where the search for the lowest entry to fill begins: a quarter below the request, or
        after an eighth below it if that entry is filled. */
    ghost function SearchFrom(i: nat): (r: nat)
      requires sizeMap.Length == MAXOBJBYTES + 1 && i + extra <= MAXOBJBYTES
      reads this, sizeMap
      ensures 3 * (RequestGrans(i, extra) * GRANULE_BYTES) <= 4 * r
    {
      var byteSz := RequestGrans(i, extra) * GRANULE_BYTES;
      if sizeMap[EighthBelow(i)] == 0 then byteSz - byteSz / 4 else EighthBelow(i) + 1
    }

    /** The first part of GC_extend_size_map: the lowest entry to fill, and the size to give it,
        which is at most an eighth larger than the request. */
    method Choose(i: nat) returns (lowLimit: nat, lg: nat)
      requires Basic() && i + extra <= MAXOBJBYTES && sizeMap[i] == 0
      ensures SearchFrom(i) <= lowLimit <= i && sizeMap[lowLimit] == 0
      ensures forall k: nat :: SearchFrom(i) <= k < lowLimit ==> sizeMap[k] != 0
      ensures RequestGrans(i, extra) <= lg <= RequestGrans(i, extra) + RequestGrans(i, extra) / 8
      ensures Joins(sizeMap[..], lowLimit, RequestGrans(i, extra) * GRANULE_BYTES - extra)
      ensures lg == if sizeMap[EighthBelow(i)] == 0 then RequestGrans(i, extra)
                    else Max(RequestGrans(i, extra), RequestGrans(lowLimit, extra) + RequestGrans(lowLimit, extra) / 8)
    {
      assert i > (TINY_FREELISTS - 1) * GRANULE_BYTES - extra;
      var originalLg := RequestGrans(i, extra);
      // the size of the request in whole granules
      var byteSz := originalLg * GRANULE_BYTES;
      var smallerThanI := byteSz - byteSz / 8;
      if sizeMap[smallerThanI] == 0 {
        lowLimit := FirstEmpty(byteSz - byteSz / 4, i); // a quarter below the request
        lg := originalLg;
        JoinsBelow(sizeMap[..], originalLg, extra, lowLimit);
      } else {
        lowLimit := FirstEmpty(smallerThanI + 1, i);
        assert sizeMap[lowLimit - 1] != 0;
        lg := RequestGrans(lowLimit, extra);
        lg := lg + lg / 8;
        if lg < originalLg {
          lg := originalLg;
        }
      }
    }

    /** GC_extend_size_map: the entries from low on get a size that holds the request, wastes
        little of it and none of a block; they are not far below the request. */
    method Extend(i: nat) returns (ghost low: nat)
      requires Valid() && i + extra <= MAXOBJBYTES && sizeMap[i] == 0
      modifies sizeMap
      ensures Valid()
      ensures 3 * (RequestGrans(i, extra) * GRANULE_BYTES) <= 4 * low && low <= i && old(sizeMap[low]) == 0
      ensures forall j: nat :: j <= MAXOBJBYTES ==>
                sizeMap[j] == if low <= j <= sizeMap[i] * GRANULE_BYTES - extra then sizeMap[i] else old(sizeMap[j])
      ensures RequestGrans(i, extra) <= sizeMap[i] <= MAXOBJGRANULES && sizeMap[i] % 2 == 0
      ensures FullBlock(sizeMap[i])
      ensures Fits(sizeMap[i], RequestGrans(i, extra) + RequestGrans(i, extra) / 8)
    {
      var lowLimit, lg := Choose(i);
      RoundedFits(lg, RequestGrans(i, extra) + RequestGrans(i, extra) / 8);
      lg := Round(lg, RequestGrans(i, extra));
      FillUp(lowLimit, lg, RequestGrans(i, extra));
      low := lowLimit;
    }

    /** The last loop of GC_extend_size_map, for a request of r granules. */
    method FillUp(low: nat, lg: nat, ghost r: nat)
      requires Valid() && 0 < r <= lg <= MAXOBJGRANULES && Fits(lg, r + r / 8)
      requires low <= r * GRANULE_BYTES - extra && sizeMap[low] == 0
      requires 3 * (r * GRANULE_BYTES) <= 4 * low && Joins(sizeMap[..], low, r * GRANULE_BYTES - extra)
      modifies sizeMap
      ensures Valid()
      ensures forall j: nat :: j <= MAXOBJBYTES ==>
                sizeMap[j] == if low <= j <= lg * GRANULE_BYTES - extra then lg else old(sizeMap[j])
    {
      ghost var m := sizeMap[..];
      var byteSz := lg * GRANULE_BYTES - extra;
      Fill(low, byteSz, lg);
      FillSnug(m, sizeMap[..], low, byteSz, lg, r);
      FillDense(m, sizeMap[..], low, byteSz);
    }

    method Fill(low: nat, high: nat, lg: nat)
      requires high < sizeMap.Length && low <= high + 1
      modifies sizeMap
      ensures forall j: nat :: j < sizeMap.Length ==> sizeMap[j] == if low <= j <= high then lg else old(sizeMap[j])
    {
      var k := low;
      while k <= high
        invariant low <= k <= high + 1
        invariant forall j: nat :: j < sizeMap.Length ==> sizeMap[j] == if low <= j < k then lg else old(sizeMap[j])
      {
        sizeMap[k] := lg;
        k := k + 1;
      }
    }

    /** The size class GC_generic_malloc_inner_small allocates from. */
    method ClassOf(lb: nat) returns (lg: nat)
      requires Valid() && lb + extra <= MAXOBJBYTES
      modifies sizeMap
      ensures Valid() && lg == sizeMap[lb]
      ensures 0 < lg <= MAXOBJGRANULES && lb + extra <= lg * GRANULE_BYTES
    {
      lg := sizeMap[lb];
      if lg == 0 {
        var _ := Extend(lb);
        lg := sizeMap[lb];
      }
      assert Holds(sizeMap[lb], lb, extra);
    }
  }
}
