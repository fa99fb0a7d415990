/**
 Interpolation search over 64-bit indices.
 */
module SortedUniform {
  import opened Arithmetic

  const TWO_TO_THE_64: nat := 0x1_0000_0000_0000_0000
  const TWO_TO_THE_32: nat := 0x1_0000_0000

  /** Unsigned 64-bit arithmetic. */
  function Wrap(x: int): (r: nat)
    ensures r < TWO_TO_THE_64
    ensures 0 <= x < TWO_TO_THE_64 ==> r == x
    ensures x < 0 <= x + TWO_TO_THE_64 ==> r == x + TWO_TO_THE_64
    ensures TWO_TO_THE_64 <= x < 2 * TWO_TO_THE_64 ==> r == x - TWO_TO_THE_64
  {
    x % TWO_TO_THE_64
  }

  /** Guesses how far into `width` entries to look for what is `off` into a `range` of values. */
  type Pivot = (nat, nat, nat) -> nat

  ghost predicate PivotInside(pivot: Pivot) {
    forall off: nat, range: nat, width: nat :: width > 0 && off <= range ==> pivot(off, range, width) < width
  }

  /** For values of up to 32 bits. */
  function Pivot32(off: nat, range: nat, width: nat): (pivot: nat) {
    Wrap(off * width) / (range + 1)
  }

  lemma Pivot32Inside()
    ensures PivotInside(Pivot32)
  {
    forall off: nat, range: nat, width: nat | width > 0 && off <= range ensures Pivot32(off, range, width) < width {
      WrapLess(off * width);
      Product(off, range, width);
      QuotientLess(Wrap(off * width), range + 1, width);
    }
  }

  /** The pivot for larger values is a floating-point guess, capped. */
  function Capped(guess: Pivot): (pivot: Pivot)
    ensures PivotInside(pivot)
  {
    (off: nat, range: nat, width: nat) =>
      var r := guess(off, range, width);
      if r < width then r else if width > 0 then width - 1 else 0
  }

  lemma WrapLess(x: nat)
    ensures Wrap(x) <= x
  {}

  lemma Product(off: nat, range: nat, width: nat)
    requires width > 0 && off <= range
    ensures off * width < (range + 1) * width
  {
    assert (range + 1 - off) * width >= width by { AtLeast(range + 1 - off, width); }
    assert (range + 1) * width == off * width + (range + 1 - off) * width;
  }

  lemma QuotientLess(x: nat, d: nat, q: nat)
    requires d > 0 && x < d * q
    ensures x / d < q
  {
    if x / d >= q {
      assert d * (x / d) >= d * q by { TimesGrows(d, q, x / d); }
    }
  }

  ghost predicate StrictlySorted(a: seq<nat>, begin: nat, end: nat) {
    begin <= end <= |a| && forall i, j :: begin <= i < j < end ==> a[i] < a[j]
  }

  ghost predicate Bounded(a: seq<nat>, begin: nat, end: nat, low: nat, high: nat)
    requires end <= |a|
  {
    forall i :: begin <= i < end ==> low <= a[i] <= high
  }

  /** There are no more entries than values. */
  lemma {:induction false} AtMostValues(a: seq<nat>, begin: nat, end: nat, low: nat, high: nat)
    requires StrictlySorted(a, begin, end) && Bounded(a, begin, end, low, high)
    ensures begin < end ==> end - begin <= a[end-1] - low + 1 <= high - low + 1
    decreases end
  {
    if begin + 1 < end {
      AtMostValues(a, begin, end - 1, low, high);
      assert a[end-2] < a[end-1];
    }
  }

  /** In any state of a search for 32-bit values, the product the pivot is computed from does not overflow. */
  lemma Pivot32Exact(a: seq<nat>, begin: nat, end: nat, low: nat, high: nat, key: nat)
    requires StrictlySorted(a, begin, end) && Bounded(a, begin, end, low, high)
    requires begin < end && low <= key <= high < TWO_TO_THE_32
    ensures (key - low) * (end - begin) < TWO_TO_THE_64
    ensures Pivot32(key - low, high - low, end - begin) == (key - low) * (end - begin) / (high - low + 1)
  {
    AtMostValues(a, begin, end, low, high);
    SmallProduct(key - low, end - begin);
    PivotOf(key - low, high - low, end - begin);
  }

  lemma SmallProduct(off: nat, width: nat)
    requires off < TWO_TO_THE_32 && width <= TWO_TO_THE_32
    ensures off * width < TWO_TO_THE_64
  {
    TimesGrows(off, width, TWO_TO_THE_32);
    assert off * TWO_TO_THE_32 <= (TWO_TO_THE_32 - 1) * TWO_TO_THE_32;
  }

  lemma PivotOf(off: nat, range: nat, width: nat)
    requires off * width < TWO_TO_THE_64
    ensures Pivot32(off, range, width) == off * width / (range + 1)
  {}

  /** `accessor` gives the keys of the entries from `begin` to before `end`. */
  ghost predicate Gives(accessor: nat --> nat, a: seq<nat>, begin: nat, end: nat) {
    end <= |a| && forall i: nat :: begin <= i < end ==> accessor.requires(i) && accessor(i) == a[i]
  }

  /** Despite the wrap-around the entries between `before` and `after` are counted right. */
  lemma WidthBetween(before: nat, low: nat, after: nat)
    requires low <= after < TWO_TO_THE_64 - 1 && before == Wrap(low - 1) && Wrap(after - before) > 1
    ensures low < after && Wrap(after - before - 1) == after - low
  {}

  lemma PlaceAt(before: nat, low: nat, offset: nat)
    requires low + offset < TWO_TO_THE_64 - 1 && before == Wrap(low - 1)
    ensures Wrap(before + (1 + offset)) == low + offset
  {}

  /** Search the entries after `beforeIt`, which is one less than the first modulo 2^64, and before `afterIt`. */
  method BoundedSortedUniformFind(accessor: nat --> nat, pivot: Pivot, beforeIt: nat, beforeV: nat, afterIt: nat,
                                  afterV: nat, key: nat, ghost a: seq<nat>)
    returns (found: bool, out: nat)
    requires PivotInside(pivot) && beforeIt < TWO_TO_THE_64 && |a| < TWO_TO_THE_64 - 1
    requires StrictlySorted(a, Wrap(beforeIt + 1), afterIt) && Bounded(a, Wrap(beforeIt + 1), afterIt, beforeV, afterV)
    requires Gives(accessor, a, Wrap(beforeIt + 1), afterIt) && beforeV <= key <= afterV
    ensures found <==> exists i :: Wrap(beforeIt + 1) <= i < afterIt && a[i] == key
    ensures found ==> Wrap(beforeIt + 1) <= out < afterIt && a[out] == key
  {
    ghost var low: nat := Wrap(beforeIt + 1);
    var before: nat, below: nat, after: nat, above: nat := beforeIt, beforeV, afterIt, afterV;
    while Wrap(after - before) > 1
      invariant Wrap(beforeIt + 1) <= low <= after <= afterIt && before == Wrap(low - 1)
      invariant Bounded(a, low, after, below, above) && below <= key <= above
      invariant forall i :: Wrap(beforeIt + 1) <= i < low || after <= i < afterIt ==> a[i] != key
      decreases after - low
    {
      WidthBetween(before, low, after);
      var width := Wrap(after - before - 1);
      var offset := pivot(key - below, above - below, width);
      var at := Wrap(before + (1 + offset));
      PlaceAt(before, low, offset);
      var mid := accessor(at);
      if mid < key {
        before, below := at, mid;
        low := at + 1;
      } else if mid > key {
        after, above := at, mid;
      } else {
        return true, at;
      }
    }
    return false, 0;
  }
}
