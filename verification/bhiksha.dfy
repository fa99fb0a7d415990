/**
 Storing a nondecreasing sequence of next pointers: whole, or with the high bits in an offset table.
 */
module Bhiksha {
  import opened Arithmetic
  import opened BitPacking

  /** Bits of table less bits saved, when `chop` high bits move to the table. */
  function Change(maxOffset: nat, maxNext: nat, required: nat, chop: nat): (cost: int)
    requires chop <= required
  {
    High(maxNext, required - chop) * 64 - maxOffset * chop
  }

  predicate Allowed(required: nat, configured: nat, chop: nat) {
    chop <= required && chop <= configured
  }

  /** The least costly of the allowed numbers of bits to chop, the smallest of those that cost the same. */
  method ChopBits(maxOffset: nat, maxNext: nat, configured: nat) returns (bestChop: nat)
    ensures Allowed(RequiredBits(maxNext), configured, bestChop)
    ensures forall c: nat :: Allowed(RequiredBits(maxNext), configured, c) ==>
      var r := RequiredBits(maxNext);
      && Change(maxOffset, maxNext, r, bestChop) <= Change(maxOffset, maxNext, r, c)
      && (c < bestChop ==> Change(maxOffset, maxNext, r, bestChop) < Change(maxOffset, maxNext, r, c))
  {
    hide Change;
    var required := RequiredBits(maxNext);
    bestChop := 0;
    var lowestChange := Change(maxOffset, maxNext, required, 0);
    var chop := 1;
    while chop <= if required < configured then required else configured
      invariant 1 <= chop && bestChop < chop && Allowed(required, configured, bestChop)
      invariant lowestChange == Change(maxOffset, maxNext, required, bestChop)
      invariant forall c: nat :: c < chop && Allowed(required, configured, c) ==>
        && lowestChange <= Change(maxOffset, maxNext, required, c)
        && (c < bestChop ==> lowestChange < Change(maxOffset, maxNext, required, c))
    {
      var change := Change(maxOffset, maxNext, required, chop);
      if change < lowestChange {
        lowestChange, bestChop := change, chop;
      }
      chop := chop + 1;
    }
  }

  /** What changes with the chop is all that differs in the bits an order takes: 64 for each table entry and the
      bits kept inline for each pointer. */
  lemma ChangeIsBits(maxOffset: nat, maxNext: nat, required: nat, chop: nat)
    requires chop <= required
    ensures 64 * (maxNext / Power(required - chop) + 1) + maxOffset * (required - chop)
            == Change(maxOffset, maxNext, required, chop) + 64 + maxOffset * required
  {
    hide Power;
  }

  /** No chop that the configuration allows takes fewer bits for table and inline parts together than a table of this
      size and this many bits inline, and those that take as few chop no less. */
  ghost predicate Cheapest(pointers: nat, maxNext: nat, configured: nat, tableSize: nat, inlineBits: nat) {
    var required := RequiredBits(maxNext);
    && inlineBits <= required && Allowed(required, configured, required - inlineBits)
    && forall c: nat :: Allowed(required, configured, c) ==>
         var bits := 64 * (maxNext / Power(required - c) + 1) + pointers * (required - c);
         && 64 * tableSize + pointers * inlineBits <= bits
         && (c < required - inlineBits ==> 64 * tableSize + pointers * inlineBits < bits)
  }

  ghost predicate Nondecreasing(vals: seq<nat>) {
    forall i, j :: 0 <= i <= j < |vals| ==> vals[i] <= vals[j]
  }

  function Quotient(a: nat, d: nat): (quotient: nat)
    requires d > 0
  {
    a / d
  }

  function Remainder(a: nat, d: nat): (r: nat)
    requires d > 0
    ensures r < d
  {
    a % d
  }

  /** What is left after shifting the low `bits` out. */
  function High(value: nat, bits: nat): (high: nat) {
    Quotient(value, Power(bits))
  }

  function Low(value: nat, bits: nat): (r: nat)
    ensures r < Power(bits)
  {
    Remainder(value, Power(bits))
  }

  /** The shifted high part and the low part share no bits, so their OR is their sum. */
  function Join(high: nat, low: nat, bits: nat): (value: nat) {
    high * Power(bits) + low
  }

  lemma JoinSplit(value: nat, bits: nat)
    ensures Join(High(value, bits), Low(value, bits), bits) == value
  {
    hide Power;
  }

  lemma HighGrows(a: nat, b: nat, bits: nat)
    requires a <= b
    ensures High(a, bits) <= High(b, bits)
  {
    DivideGrows(a, b, Power(bits));
  }

  /** Where the values' high part first reaches `j`. */
  ghost predicate FirstAt(vals: seq<nat>, bits: nat, j: nat, i: nat) {
    i < |vals| && High(vals[i], bits) >= j && forall k :: 0 <= k < i ==> High(vals[k], bits) < j
  }

  ghost function Reached(vals: seq<nat>, bits: nat): (count: nat) {
    if vals == [] then 0 else High(vals[|vals|-1], bits)
  }

  /** The table of where each high part starts, up to the one reached. */
  ghost predicate Table(offsets: seq<nat>, vals: seq<nat>, bits: nat, writeTo: nat) {
    && 1 <= writeTo <= |offsets| && writeTo == Reached(vals, bits) + 1
    && forall j :: 1 <= j < writeTo ==> FirstAt(vals, bits, j, offsets[j])
  }

  /** Whether the table entry for `j` is at or before `index` tells whether the high part has reached `j`. */
  lemma TableSays(offsets: seq<nat>, vals: seq<nat>, bits: nat, writeTo: nat, index: nat, j: nat)
    requires Nondecreasing(vals) && Table(offsets, vals, bits, writeTo) && index < |vals|
    requires 1 <= j < writeTo
    ensures offsets[j] <= index <==> j <= High(vals[index], bits)
  {
    assert FirstAt(vals, bits, j, offsets[j]);
    if offsets[j] <= index { HighGrows(vals[offsets[j]], vals[index], bits); }
  }

  class ArrayBhiksha {
    const inlineBits: nat
    const maxNext: nat
    const offsets: array<nat>
    var writeTo: nat
    ghost var vals: seq<nat>

    ghost predicate Valid()
      reads this, offsets
    {
      && offsets.Length == High(maxNext, inlineBits) + 1 && inlineBits <= RequiredBits(maxNext)
      && Nondecreasing(vals) && (forall i :: 0 <= i < |vals| ==> vals[i] <= maxNext)
      && Table(offsets[..], vals, inlineBits, writeTo)
    }

    constructor (maxOffset: nat, maxNext: nat, configured: nat)
      ensures Valid() && vals == [] && this.maxNext == maxNext && fresh(offsets)
      ensures Cheapest(maxOffset, maxNext, configured, offsets.Length, inlineBits)
    {
      hide Change, Power;
      var chop := ChopBits(maxOffset, maxNext, configured);
      ghost var required := RequiredBits(maxNext);
      var bits := RequiredBits(maxNext) - chop;
      inlineBits, this.maxNext := bits, maxNext;
      offsets := new nat[High(maxNext, bits) + 1](_ => 0);
      writeTo, vals := 1, [];
      ChangeIsBits(maxOffset, maxNext, required, chop);
      forall c: nat | c <= required { ChangeIsBits(maxOffset, maxNext, required, c); }
    }

    /** Write the next value, at `index`. */
    method WriteNext(m: array<bool>, bitOffset: nat, index: nat, value: nat)
      requires Valid() && index == |vals| && value <= maxNext && (vals != [] ==> vals[|vals|-1] <= value)
      requires inlineBits <= 57 && Touches(m.Length, bitOffset)
      modifies this, offsets, m
      ensures Valid() && vals == old(vals) + [value] && bitOffset + inlineBits <= m.Length
      ensures m[..] == Written(old(m[..]), bitOffset, inlineBits, Low(value, inlineBits))
    {
      hide Written, High, Low, Power, RequiredBits;
      var encode := High(value, inlineBits);
      HighGrows(value, maxNext, inlineBits);
      ghost var before, reached := offsets[..], writeTo;
      if vals != [] { HighGrows(vals[|vals|-1], value, inlineBits); }
      while writeTo <= encode
        invariant reached <= writeTo <= encode + 1 && vals == old(vals) && m[..] == old(m[..])
        invariant forall j :: 0 <= j < offsets.Length ==>
          offsets[j] == if reached <= j < writeTo then index else before[j]
        decreases encode + 1 - writeTo
      {
        offsets[writeTo] := index;
        writeTo := writeTo + 1;
      }
      TableMore(before, offsets[..], vals, inlineBits, reached, writeTo, value);
      vals := vals + [value];
      WriteInt57(m, bitOffset, inlineBits, Low(value, inlineBits));
    }

    /** Says whether all the expected table entries were written: just when the last value has the high part of the
        greatest possible. */
    method FinishedLoading() returns (ok: bool)
      requires Valid()
      modifies offsets
      ensures Valid() && (ok <==> Finished())
      ensures ok <==> Reached(vals, inlineBits) == High(maxNext, inlineBits)
      ensures vals != [] && vals[|vals|-1] == maxNext ==> ok
    {
      hide High;
      offsets[0] := 0;
      assert forall j :: 1 <= j < offsets.Length ==> offsets[..][j] == old(offsets[..])[j];
      ok := writeTo == offsets.Length;
    }

    ghost predicate Finished()
      reads this, offsets
    {
      Valid() && offsets[0] == 0 && writeTo == offsets.Length
    }

    /** The number of table entries at or before `index`. */
    method UpperBound(index: nat) returns (r: nat)
      requires Finished() && index < |vals|
      ensures r == High(vals[index], inlineBits) + 1
    {
      hide High;
      ReachedAt(vals, inlineBits, index);
      var begin, end := 0, offsets.Length;
      while begin < end
        invariant 0 <= begin <= High(vals[index], inlineBits) + 1 <= end <= offsets.Length
      {
        var mid := (begin + end) / 2;
        if mid > 0 { TableSays(offsets[..], vals, inlineBits, writeTo, index, mid); }
        if offsets[mid] <= index {
          begin := mid + 1;
        } else {
          end := mid;
        }
      }
      r := begin;
    }

    /** Read the values at `index` and `index + 1`. */
    method ReadNext(m: array<bool>, bitOffset: nat, index: nat, totalBits: nat) returns (begin: nat, end: nat)
      requires Finished() && index + 1 < |vals| && inlineBits <= 57
      requires Touches(m.Length, bitOffset) && Touches(m.Length, bitOffset + totalBits)
      requires bitOffset + inlineBits <= m.Length && Field(m[..], bitOffset, inlineBits) == Low(vals[index], inlineBits)
      requires bitOffset + totalBits + inlineBits <= m.Length
      requires Field(m[..], bitOffset + totalBits, inlineBits) == Low(vals[index+1], inlineBits)
      ensures begin == vals[index] && end == vals[index+1]
    {
      hide High, Low, Field, Power, Join, RequiredBits, ReadInt57;
      var upper := UpperBound(index);
      var beginIt := upper - 1;
      ReachedAt(vals, inlineBits, index);
      ReachedAt(vals, inlineBits, index + 1);
      HighGrows(vals[index], vals[index+1], inlineBits);
      var endIt := beginIt + 1;
      while endIt < offsets.Length && offsets[endIt] <= index + 1
        invariant beginIt + 1 <= endIt <= High(vals[index+1], inlineBits) + 1 <= offsets.Length
      {
        TableSays(offsets[..], vals, inlineBits, writeTo, index + 1, endIt);
        endIt := endIt + 1;
      }
      if endIt < offsets.Length { TableSays(offsets[..], vals, inlineBits, writeTo, index + 1, endIt); }
      endIt := endIt - 1;
      ReadsField(m[..], bitOffset, inlineBits);
      ReadsField(m[..], bitOffset + totalBits, inlineBits);
      begin := Join(beginIt, ReadInt57(m[..], bitOffset, inlineBits, Mask(inlineBits)), inlineBits);
      end := Join(endIt, ReadInt57(m[..], bitOffset + totalBits, inlineBits, Mask(inlineBits)), inlineBits);
      JoinSplit(vals[index], inlineBits);
      JoinSplit(vals[index+1], inlineBits);
    }
  }

  /** No value's high part is beyond the one reached. */
  lemma ReachedAt(vals: seq<nat>, bits: nat, index: nat)
    requires Nondecreasing(vals) && index < |vals|
    ensures High(vals[index], bits) <= Reached(vals, bits)
  {
    HighGrows(vals[index], vals[|vals|-1], bits);
  }

  lemma TableMore(before: seq<nat>, offsets: seq<nat>, vals: seq<nat>, bits: nat, reached: nat, writeTo: nat,
      value: nat)
    requires Table(before, vals, bits, reached) && |offsets| == |before| && High(value, bits) < |offsets|
    requires Nondecreasing(vals) && (vals != [] ==> vals[|vals|-1] <= value)
    requires writeTo == High(value, bits) + 1 && reached <= writeTo
    requires forall j :: 0 <= j < |offsets| ==> offsets[j] == if reached <= j < writeTo then |vals| else before[j]
    ensures Table(offsets, vals + [value], bits, writeTo)
  {
    hide High;
    forall j | 1 <= j < writeTo ensures FirstAt(vals + [value], bits, j, offsets[j]) {
      if j < reached {
        assert FirstAt(vals, bits, j, before[j]);
      } else {
        forall k | 0 <= k < |vals| ensures High(vals[k], bits) < j {
          HighGrows(vals[k], vals[|vals|-1], bits);
        }
      }
    }
  }

  /** Next pointers stored whole. */
  class DontBhiksha {
    const bits: nat
    const maxNext: nat
    ghost var vals: seq<nat>

    ghost predicate Valid()
      reads this
    {
      bits == RequiredBits(maxNext) && forall i :: 0 <= i < |vals| ==> vals[i] <= maxNext
    }

    constructor (maxNext: nat)
      ensures Valid() && vals == [] && this.maxNext == maxNext
    {
      bits, this.maxNext, vals := RequiredBits(maxNext), maxNext, [];
    }

    method WriteNext(m: array<bool>, bitOffset: nat, value: nat)
      requires Valid() && value <= maxNext && bits <= 57 && Touches(m.Length, bitOffset)
      modifies this, m
      ensures Valid() && vals == old(vals) + [value] && bitOffset + bits <= m.Length
      ensures m[..] == Written(old(m[..]), bitOffset, bits, value)
    {
      vals := vals + [value];
      WriteInt57(m, bitOffset, bits, value);
    }

    method ReadNext(m: array<bool>, bitOffset: nat, index: nat, totalBits: nat) returns (begin: nat, end: nat)
      requires Valid() && index + 1 < |vals| && bits <= 57
      requires Touches(m.Length, bitOffset) && Touches(m.Length, bitOffset + totalBits)
      requires bitOffset + bits <= m.Length && Field(m[..], bitOffset, bits) == vals[index]
      requires bitOffset + totalBits + bits <= m.Length && Field(m[..], bitOffset + totalBits, bits) == vals[index+1]
      ensures begin == vals[index] && end == vals[index+1]
    {
      hide Field, ReadInt57, RequiredBits, Power;
      ReadsField(m[..], bitOffset, bits);
      ReadsField(m[..], bitOffset + totalBits, bits);
      begin := ReadInt57(m[..], bitOffset, bits, Mask(bits));
      end := ReadInt57(m[..], bitOffset + totalBits, bits, Mask(bits));
    }
  }
}
