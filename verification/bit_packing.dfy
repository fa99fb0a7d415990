/**
 Bit-packed integers in little-endian memory.

 Memory is an array of bits: bit `k` of byte `j` is at index `8 * j + k`.  Every access is to the eight bytes from
 the one its first bit is in, as in the program.
 */
module BitPacking {
  import opened Arithmetic

  /** Least significant bit first. */
  type Bits = seq<bool>

  function Zeros(n: nat): (r: Bits)
    ensures |r| == n && forall i :: 0 <= i < n ==> !r[i]
  {
    seq(n, _ => false)
  }

  function Value(b: Bits): (value: nat) {
    if b == [] then 0 else (if b[0] then 1 else 0) + 2 * Value(b[1..])
  }

  function ToBits(value: nat, n: nat): (r: Bits)
    ensures |r| == n
  {
    if n == 0 then [] else [value % 2 == 1] + ToBits(value / 2, n - 1)
  }

  function Power(n: nat): (p: nat)
    ensures p > 0
  {
    if n == 0 then 1 else 2 * Power(n - 1)
  }

  lemma {:induction false} ValueToBits(value: nat, n: nat)
    requires value < Power(n)
    ensures Value(ToBits(value, n)) == value
  {
    if n > 0 {
      ValueToBits(value / 2, n - 1);
      assert ToBits(value, n)[1..] == ToBits(value / 2, n - 1);
    }
  }

  lemma {:induction false} ToBitsValue(b: Bits)
    ensures ToBits(Value(b), |b|) == b && Value(b) < Power(|b|)
  {
    if b != [] {
      ToBitsValue(b[1..]);
      assert b == [b[0]] + b[1..];
    }
  }

  lemma {:induction false} ToBitsPadded(value: nat, n: nat, m: nat)
    requires value < Power(n) && n <= m
    ensures ToBits(value, m) == ToBits(value, n) + Zeros(m - n)
  {
    if n == 0 {
      ZeroBits(m);
      assert Zeros(m) == [] + Zeros(m);
    } else {
      ToBitsPadded(value / 2, n - 1, m - 1);
    }
  }

  lemma {:induction false} ZeroBits(m: nat)
    ensures ToBits(0, m) == Zeros(m)
  {
    if m > 0 {
      ZeroBits(m - 1);
      assert Zeros(m) == [false] + Zeros(m - 1);
    }
  }

  // ----- operations on 64-bit words

  function ShiftRight(w: Bits, k: nat): (r: Bits)
    requires k <= |w|
    ensures |r| == |w|
  {
    w[k..] + Zeros(k)
  }

  function ShiftLeft(w: Bits, k: nat): (r: Bits)
    requires k <= |w|
    ensures |r| == |w|
  {
    Zeros(k) + w[..|w|-k]
  }

  function And(a: Bits, b: Bits): (r: Bits)
    requires |a| == |b|
    ensures |r| == |a|
  {
    seq(|a|, i requires 0 <= i < |a| => a[i] && b[i])
  }

  function Or(a: Bits, b: Bits): (r: Bits)
    requires |a| == |b|
    ensures |r| == |a|
  {
    seq(|a|, i requires 0 <= i < |a| => a[i] || b[i])
  }

  /** The lowest `length` bits of 64. */
  function Mask(length: nat): (r: Bits)
    requires length <= 64
    ensures |r| == 64 && forall i :: 0 <= i < 64 ==> r[i] == (i < length)
  {
    seq(64, i => i < length)
  }

  // ----- memory

  /** The eight bytes touched by an access at this bit are in memory. */
  predicate Touches(memory: nat, bitOff: nat) {
    8 * (bitOff / 8) + 64 <= memory
  }

  function ReadOff(m: Bits, bitOff: nat): (w: Bits)
    requires Touches(|m|, bitOff)
    ensures |w| == 64
  {
    m[8 * (bitOff / 8)..8 * (bitOff / 8) + 64]
  }

  function ReadInt57(m: Bits, bitOff: nat, length: nat, mask: Bits): (value: nat)
    requires Touches(|m|, bitOff) && |mask| == 64
  {
    Value(And(ShiftRight(ReadOff(m, bitOff), bitOff % 8), mask))
  }

  /** The number in a field of memory. */
  function Field(m: Bits, bitOff: nat, length: nat): (value: nat)
    requires bitOff + length <= |m|
  {
    Value(m[bitOff..bitOff+length])
  }

  lemma {:induction false} ValuePadded(b: Bits, n: nat)
    ensures Value(b + Zeros(n)) == Value(b)
  {
    if b == [] {
      assert b + Zeros(n) == Zeros(n);
      if n > 0 {
        ValuePadded([], n - 1);
        assert Zeros(n)[1..] == [] + Zeros(n - 1);
      }
    } else {
      ValuePadded(b[1..], n);
      assert (b + Zeros(n))[1..] == b[1..] + Zeros(n);
    }
  }

  /** What is read is the field. */
  lemma ReadsField(m: Bits, bitOff: nat, length: nat)
    requires Touches(|m|, bitOff) && length <= 57
    ensures bitOff + length <= |m| && ReadInt57(m, bitOff, length, Mask(length)) == Field(m, bitOff, length)
  {
    var w := And(ShiftRight(ReadOff(m, bitOff), bitOff % 8), Mask(length));
    var f := m[bitOff..bitOff+length];
    forall i | 0 <= i < 64 ensures w[i] == (f + Zeros(64 - length))[i] {
      assert i < length ==> ShiftRight(ReadOff(m, bitOff), bitOff % 8)[i] == m[8 * (bitOff / 8) + bitOff % 8 + i];
    }
    assert w == f + Zeros(64 - length);
    ValuePadded(f, 64 - length);
  }

  /** Memory after the value has been ORed into the field. */
  function Written(m: Bits, bitOff: nat, length: nat, value: nat): (r: Bits)
    requires bitOff + length <= |m|
    ensures |r| == |m|
  {
    var bits := ToBits(value, length);
    seq(|m|, j requires 0 <= j < |m| => m[j] || (bitOff <= j < bitOff + length && bits[j-bitOff]))
  }

  /** A field of zeros then holds the value. */
  lemma WrittenHere(m: Bits, bitOff: nat, length: nat, value: nat)
    requires bitOff + length <= |m| && value < Power(length)
    requires m[bitOff..bitOff+length] == Zeros(length)
    ensures Field(Written(m, bitOff, length, value), bitOff, length) == value
  {
    hide ToBits;
    ValueToBits(value, length);
    var r := Written(m, bitOff, length, value);
    forall i | 0 <= i < length ensures r[bitOff..bitOff+length][i] == ToBits(value, length)[i] {
      assert r[bitOff+i] == (m[bitOff..bitOff+length][i] || ToBits(value, length)[i]);
    }
    assert Written(m, bitOff, length, value)[bitOff..bitOff+length] == ToBits(value, length);
  }

  predicate Disjoint(off1: nat, length1: nat, off2: nat, length2: nat) {
    off1 + length1 <= off2 || off2 + length2 <= off1
  }

  /** Other fields keep their bits. */
  lemma WrittenElsewhere(m: Bits, bitOff: nat, length: nat, value: nat, otherOff: nat, otherLength: nat)
    requires bitOff + length <= |m| && otherOff + otherLength <= |m|
    requires Disjoint(bitOff, length, otherOff, otherLength)
    ensures Written(m, bitOff, length, value)[otherOff..otherOff+otherLength] == m[otherOff..otherOff+otherLength]
  {
    hide ToBits;
  }

  /** Only the field's bits are set, although a whole word is ORed. */
  lemma OrSets(m: Bits, bitOff: nat, length: nat, value: nat)
    requires Touches(|m|, bitOff) && length <= 57 && value < Power(length)
    ensures bitOff + length <= |m|
    ensures var word, start := Or(ReadOff(m, bitOff), ShiftLeft(ToBits(value, 64), bitOff % 8)), 8 * (bitOff / 8);
      m[..start] + word + m[start+64..] == Written(m, bitOff, length, value)
  {
    hide ToBits;
    ToBitsPadded(value, length, 64);
    var word, start := Or(ReadOff(m, bitOff), ShiftLeft(ToBits(value, 64), bitOff % 8)), 8 * (bitOff / 8);
    var now := m[..start] + word + m[start+64..];
    forall j | 0 <= j < |m| ensures now[j] == Written(m, bitOff, length, value)[j] {
      if start <= j < start + 64 {
        assert now[j] == word[j-start];
        OrAt(m, bitOff, ToBits(value, 64), j);
      }
    }
  }

  /** One bit of the word that is written. */
  lemma OrAt(m: Bits, bitOff: nat, bits: Bits, j: nat)
    requires Touches(|m|, bitOff) && |bits| == 64 && 8 * (bitOff / 8) <= j < 8 * (bitOff / 8) + 64
    ensures Or(ReadOff(m, bitOff), ShiftLeft(bits, bitOff % 8))[j - 8 * (bitOff / 8)]
         == (m[j] || (j >= bitOff && bits[j-bitOff]))
  {}

  /** OR a value into memory. */
  method WriteInt57(m: array<bool>, bitOff: nat, length: nat, value: nat)
    requires Touches(m.Length, bitOff) && length <= 57 && value < Power(length)
    modifies m
    ensures bitOff + length <= m.Length && m[..] == Written(old(m[..]), bitOff, length, value)
  {
    hide ToBits, Or, ShiftLeft, ReadOff, Written;
    OrSets(m[..], bitOff, length, value);
    var start := 8 * (bitOff / 8);
    var word := Or(ReadOff(m[..], bitOff), ShiftLeft(ToBits(value, 64), bitOff % 8));
    var k := 0;
    while k < 64
      invariant 0 <= k <= 64
      invariant forall i :: 0 <= i < m.Length ==> m[i] == if start <= i < start + k then word[i-start] else old(m[i])
    {
      m[start + k] := word[k];
      k := k + 1;
    }
    assert m[..] == old(m[..])[..start] + word + old(m[..])[start+64..];
  }

  // ----- many fields

  datatype Write = Write(bitOff: nat, length: nat, value: nat)

  predicate CanWrite(memory: nat, w: Write) {
    Touches(memory, w.bitOff) && w.length <= 57 && w.value < Power(w.length)
  }

  predicate ReadsBack(m: Bits, w: Write) {
    CanWrite(|m|, w) && ReadInt57(m, w.bitOff, w.length, Mask(w.length)) == w.value
  }

  ghost predicate AllDisjoint(writes: seq<Write>) {
    forall i, j :: 0 <= i < j < |writes| ==>
      Disjoint(writes[i].bitOff, writes[i].length, writes[j].bitOff, writes[j].length)
  }

  /** In zeroed memory, any writes to disjoint fields all read back, although each touches eight bytes. */
  method WriteAll(m: array<bool>, writes: seq<Write>)
    requires m[..] == Zeros(m.Length) && AllDisjoint(writes)
    requires forall i :: 0 <= i < |writes| ==> CanWrite(m.Length, writes[i])
    modifies m
    ensures forall i :: 0 <= i < |writes| ==> ReadsBack(m[..], writes[i])
  {
    hide Written, Field, ReadInt57, Power;
    for k := 0 to |writes|
      invariant forall i :: 0 <= i < k ==>
        writes[i].bitOff + writes[i].length <= m.Length &&
        Field(m[..], writes[i].bitOff, writes[i].length) == writes[i].value
      invariant forall i :: k <= i < |writes| ==>
        writes[i].bitOff + writes[i].length <= m.Length &&
        m[..][writes[i].bitOff..writes[i].bitOff+writes[i].length] == Zeros(writes[i].length)
    {
      ghost var before := m[..];
      var w := writes[k];
      WriteInt57(m, w.bitOff, w.length, w.value);
      WrittenHere(before, w.bitOff, w.length, w.value);
      forall i | 0 <= i < |writes| && i != k
        ensures writes[i].bitOff + writes[i].length <= m.Length
        ensures Field(m[..], writes[i].bitOff, writes[i].length) == Field(before, writes[i].bitOff, writes[i].length)
        ensures m[..][writes[i].bitOff..writes[i].bitOff+writes[i].length] ==
                before[writes[i].bitOff..writes[i].bitOff+writes[i].length]
      {
        FieldKept(before, w.bitOff, w.length, w.value, writes[i].bitOff, writes[i].length);
      }
    }
    forall i | 0 <= i < |writes| ensures ReadsBack(m[..], writes[i]) {
      ReadsField(m[..], writes[i].bitOff, writes[i].length);
    }
  }

  lemma FieldKept(m: Bits, bitOff: nat, length: nat, value: nat, otherOff: nat, otherLength: nat)
    requires bitOff + length <= |m| && otherOff + otherLength <= |m|
    requires Disjoint(bitOff, length, otherOff, otherLength)
    ensures Field(Written(m, bitOff, length, value), otherOff, otherLength) == Field(m, otherOff, otherLength)
    ensures Written(m, bitOff, length, value)[otherOff..otherOff+otherLength] == m[otherOff..otherOff+otherLength]
  {
    WrittenElsewhere(m, bitOff, length, value, otherOff, otherLength);
  }

  // ----- floats, as 32-bit patterns with the sign last

  /** The sign bit is not stored. */
  function EncodeNonPositive(pattern: Bits): (value: nat)
    requires |pattern| == 32
  {
    Value(pattern[..31])
  }

  /** Whatever is stored next to the field is masked by setting the sign bit. */
  function ReadNonPositiveFloat31(m: Bits, bitOff: nat): (r: Bits)
    requires Touches(|m|, bitOff)
    ensures |r| == 32
  {
    Or(ShiftRight(ReadOff(m, bitOff), bitOff % 8)[..32], Zeros(31) + [true])
  }

  function ReadFloat32(m: Bits, bitOff: nat): (r: Bits)
    requires Touches(|m|, bitOff)
    ensures |r| == 32
  {
    ShiftRight(ReadOff(m, bitOff), bitOff % 8)[..32]
  }

  /** A float survives being stored in 31 bits exactly if its sign is set. */
  lemma NonPositiveRoundTrip(m: Bits, bitOff: nat, pattern: Bits)
    requires Touches(|m|, bitOff) && |pattern| == 32 && m[bitOff..bitOff+31] == Zeros(31)
    ensures EncodeNonPositive(pattern) < Power(31)
    ensures ReadNonPositiveFloat31(Written(m, bitOff, 31, EncodeNonPositive(pattern)), bitOff) == pattern[..31] + [true]
    ensures ReadNonPositiveFloat31(Written(m, bitOff, 31, EncodeNonPositive(pattern)), bitOff) == pattern <==>
      pattern[31]
  {
    hide ToBits, Value, Power;
    ToBitsValue(pattern[..31]);
    var now := Written(m, bitOff, 31, EncodeNonPositive(pattern));
    var r := ReadNonPositiveFloat31(now, bitOff);
    forall i | 0 <= i < 31 ensures r[i] == pattern[i] {
      assert r[i] == now[bitOff+i] == (m[bitOff..bitOff+31][i] || pattern[..31][i]);
    }
    assert r == pattern[..31] + [true];
    assert pattern == pattern[..31] + [pattern[31]];
    assert (pattern[..31] + [true])[31] == true;
  }

  lemma Float32RoundTrip(m: Bits, bitOff: nat, pattern: Bits)
    requires Touches(|m|, bitOff) && |pattern| == 32 && m[bitOff..bitOff+32] == Zeros(32)
    ensures ReadFloat32(Written(m, bitOff, 32, Value(pattern)), bitOff) == pattern
  {
    hide ToBits, Value, Power;
    ToBitsValue(pattern);
    var now := Written(m, bitOff, 32, Value(pattern));
    forall i | 0 <= i < 32 ensures now[bitOff+i] == pattern[i] {
      assert !m[bitOff..bitOff+32][i];
    }
    hide Written;
    Float32At(now, bitOff, pattern);
  }

  lemma Float32At(m: Bits, bitOff: nat, pattern: Bits)
    requires Touches(|m|, bitOff) && |pattern| == 32 && forall i :: 0 <= i < 32 ==> m[bitOff+i] == pattern[i]
    ensures ReadFloat32(m, bitOff) == pattern
  {}

  // ----- sizes

  /** How many bits numbers up to `maxValue` need. */
  function RequiredBits(maxValue: nat): (bits: nat)
    ensures maxValue < Power(bits)
    ensures maxValue > 0 ==> bits > 0 && Power(bits - 1) <= maxValue
  {
    if maxValue == 0 then 0 else 1 + RequiredBits(maxValue / 2)
  }

  lemma {:induction false} PowerGrows(a: nat, b: nat)
    requires a <= b
    ensures Power(a) <= Power(b)
    decreases b
  {
    if a < b { PowerGrows(a, b - 1); }
  }

  lemma {:induction false} PowerSum(a: nat, b: nat)
    ensures Power(a + b) == Power(a) * Power(b)
  {
    if a > 0 {
      PowerSum(a - 1, b);
      assert Power(a + b) == 2 * Power(a - 1 + b);
    }
  }

  lemma FitsBits(x: nat, n: nat)
    ensures x < Power(n) <==> RequiredBits(x) <= n
  {
    hide Power;
    var bits := RequiredBits(x);
    if bits <= n { PowerGrows(bits, n); } else { PowerGrows(n, bits - 1); }
  }

  /** Bytes for `entries` entries and one more for the last next pointer. */
  function BaseSize(entries: nat, totalBits: nat): (size: nat) {
    ((1 + entries) * totalBits + 7) / 8 + 8
  }

  /** Every access to an entry, or to the next pointer after the last, is within memory. */
  lemma BaseSizeSuffices(entries: nat, totalBits: nat, index: nat, within: nat)
    requires index <= entries && within <= totalBits
    ensures Touches(8 * BaseSize(entries, totalBits), index * totalBits + within)
  {
    var last := (1 + entries) * totalBits;
    assert (1 + entries) * totalBits == index * totalBits + (1 + entries - index) * totalBits;
    assert (1 + entries - index) * totalBits >= totalBits by { AtLeast(1 + entries - index, totalBits); }
    Rounding(index * totalBits + within, last);
  }

  /** And none to spare but for rounding: with two bytes less the last next pointer's place is beyond memory. */
  lemma BaseSizeTight(entries: nat, totalBits: nat)
    ensures BaseSize(entries, totalBits) >= 8
    ensures !Touches(8 * (BaseSize(entries, totalBits) - 2), (1 + entries) * totalBits)
  {}

  lemma TouchesBelow(memory: nat, bitOff: nat)
    requires Touches(memory, bitOff)
    ensures bitOff + 57 <= memory
  {}

  lemma Rounding(off: nat, last: nat)
    requires off <= last
    ensures 8 * (off / 8) <= 8 * ((last + 7) / 8)
  {}
}
