/**
 One order of the trie, packed: for each entry a word, room for its weights, and, except in the last order, a next
 pointer.
 */
module PackedMiddle {
  import opened Arithmetic
  import opened BitPacking
  import opened Bhiksha
  import opened SortedUniform

  /** Where an entry's fields are. */
  datatype Layout = Layout(wordBits: nat, quantBits: nat, inlineBits: nat)

  function Total(l: Layout): (bits: nat) {
    l.wordBits + l.quantBits + l.inlineBits
  }

  function WordAt(l: Layout, i: nat): (offset: nat) {
    i * Total(l)
  }

  function WeightsAt(l: Layout, i: nat): (offset: nat) {
    WordAt(l, i) + l.wordBits
  }

  function NextAt(l: Layout, i: nat): (offset: nat) {
    WordAt(l, i) + l.wordBits + l.quantBits
  }

  lemma EntriesApart(l: Layout, i: nat, j: nat)
    requires i < j
    ensures WordAt(l, i) + Total(l) <= WordAt(l, j)
  {
    assert j * Total(l) == i * Total(l) + (j - i) * Total(l);
    assert (j - i) * Total(l) >= Total(l) by { AtLeast(j - i, Total(l)); }
  }

  ghost predicate HasField(m: Bits, bitOff: nat, length: nat, value: nat) {
    bitOff + length <= |m| && Field(m, bitOff, length) == value
  }

  ghost predicate ZeroFrom(m: Bits, k: nat) {
    forall i :: k <= i < |m| ==> !m[i]
  }

  /** The entries' words and next pointers are in memory. */
  ghost predicate Packed(m: Bits, l: Layout, words: seq<nat>, vals: seq<nat>) {
    && (forall i :: 0 <= i < |words| ==> HasField(m, WordAt(l, i), l.wordBits, words[i]))
    && (forall i :: 0 <= i < |vals| ==> HasField(m, NextAt(l, i), l.inlineBits, Low(vals[i], l.inlineBits)))
  }

  /** A write that overlaps none of the fields. */
  lemma PackedKept(m: Bits, l: Layout, words: seq<nat>, vals: seq<nat>, bitOff: nat, length: nat, value: nat)
    requires Packed(m, l, words, vals) && bitOff + length <= |m|
    requires forall i :: 0 <= i < |words| ==> Disjoint(bitOff, length, WordAt(l, i), l.wordBits)
    requires forall i :: 0 <= i < |vals| ==> Disjoint(bitOff, length, NextAt(l, i), l.inlineBits)
    ensures Packed(Written(m, bitOff, length, value), l, words, vals)
  {
    hide Field, Written, WordAt;
    var m' := Written(m, bitOff, length, value);
    forall i | 0 <= i < |words| ensures HasField(m', WordAt(l, i), l.wordBits, words[i]) {
      FieldKept(m, bitOff, length, value, WordAt(l, i), l.wordBits);
    }
    forall i | 0 <= i < |vals| ensures HasField(m', NextAt(l, i), l.inlineBits, Low(vals[i], l.inlineBits)) {
      FieldKept(m, bitOff, length, value, NextAt(l, i), l.inlineBits);
    }
  }

  /** A field of zeros takes the value. */
  lemma FieldSet(m: Bits, bitOff: nat, length: nat, value: nat)
    requires bitOff + length <= |m| && ZeroFrom(m, bitOff) && value < Power(length)
    ensures HasField(Written(m, bitOff, length, value), bitOff, length, value)
    ensures ZeroFrom(Written(m, bitOff, length, value), bitOff + length)
  {
    hide ToBits, Power;
    assert m[bitOff..bitOff+length] == Zeros(length);
    WrittenHere(m, bitOff, length, value);
  }

  lemma PackedWord(m: Bits, l: Layout, words: seq<nat>, vals: seq<nat>, word: nat)
    requires Packed(m, l, words, vals) && |vals| <= |words| && ZeroFrom(m, WordAt(l, |words|))
    requires WordAt(l, |words|) + l.wordBits <= |m| && word < Power(l.wordBits)
    ensures var m' := Written(m, WordAt(l, |words|), l.wordBits, word);
      Packed(m', l, words + [word], vals) && ZeroFrom(m', WeightsAt(l, |words|))
  {
    hide Field, Written, Power, WordAt, Packed;
    var n := |words|;
    forall i | 0 <= i < n ensures WordAt(l, i) + Total(l) <= WordAt(l, n) { EntriesApart(l, i, n); }
    PackedKept(m, l, words, vals, WordAt(l, n), l.wordBits, word);
    FieldSet(m, WordAt(l, n), l.wordBits, word);
    AddWord(Written(m, WordAt(l, n), l.wordBits, word), l, words, vals, word);
  }

  lemma AddWord(m: Bits, l: Layout, words: seq<nat>, vals: seq<nat>, word: nat)
    requires Packed(m, l, words, vals) && HasField(m, WordAt(l, |words|), l.wordBits, word)
    ensures Packed(m, l, words + [word], vals)
  {}

  lemma AddNext(m: Bits, l: Layout, words: seq<nat>, vals: seq<nat>, value: nat)
    requires Packed(m, l, words, vals) && HasField(m, NextAt(l, |vals|), l.inlineBits, Low(value, l.inlineBits))
    ensures Packed(m, l, words, vals + [value])
  {}

  lemma PackedNext(m: Bits, l: Layout, words: seq<nat>, vals: seq<nat>, value: nat)
    requires Packed(m, l, words, vals) && |vals| <= |words| <= |vals| + 1 && ZeroFrom(m, NextAt(l, |vals|))
    requires NextAt(l, |vals|) + l.inlineBits <= |m|
    ensures var m' := Written(m, NextAt(l, |vals|), l.inlineBits, Low(value, l.inlineBits));
      Packed(m', l, words, vals + [value]) && ZeroFrom(m', NextAt(l, |vals|) + l.inlineBits)
  {
    hide Field, Written, Power, Low, WordAt, Packed;
    var n := |vals|;
    forall i | 0 <= i < n ensures WordAt(l, i) + Total(l) <= WordAt(l, n) { EntriesApart(l, i, n); }
    PackedKept(m, l, words, vals, NextAt(l, n), l.inlineBits, Low(value, l.inlineBits));
    FieldSet(m, NextAt(l, n), l.inlineBits, Low(value, l.inlineBits));
    AddNext(Written(m, NextAt(l, n), l.inlineBits, Low(value, l.inlineBits)), l, words, vals, value);
  }

  // ----- weights

  function WeightsOf(m: Bits, l: Layout, i: nat): (w: Bits)
    requires WeightsAt(l, i) + l.quantBits <= |m|
  {
    m[WeightsAt(l, i)..WeightsAt(l, i)+l.quantBits]
  }

  /** The first entries have these weights. */
  ghost predicate Weighed(m: Bits, l: Layout, weights: seq<Bits>) {
    forall i :: 0 <= i < |weights| ==>
      WeightsAt(l, i) + l.quantBits <= |m| && WeightsOf(m, l, i) == weights[i]
  }

  /** A write that overlaps none of them. */
  lemma WeighedKept(m: Bits, l: Layout, weights: seq<Bits>, bitOff: nat, length: nat, value: nat)
    requires Weighed(m, l, weights) && bitOff + length <= |m|
    requires forall i :: 0 <= i < |weights| ==> Disjoint(bitOff, length, WeightsAt(l, i), l.quantBits)
    ensures Weighed(Written(m, bitOff, length, value), l, weights)
  {
    hide Field, Written, WeightsAt;
    forall i | 0 <= i < |weights| ensures WeightsOf(Written(m, bitOff, length, value), l, i) == weights[i] {
      FieldKept(m, bitOff, length, value, WeightsAt(l, i), l.quantBits);
    }
  }

  /** The next entry's weights are still zero. */
  lemma WeighedMore(m: Bits, l: Layout, weights: seq<Bits>)
    requires Weighed(m, l, weights) && ZeroFrom(m, WeightsAt(l, |weights|))
    requires WeightsAt(l, |weights|) + l.quantBits <= |m|
    ensures Weighed(m, l, weights + [Zeros(l.quantBits)])
  {
    hide WeightsAt;
    assert WeightsOf(m, l, |weights|) == Zeros(l.quantBits);
  }

  lemma WordApart(l: Layout, n: nat)
    ensures forall i :: 0 <= i < n ==> Disjoint(WordAt(l, n), l.wordBits, WeightsAt(l, i), l.quantBits)
    ensures forall i :: 0 <= i <= n ==> Disjoint(NextAt(l, n), l.inlineBits, WeightsAt(l, i), l.quantBits)
  {
    hide WordAt;
    forall i | 0 <= i < n ensures WordAt(l, i) + Total(l) <= WordAt(l, n) { EntriesApart(l, i, n); }
  }

  /** Writing one weight of an entry changes only that. */
  lemma WeightWritten(m: Bits, l: Layout, weights: seq<Bits>, i: nat, off: nat, length: nat, value: nat)
    requires Weighed(m, l, weights) && i < |weights| && off + length <= l.quantBits
    requires WeightsAt(l, i) + l.quantBits <= |m| && |weights[i]| == l.quantBits
    ensures Weighed(Written(m, WeightsAt(l, i) + off, length, value), l,
                    weights[i := Written(weights[i], off, length, value)])
  {
    hide WeightsAt, Written;
    var m' := Written(m, WeightsAt(l, i) + off, length, value);
    forall j | 0 <= j < |weights| ensures
      WeightsOf(m', l, j) == weights[i := Written(weights[i], off, length, value)][j]
    {
      if j == i {
        WrittenWithin(m, WeightsAt(l, i), l.quantBits, off, length, value);
      } else {
        WeightsDisjoint(l, i, j, off, length);
        FieldKept(m, WeightsAt(l, i) + off, length, value, WeightsAt(l, j), l.quantBits);
      }
    }
  }

  lemma WeightsDisjoint(l: Layout, i: nat, j: nat, off: nat, length: nat)
    requires i != j && off + length <= l.quantBits
    ensures Disjoint(WeightsAt(l, i) + off, length, WeightsAt(l, j), l.quantBits)
  {
    hide WordAt;
    EntryCases(l, i, j);
  }

  lemma WrittenWithin(m: Bits, start: nat, size: nat, off: nat, length: nat, value: nat)
    requires start + size <= |m| && off + length <= size
    ensures Written(m, start + off, length, value)[start..start+size]
         == Written(m[start..start+size], off, length, value)
  {
    hide ToBits;
  }

  /** Weights are written between the word and the next pointer, and disturb neither; nor is
      anything written beyond the entries inserted so far, where the next insertion needs zeros. */
  lemma WeightsApart(m: Bits, l: Layout, words: seq<nat>, vals: seq<nat>, i: nat, off: nat, length: nat, value: nat)
    requires Packed(m, l, words, vals) && off + length <= l.quantBits && WeightsAt(l, i) + off + length <= |m|
    ensures Packed(Written(m, WeightsAt(l, i) + off, length, value), l, words, vals)
    ensures i < |words| && ZeroFrom(m, WordAt(l, |words|)) ==>
      ZeroFrom(Written(m, WeightsAt(l, i) + off, length, value), WordAt(l, |words|))
  {
    if i < |words| {
      EntriesApart(l, i, |words|);
      ZeroBeyond(m, WeightsAt(l, i) + off, length, value, WordAt(l, |words|));
    }
    hide Field, Written, Packed, WordAt;
    forall j | 0 <= j < |words| ensures Disjoint(WeightsAt(l, i) + off, length, WordAt(l, j), l.wordBits) {
      EntryCases(l, i, j);
    }
    forall j | 0 <= j < |vals| ensures Disjoint(WeightsAt(l, i) + off, length, NextAt(l, j), l.inlineBits) {
      EntryCases(l, i, j);
    }
    PackedKept(m, l, words, vals, WeightsAt(l, i) + off, length, value);
  }

  lemma ZeroBeyond(m: Bits, bitOff: nat, length: nat, value: nat, k: nat)
    requires bitOff + length <= k && bitOff + length <= |m|
    ensures ZeroFrom(m, k) ==> ZeroFrom(Written(m, bitOff, length, value), k)
  {}

  lemma EntryCases(l: Layout, i: nat, j: nat)
    ensures i == j || WordAt(l, i) + Total(l) <= WordAt(l, j) || WordAt(l, j) + Total(l) <= WordAt(l, i)
  {
    if i < j { EntriesApart(l, i, j); } else if j < i { EntriesApart(l, j, i); }
  }

  /** Reads the word of an entry. */
  function KeyAt(m: Bits, l: Layout): (key: nat --> nat)
    requires l.wordBits <= 57
  {
    (i: nat) requires Touches(|m|, WordAt(l, i)) => ReadInt57(m, WordAt(l, i), l.wordBits, Mask(l.wordBits))
  }

  class BitPackedMiddle {
    const m: array<bool>
    const l: Layout
    const entries: nat
    const maxVocab: nat
    const bhiksha: ArrayBhiksha
    var insertIndex: nat
    ghost var words: seq<nat>
    ghost var weights: seq<Bits>

    ghost predicate Valid()
      reads this, m, bhiksha, bhiksha.offsets
    {
      && bhiksha.Valid() && l.inlineBits == bhiksha.inlineBits && l.wordBits == RequiredBits(maxVocab)
      && l.wordBits <= 57 && l.inlineBits <= 57 && entries + 1 < Power(57)
      && m.Length == 8 * BaseSize(entries, Total(l))
      && insertIndex == |words| <= entries && (forall i :: 0 <= i < |words| ==> words[i] <= maxVocab)
      && Packed(m[..], l, words, bhiksha.vals)
      && |weights| == |words| && Weighed(m[..], l, weights)
    }

    /** Still inserting: beyond the last entry memory is zero. */
    ghost predicate Loading()
      reads this, m, bhiksha, bhiksha.offsets
    {
      Valid() && |bhiksha.vals| == |words| && ZeroFrom(m[..], WordAt(l, |words|))
    }

    /** All next pointers, and the end of the last one's range, are there. */
    ghost predicate Finished()
      reads this, m, bhiksha, bhiksha.offsets
    {
      Valid() && bhiksha.Finished() && |bhiksha.vals| == |words| + 1
    }

    /** The program throws for more entries, pointers or words than 57 bits can count. */
    constructor (quantBits: nat, entries: nat, maxVocab: nat, maxNext: nat, configured: nat)
      requires entries + 1 < Power(57) && maxNext < Power(57) && maxVocab < Power(57)
      ensures Loading() && words == [] && weights == [] && bhiksha.vals == [] && bhiksha.maxNext == maxNext
      ensures l.quantBits == quantBits
      ensures Cheapest(entries + 1, maxNext, configured, bhiksha.offsets.Length, l.inlineBits)
      ensures this.maxVocab == maxVocab && this.entries == entries
      ensures fresh(m) && fresh(bhiksha) && fresh(bhiksha.offsets)
    {
      hide Power, RequiredBits, High, BaseSize, Table, Cheapest;
      FitsBits(maxNext, 57);
      FitsBits(maxVocab, 57);
      var b := new ArrayBhiksha(entries + 1, maxNext, configured);
      var layout := Layout(RequiredBits(maxVocab), quantBits, b.inlineBits);
      bhiksha, l, this.entries, this.maxVocab := b, layout, entries, maxVocab;
      m := new bool[8 * BaseSize(entries, Total(layout))](_ => false);
      insertIndex, words, weights := 0, [], [];
    }

    /** Append an entry; `next` is the insert index of the next order.  Its weights go at the bits returned. */
    method Insert(word: nat, next: nat) returns (weightsAt: nat)
      requires Loading() && insertIndex < entries && word <= maxVocab
      requires next <= bhiksha.maxNext && (words != [] ==> bhiksha.vals[|words|-1] <= next)
      modifies this, m, bhiksha, bhiksha.offsets
      ensures Loading() && words == old(words) + [word] && bhiksha.vals == old(bhiksha.vals) + [next]
      ensures weights == old(weights) + [Zeros(l.quantBits)]
      ensures weightsAt == WeightsAt(l, old(insertIndex)) && weightsAt + l.quantBits <= m.Length
    {
      hide Weighed, Power, RequiredBits, High, Low, BaseSize, Table, Written, Field, Packed, WordAt, ZeroFrom,
           Nondecreasing;
      InMemory(l, entries, insertIndex);
      EntriesApart(l, insertIndex, insertIndex + 1);
      InsertWord(word);
      InsertNext(next);
      ZeroLater(m[..], NextAt(l, insertIndex) + l.inlineBits, WordAt(l, insertIndex + 1));
      weightsAt := WeightsAt(l, insertIndex);
      insertIndex := insertIndex + 1;
    }

    /** Write one of an entry's weights where insertion said. */
    method WriteWeight(i: nat, off: nat, length: nat, value: nat)
      requires Loading() && i < insertIndex && off + length <= l.quantBits && length <= 57 && value < Power(length)
      modifies this`weights, m
      ensures Loading() && weights == old(weights)[i := Written(old(weights)[i], off, length, value)]
    {
      hide Power, RequiredBits, High, Low, BaseSize, Table, Written, Field, Packed, WordAt, ZeroFrom, Weighed;
      WeightInMemory(l, entries, i, off);
      WeighedSize(m[..], l, weights, i);
      WeightsApart(m[..], l, words, bhiksha.vals, i, off, length, value);
      WeightWritten(m[..], l, weights, i, off, length, value);
      WriteInt57(m, WeightsAt(l, i) + off, length, value);
      weights := weights[i := Written(weights[i], off, length, value)];
    }

    /** Read one of an entry's weights. */
    method ReadWeight(i: nat, off: nat, length: nat) returns (value: nat)
      requires Valid() && i < insertIndex && off + length <= l.quantBits && length <= 57
      ensures HasField(weights[i], off, length, value)
    {
      hide Power, RequiredBits, BaseSize, Field, Packed, WordAt, Weighed, ReadInt57;
      WeightInMemory(l, entries, i, off);
      WeighedSize(m[..], l, weights, i);
      ReadsField(m[..], WeightsAt(l, i) + off, length);
      value := ReadInt57(m[..], WeightsAt(l, i) + off, length, Mask(length));
      WeightField(m[..], l, weights, i, off, length);
    }

    method InsertWord(word: nat)
      requires Loading() && insertIndex < entries && word <= maxVocab
      modifies this`words, this`weights, m
      ensures words == old(words) + [word] && Packed(m[..], l, words, bhiksha.vals)
      ensures weights == old(weights) + [Zeros(l.quantBits)] && Weighed(m[..], l, weights)
      ensures ZeroFrom(m[..], NextAt(l, insertIndex))
    {
      hide Power, RequiredBits, High, Low, BaseSize, Table, Written, Field, Packed, WordAt, ZeroFrom, Nondecreasing,
           Weighed;
      InMemory(l, entries, insertIndex);
      FitsBits(word, l.wordBits);
      FitsBits(maxVocab, l.wordBits);
      PackedWord(m[..], l, words, bhiksha.vals, word);
      WordApart(l, insertIndex);
      WeighedKept(m[..], l, weights, WordAt(l, insertIndex), l.wordBits, word);
      WriteInt57(m, WordAt(l, insertIndex), l.wordBits, word);
      WeighedMore(m[..], l, weights);
      words, weights := words + [word], weights + [Zeros(l.quantBits)];
      ZeroLater(m[..], WeightsAt(l, insertIndex), NextAt(l, insertIndex));
    }

    /** Write the next pointer after the others. */
    method InsertNext(next: nat)
      requires bhiksha.Valid() && l.inlineBits == bhiksha.inlineBits <= 57
      requires insertIndex == |bhiksha.vals| <= entries && |bhiksha.vals| <= |words| <= |bhiksha.vals| + 1
      requires m.Length == 8 * BaseSize(entries, Total(l))
      requires Packed(m[..], l, words, bhiksha.vals) && ZeroFrom(m[..], NextAt(l, insertIndex))
      requires Weighed(m[..], l, weights) && |weights| <= insertIndex + 1
      requires next <= bhiksha.maxNext && (bhiksha.vals != [] ==> bhiksha.vals[|bhiksha.vals|-1] <= next)
      modifies m, bhiksha, bhiksha.offsets
      ensures bhiksha.Valid() && bhiksha.vals == old(bhiksha.vals) + [next]
      ensures Packed(m[..], l, words, bhiksha.vals) && ZeroFrom(m[..], NextAt(l, insertIndex) + l.inlineBits)
      ensures Weighed(m[..], l, weights)
    {
      hide Power, RequiredBits, High, Low, BaseSize, Table, Written, Field, Packed, NextAt, WordAt, ZeroFrom,
           Nondecreasing, Weighed;
      InMemory(l, entries, insertIndex);
      NextInMemory(l, entries, insertIndex);
      PackedNext(m[..], l, words, bhiksha.vals, next);
      WordApart(l, insertIndex);
      WeighedKept(m[..], l, weights, NextAt(l, insertIndex), l.inlineBits, Low(next, l.inlineBits));
      bhiksha.WriteNext(m, NextAt(l, insertIndex), insertIndex, next);
    }

    /** Write the end of the last entry's range. */
    method FinishedLoading(nextEnd: nat) returns (ok: bool)
      requires Loading() && nextEnd <= bhiksha.maxNext && (words != [] ==> bhiksha.vals[|words|-1] <= nextEnd)
      modifies m, bhiksha, bhiksha.offsets
      ensures Valid() && bhiksha.vals == old(bhiksha.vals) + [nextEnd]
      ensures nextEnd == bhiksha.maxNext ==> ok
      ensures ok ==> Finished()
    {
      hide Power, RequiredBits, High, Low, BaseSize, Table, Written, Field, Packed, WordAt, ZeroFrom, Weighed;
      ZeroLater(m[..], WordAt(l, insertIndex), NextAt(l, insertIndex));
      InsertNext(nextEnd);
      ok := bhiksha.FinishedLoading();
    }

    /** Look for a word among the entries from `begin` to before `end`; if it is there, give its entry's range. */
    method Find(word: nat, begin: nat, end: nat) returns (found: bool, pointer: nat, nextBegin: nat, nextEnd: nat)
      requires Finished() && StrictlySorted(words, begin, end) && word <= maxVocab
      ensures found <==> exists i :: begin <= i < end && words[i] == word
      ensures found ==> begin <= pointer < end && words[pointer] == word
      ensures found ==> nextBegin == bhiksha.vals[pointer] && nextEnd == bhiksha.vals[pointer+1]
    {
      hide Field, WordAt, BaseSize, ReadInt57, Power, RequiredBits, Packed, Mask, Low, High, Table;
      IndicesFit();
      Pivot32Inside();
      nextBegin, nextEnd := 0, 0;
      KeysAre(m[..], l, words, bhiksha.vals, entries);
      found, pointer := BoundedSortedUniformFind(KeyAt(m[..], l), Pivot32, Wrap(begin - 1), 0, end, maxVocab, word,
          words);
      if found {
        NextIs(m[..], l, words, bhiksha.vals, entries, pointer);
        nextBegin, nextEnd := bhiksha.ReadNext(m, NextAt(l, pointer), pointer, Total(l));
      }
    }
  }

  /** The last order: entries have no next pointers. */
  class BitPackedLongest {
    const m: array<bool>
    const l: Layout
    const entries: nat
    const maxVocab: nat
    var insertIndex: nat
    ghost var words: seq<nat>
    ghost var weights: seq<Bits>

    ghost predicate Valid()
      reads this, m
    {
      && l.inlineBits == 0 && l.wordBits == RequiredBits(maxVocab) && l.wordBits <= 57 && entries < TWO_TO_THE_64 - 1
      && m.Length == 8 * BaseSize(entries, Total(l))
      && insertIndex == |words| <= entries && (forall i :: 0 <= i < |words| ==> words[i] <= maxVocab)
      && Packed(m[..], l, words, [])
      && |weights| == |words| && Weighed(m[..], l, weights)
    }

    ghost predicate Loading()
      reads this, m
    {
      Valid() && ZeroFrom(m[..], WordAt(l, |words|))
    }

    constructor (quantBits: nat, entries: nat, maxVocab: nat)
      requires entries < TWO_TO_THE_64 - 1 && maxVocab < Power(57)
      ensures Loading() && words == [] && weights == [] && l.quantBits == quantBits
      ensures this.maxVocab == maxVocab && this.entries == entries && fresh(m)
    {
      hide Power, RequiredBits, BaseSize;
      FitsBits(maxVocab, 57);
      var layout := Layout(RequiredBits(maxVocab), quantBits, 0);
      l, this.entries, this.maxVocab := layout, entries, maxVocab;
      m := new bool[8 * BaseSize(entries, Total(layout))](_ => false);
      insertIndex, words, weights := 0, [], [];
    }

    /** Append an entry.  Its weights go at the bits returned. */
    method Insert(word: nat) returns (weightsAt: nat)
      requires Loading() && insertIndex < entries && word <= maxVocab
      modifies this, m
      ensures Loading() && words == old(words) + [word] && weights == old(weights) + [Zeros(l.quantBits)]
      ensures weightsAt == WeightsAt(l, old(insertIndex)) && weightsAt + l.quantBits <= m.Length
    {
      hide Power, RequiredBits, BaseSize, Written, Field, Packed, WordAt, ZeroFrom, Weighed;
      InMemory(l, entries, insertIndex);
      EntriesApart(l, insertIndex, insertIndex + 1);
      FitsBits(word, l.wordBits);
      FitsBits(maxVocab, l.wordBits);
      PackedWord(m[..], l, words, [], word);
      WordApart(l, insertIndex);
      WeighedKept(m[..], l, weights, WordAt(l, insertIndex), l.wordBits, word);
      WriteInt57(m, WordAt(l, insertIndex), l.wordBits, word);
      WeighedMore(m[..], l, weights);
      ZeroLater(m[..], WeightsAt(l, insertIndex), WordAt(l, insertIndex + 1));
      weightsAt := WeightsAt(l, insertIndex);
      words, weights := words + [word], weights + [Zeros(l.quantBits)];
      insertIndex := insertIndex + 1;
    }

    /** Write one of an entry's weights where insertion said. */
    method WriteWeight(i: nat, off: nat, length: nat, value: nat)
      requires Loading() && i < insertIndex && off + length <= l.quantBits && length <= 57 && value < Power(length)
      modifies this`weights, m
      ensures Loading() && weights == old(weights)[i := Written(old(weights)[i], off, length, value)]
    {
      hide Power, RequiredBits, BaseSize, Written, Field, Packed, WordAt, ZeroFrom, Weighed;
      WeightInMemory(l, entries, i, off);
      WeighedSize(m[..], l, weights, i);
      WeightsApart(m[..], l, words, [], i, off, length, value);
      WeightWritten(m[..], l, weights, i, off, length, value);
      WriteInt57(m, WeightsAt(l, i) + off, length, value);
      weights := weights[i := Written(weights[i], off, length, value)];
    }

    /** Read one of an entry's weights. */
    method ReadWeight(i: nat, off: nat, length: nat) returns (value: nat)
      requires Valid() && i < insertIndex && off + length <= l.quantBits && length <= 57
      ensures HasField(weights[i], off, length, value)
    {
      hide Power, RequiredBits, BaseSize, Field, Packed, WordAt, Weighed, ReadInt57;
      WeightInMemory(l, entries, i, off);
      WeighedSize(m[..], l, weights, i);
      ReadsField(m[..], WeightsAt(l, i) + off, length);
      value := ReadInt57(m[..], WeightsAt(l, i) + off, length, Mask(length));
      WeightField(m[..], l, weights, i, off, length);
    }

    /** Look for a word among the entries from `begin` to before `end`. */
    method Find(word: nat, begin: nat, end: nat) returns (found: bool, pointer: nat)
      requires Valid() && StrictlySorted(words, begin, end) && word <= maxVocab
      ensures found <==> exists i :: begin <= i < end && words[i] == word
      ensures found ==> begin <= pointer < end && words[pointer] == word
    {
      hide Field, WordAt, BaseSize, ReadInt57, RequiredBits, Packed, Mask;
      Pivot32Inside();
      KeysAre(m[..], l, words, [], entries);
      found, pointer := BoundedSortedUniformFind(KeyAt(m[..], l), Pivot32, Wrap(begin - 1), 0, end, maxVocab, word,
          words);
    }
  }

  lemma WeightInMemory(l: Layout, entries: nat, i: nat, off: nat)
    requires i < entries && off <= l.quantBits
    ensures Touches(8 * BaseSize(entries, Total(l)), WeightsAt(l, i) + off)
    ensures WeightsAt(l, i) + l.quantBits <= 8 * BaseSize(entries, Total(l))
  {
    InMemory(l, entries, i);
    hide BaseSize, Touches;
    BaseSizeSuffices(entries, Total(l), i, l.wordBits + off);
  }

  lemma WeighedSize(m: Bits, l: Layout, weights: seq<Bits>, i: nat)
    requires Weighed(m, l, weights) && i < |weights|
    ensures |weights[i]| == l.quantBits
  {}

  lemma WeightField(m: Bits, l: Layout, weights: seq<Bits>, i: nat, off: nat, length: nat)
    requires Weighed(m, l, weights) && i < |weights| && off + length <= l.quantBits
    requires WeightsAt(l, i) + l.quantBits <= |m|
    ensures HasField(weights[i], off, length, Field(m, WeightsAt(l, i) + off, length))
  {
    hide Value, WeightsAt;
    var at := WeightsAt(l, i);
    SliceOfSlice(m, at, l.quantBits, off, length);
  }

  lemma SliceOfSlice<T>(s: seq<T>, start: nat, size: nat, off: nat, length: nat)
    requires start + size <= |s| && off + length <= size
    ensures s[start..start+size][off..off+length] == s[start+off..start+off+length]
  {
    var inner, outer := s[start..start+size][off..off+length], s[start+off..start+off+length];
    forall i | 0 <= i < length ensures inner[i] == outer[i] {
      assert s[start..start+size][off+i] == s[start+off+i];
    }
  }

  lemma IndicesFit()
    ensures Power(57) < TWO_TO_THE_64
  {
    assert Power(8) == 256;
    PowerSum(8, 8);
    PowerSum(16, 16);
    PowerSum(32, 32);
    PowerGrows(57, 63);
    assert Power(64) == 2 * Power(63);
  }

  lemma KeyIs(m: Bits, l: Layout, words: seq<nat>, vals: seq<nat>, entries: nat, i: nat)
    requires Packed(m, l, words, vals) && i < |words| <= entries && l.wordBits <= 57
    requires |m| == 8 * BaseSize(entries, Total(l))
    ensures Touches(|m|, WordAt(l, i)) && ReadInt57(m, WordAt(l, i), l.wordBits, Mask(l.wordBits)) == words[i]
  {
    hide Field, WordAt, BaseSize, ReadInt57, Mask;
    InMemory(l, entries, i);
    assert HasField(m, WordAt(l, i), l.wordBits, words[i]);
    ReadsField(m, WordAt(l, i), l.wordBits);
  }

  lemma KeysAre(m: Bits, l: Layout, words: seq<nat>, vals: seq<nat>, entries: nat)
    requires Packed(m, l, words, vals) && |words| <= entries && l.wordBits <= 57 &&
      |m| == 8 * BaseSize(entries, Total(l))
    ensures forall i: nat :: i < |words| ==> KeyAt(m, l).requires(i) && KeyAt(m, l)(i) == words[i]
  {
    hide WordAt, BaseSize, ReadInt57, Mask, Packed;
    forall i: nat | i < |words| ensures KeyAt(m, l).requires(i) && KeyAt(m, l)(i) == words[i] {
      KeyIs(m, l, words, vals, entries, i);
    }
  }

  lemma NextIs(m: Bits, l: Layout, words: seq<nat>, vals: seq<nat>, entries: nat, i: nat)
    requires Packed(m, l, words, vals) && i + 1 < |vals| <= entries + 1
    requires |m| == 8 * BaseSize(entries, Total(l))
    ensures Touches(|m|, NextAt(l, i)) && Touches(|m|, NextAt(l, i) + Total(l))
    ensures HasField(m, NextAt(l, i), l.inlineBits, Low(vals[i], l.inlineBits))
    ensures HasField(m, NextAt(l, i) + Total(l), l.inlineBits, Low(vals[i+1], l.inlineBits))
  {
    hide Field, BaseSize, Low;
    InMemory(l, entries, i);
    InMemory(l, entries, i + 1);
    assert HasField(m, NextAt(l, i), l.inlineBits, Low(vals[i], l.inlineBits));
    assert HasField(m, NextAt(l, i + 1), l.inlineBits, Low(vals[i+1], l.inlineBits));
    assert NextAt(l, i + 1) == NextAt(l, i) + Total(l);
  }

  lemma ZeroLater(m: Bits, k: nat, k': nat)
    requires ZeroFrom(m, k) && k <= k'
    ensures ZeroFrom(m, k')
  {}

  /** All fields of an entry can be accessed. */
  lemma InMemory(l: Layout, entries: nat, i: nat)
    requires i <= entries
    ensures Touches(8 * BaseSize(entries, Total(l)), WordAt(l, i))
    ensures Touches(8 * BaseSize(entries, Total(l)), NextAt(l, i))
    ensures WordAt(l, i) + Total(l) <= 8 * BaseSize(entries, Total(l))
  {
    hide BaseSize, Touches, Total, WordAt, NextAt;
    Offsets(l, i);
    BaseSizeSuffices(entries, Total(l), i, 0);
    BaseSizeSuffices(entries, Total(l), i, l.wordBits + l.quantBits);
    BaseSizeSuffices(entries, Total(l), i, Total(l));
    TouchesBelow(8 * BaseSize(entries, Total(l)), i * Total(l) + Total(l));
  }

  lemma Offsets(l: Layout, i: nat)
    ensures WordAt(l, i) == i * Total(l) && NextAt(l, i) == i * Total(l) + (l.wordBits + l.quantBits)
    ensures l.wordBits + l.quantBits <= Total(l)
  {}

  lemma NextInMemory(l: Layout, entries: nat, i: nat)
    requires i <= entries
    ensures NextAt(l, i) + l.inlineBits <= 8 * BaseSize(entries, Total(l))
  {
    hide WordAt, BaseSize;
    InMemory(l, entries, i);
  }
}
