/**
 The trie in memory: each order packed into bits, and looking n-grams up in these.
 */
module PackedTrie {
  import opened BitPacking
  import opened Bhiksha
  import opened PackedMiddle
  import opened SortedUniform
  import opened Trie
  import opened TrieMerge

  // Without quantization: a log probability without its sign, then a backoff; the last order has no backoffs.
  const PROB_BITS := 31
  const BACKOFF_BITS := 32
  const MIDDLE_BITS := 63

  /** What can be encoded in these. */
  ghost predicate Encodable(weigh: Gram -> EntryWeights) {
    forall g :: weigh(g).prob < Power(PROB_BITS) && weigh(g).backoff < Power(BACKOFF_BITS)
  }

  ghost predicate LevelEncodable(weights: seq<EntryWeights>) {
    forall j :: 0 <= j < |weights| ==> weights[j].prob < Power(PROB_BITS) && weights[j].backoff < Power(BACKOFF_BITS)
  }

  ghost predicate HoldsBoth(bits: Bits, w: EntryWeights) {
    HasField(bits, 0, PROB_BITS, w.prob) && HasField(bits, PROB_BITS, BACKOFF_BITS, w.backoff)
  }

  lemma BothWritten(w: EntryWeights)
    requires w.prob < Power(PROB_BITS) && w.backoff < Power(BACKOFF_BITS)
    ensures HoldsBoth(Written(Written(Zeros(MIDDLE_BITS), 0, PROB_BITS, w.prob), PROB_BITS, BACKOFF_BITS, w.backoff), w)
  {
    hide ToBits, Field, Power;
    var none := Zeros(MIDDLE_BITS);
    var first := Written(none, 0, PROB_BITS, w.prob);
    assert none[0..PROB_BITS] == Zeros(PROB_BITS);
    WrittenHere(none, 0, PROB_BITS, w.prob);
    assert first[PROB_BITS..PROB_BITS+BACKOFF_BITS] == Zeros(BACKOFF_BITS);
    WrittenHere(first, PROB_BITS, BACKOFF_BITS, w.backoff);
    FieldKept(first, PROB_BITS, BACKOFF_BITS, w.backoff, 0, PROB_BITS);
  }

  lemma ProbWritten(w: EntryWeights)
    requires w.prob < Power(PROB_BITS)
    ensures HasField(Written(Zeros(PROB_BITS), 0, PROB_BITS, w.prob), 0, PROB_BITS, w.prob)
  {
    hide ToBits, Field, Power;
    assert Zeros(PROB_BITS)[0..PROB_BITS] == Zeros(PROB_BITS);
    WrittenHere(Zeros(PROB_BITS), 0, PROB_BITS, w.prob);
  }

  /** The memory of one middle order holds the arrays. */
  ghost predicate HoldsMiddle(b: BitPackedMiddle, words: seq<nat>, next: seq<nat>, weights: seq<EntryWeights>,
                              maxVocab: nat)
    reads b, b.m, b.bhiksha, b.bhiksha.offsets
  {
    && b.Finished() && b.words == words && b.bhiksha.vals == next && b.maxVocab == maxVocab
    && b.l.quantBits == MIDDLE_BITS && EntriesHold(b.weights, weights)
  }

  ghost predicate EntriesHold(bits: seq<Bits>, weights: seq<EntryWeights>) {
    |bits| == |weights| && forall j :: 0 <= j < |weights| ==> HoldsBoth(bits[j], weights[j])
  }

  lemma NoneHold()
    ensures EntriesHold([], [])
  {}

  /** Pack one middle order. */
  method PackMiddle(words: seq<nat>, next: seq<nat>, weights: seq<EntryWeights>, maxVocab: nat, maxNext: nat,
                    configured: nat)
    returns (b: BitPackedMiddle)
    requires |next| == |words| + 1 && NextsBelow(next, maxNext) && next[|words|] == maxNext
    requires |weights| == |words| && LevelEncodable(weights)
    requires |words| + 1 < Power(57) && maxNext < Power(57) && maxVocab < Power(57)
    requires forall j :: 0 <= j < |words| ==> words[j] <= maxVocab
    ensures HoldsMiddle(b, words, next, weights, maxVocab)
    ensures fresh(b) && fresh(b.m) && fresh(b.bhiksha) && fresh(b.bhiksha.offsets)
  {
    hide Power, RequiredBits, High, Low, BaseSize, Table, Packed, WordAt, ZeroFrom, Nondecreasing, Weighed, HoldsBoth,
         Written, EntriesHold;
    b := new BitPackedMiddle(MIDDLE_BITS, |words|, maxVocab, maxNext, configured);
    NoneHold();
    for j := 0 to |words|
      invariant b.Loading() && b.words == words[..j] && b.bhiksha.vals == next[..j] && b.insertIndex == j
      invariant b.entries == |words| && b.maxVocab == maxVocab && b.bhiksha.maxNext == maxNext
      invariant b.l.quantBits == MIDDLE_BITS && |b.weights| == j
      invariant EntriesHold(b.weights, weights[..j])
      invariant fresh(b) && fresh(b.m) && fresh(b.bhiksha) && fresh(b.bhiksha.offsets)
    {
      LoadingSize(b);
      PackEntry(b, words[j], next[j], weights[j], weights[..j]);
      TakeMore(weights, j);
      TakeMore(words, j);
      TakeMore(next, j);
    }
    TakeMore(next, |words|);
    TakeAll(words);
    TakeAll(next);
    TakeAll(weights);
    LoadingSize(b);
    var ok := b.FinishedLoading(next[|words|]);
  }

  lemma TakeMore<T>(s: seq<T>, j: nat)
    requires j < |s|
    ensures s[..j+1] == s[..j] + [s[j]]
  {}

  lemma TakeAll<T>(s: seq<T>)
    ensures s[..|s|] == s
  {}

  /** Append an entry and write its weights. */
  method PackEntry(b: BitPackedMiddle, word: nat, next: nat, w: EntryWeights, ghost before: seq<EntryWeights>)
    requires EntriesHold(b.weights, before)
    requires b.Loading() && b.insertIndex < b.entries && word <= b.maxVocab && b.l.quantBits == MIDDLE_BITS
    requires next <= b.bhiksha.maxNext && (b.words != [] ==> b.bhiksha.vals[|b.words|-1] <= next)
    requires w.prob < Power(PROB_BITS) && w.backoff < Power(BACKOFF_BITS)
    modifies b, b.m, b.bhiksha, b.bhiksha.offsets
    ensures b.Loading() && b.words == old(b.words) + [word] && b.bhiksha.vals == old(b.bhiksha.vals) + [next]
    ensures EntriesHold(b.weights, before + [w])
  {
    hide Power, RequiredBits, High, Low, BaseSize, Table, Packed, WordAt, ZeroFrom, Nondecreasing, Weighed, HoldsBoth,
         Written;
    LoadingSize(b);
    var i := b.insertIndex;
    var weightsAt := b.Insert(word, next);
    LoadingSize(b);
    b.WriteWeight(i, 0, PROB_BITS, w.prob);
    b.WriteWeight(i, PROB_BITS, BACKOFF_BITS, w.backoff);
    BothWritten(w);
  }

  lemma LoadingSize(b: BitPackedMiddle)
    requires b.Loading()
    ensures |b.bhiksha.vals| == |b.words| == b.insertIndex == |b.weights|
  {}

  /** The memory of the last order holds the arrays. */
  ghost predicate HoldsLongest(b: BitPackedLongest, words: seq<nat>, weights: seq<EntryWeights>, maxVocab: nat)
    reads b, b.m
  {
    && b.Valid() && b.words == words && b.maxVocab == maxVocab
    && b.l.quantBits == PROB_BITS && |weights| == |words|
    && forall j :: 0 <= j < |weights| ==> HasField(b.weights[j], 0, PROB_BITS, weights[j].prob)
  }

  /** Pack the last order. */
  method PackLongest(words: seq<nat>, weights: seq<EntryWeights>, maxVocab: nat) returns (b: BitPackedLongest)
    requires |words| < TWO_TO_THE_64 - 1 && maxVocab < Power(57)
    requires |weights| == |words| && LevelEncodable(weights)
    requires forall j :: 0 <= j < |words| ==> words[j] <= maxVocab
    ensures HoldsLongest(b, words, weights, maxVocab) && fresh(b) && fresh(b.m)
  {
    hide Power, RequiredBits, BaseSize, Packed, WordAt, ZeroFrom, Weighed, HasField, Written;
    b := new BitPackedLongest(PROB_BITS, |words|, maxVocab);
    for j := 0 to |words|
      invariant b.Loading() && b.words == words[..j] && b.insertIndex == j == |b.weights|
      invariant b.l.quantBits == PROB_BITS
      invariant forall i :: 0 <= i < j ==> HasField(b.weights[i], 0, PROB_BITS, weights[i].prob)
      invariant b.entries == |words| && b.maxVocab == maxVocab && fresh(b) && fresh(b.m)
    {
      var weightsAt := b.Insert(words[j]);
      b.WriteWeight(j, 0, PROB_BITS, weights[j].prob);
      ProbWritten(weights[j]);
      TakeMore(words, j);
    }
    TakeAll(words);
  }

  /** All that the middle orders consist of. */
  ghost function Parts(middle: seq<BitPackedMiddle>): (parts: set<object>) {
    (set i | 0 <= i < |middle| :: middle[i] as object) + (set i | 0 <= i < |middle| :: middle[i].m as object) +
    (set i | 0 <= i < |middle| :: middle[i].bhiksha as object) +
    (set i | 0 <= i < |middle| :: middle[i].bhiksha.offsets as object)
  }

  class TrieSearch {
    const order: nat
    const maxVocab: nat
    // Where the unigrams' extensions start and end; the unigrams are at their own indices.
    const unigram: seq<nat>
    const unigramWeights: seq<EntryWeights>
    const middle: seq<BitPackedMiddle>
    const longest: BitPackedLongest
    ghost const words: seq<seq<nat>>
    ghost const nexts: seq<seq<nat>>
    ghost const weights: seq<seq<EntryWeights>>
    ghost const grams: seq<seq<Gram>>

    /** The memory of every order holds its array. */
    ghost predicate Valid()
      reads Parts(middle), longest, longest.m
    {
      && Complete(order, words, nexts, grams) && |weights| == order
      && unigram == nexts[0] && unigramWeights == weights[0] && |middle| == order - 2
      && (forall k :: 0 <= k < |middle| ==> HoldsMiddle(middle[k], words[k+1], nexts[k+1], weights[k+1], maxVocab))
      && HoldsLongest(longest, words[order-1], weights[order-1], maxVocab)
    }

    constructor (t: TrieArrays, middle: seq<BitPackedMiddle>, longest: BitPackedLongest)
      requires t.Valid() && |middle| == t.order - 2
      requires forall k :: 0 <= k < |middle| ==>
        HoldsMiddle(middle[k], t.words[k+1], t.nexts[k+1], t.weights[k+1], t.maxVocab)
      requires HoldsLongest(longest, t.words[t.order-1], t.weights[t.order-1], t.maxVocab)
      ensures Valid() && order == t.order && maxVocab == t.maxVocab && grams == t.grams && weights == t.weights
      ensures |unigram| == |t.words[0]| + 1
    {
      order, maxVocab, unigram, unigramWeights := t.order, t.maxVocab, t.nexts[0], t.weights[0];
      this.middle, this.longest := middle, longest;
      words, nexts, weights, grams := t.words, t.nexts, t.weights, t.grams;
      new;
      UnigramSize(order, words, nexts, grams);
    }

    /** The entry of a unigram is at its own index. */
    method LookupUnigram(word: nat, ghost weigh: Gram -> EntryWeights)
      returns (w: EntryWeights, begin: nat, end: nat, independentLeft: bool)
      requires Valid() && word + 1 < |unigram| && Carries(weigh, grams, weights)
      ensures w == weigh([word])
      ensures InLevel(grams, [word]) && NodeOf(grams, nexts, [word], begin, end)
      ensures independentLeft <==> forall w :: !InLevel(grams, [word] + [w])
    {
      hide NodeOf, InLevel, Closed, Counted;
      UnigramSize(order, words, nexts, grams);
      UnigramAt(order, words, nexts, grams, word);
      begin, end := unigram[word], unigram[word+1];
      UnigramWeight(order, words, nexts, grams, weigh, weights, word);
      w := unigramWeights[word];
      independentLeft := begin == end;
      ExtensionAt(order, words, nexts, grams, [word], begin, end, 0);
      NodeExact(order, words, nexts, grams, [word], begin, end);
    }

    /** From the node of `g`, which has `orderMinus2 + 1` words, look for its extension by `word`. */
    method LookupMiddle(orderMinus2: nat, word: nat, begin: nat, end: nat, ghost g: Gram,
                        ghost weigh: Gram -> EntryWeights)
      returns (found: bool, w: EntryWeights, pointer: nat, nextBegin: nat, nextEnd: nat, independentLeft: bool)
      requires Carries(weigh, grams, weights)
      requires Valid() && NodeOf(grams, nexts, g, begin, end) && orderMinus2 + 1 == |g| < order - 1 && word <= maxVocab
      ensures found <==> InLevel(grams, g + [word])
      ensures found ==> NodeOf(grams, nexts, g + [word], nextBegin, nextEnd)
      ensures found ==> pointer < |grams[|g|]| && grams[|g|][pointer] == g + [word] && w == weigh(g + [word])
      ensures independentLeft <==> !found || forall w :: !InLevel(grams, g + [word] + [w])
    {
      hide NodeOf, InLevel, Closed, Counted, LevelIs, LevelCarries, HoldsBoth;
      var k := orderMinus2 + 1;
      ExtensionAt(order, words, nexts, grams, g, begin, end, word);
      NodeExact(order, words, nexts, grams, g, begin, end);
      assert HoldsMiddle(middle[k-1], words[k-1+1], nexts[k-1+1], weights[k-1+1], maxVocab);
      found, pointer, nextBegin, nextEnd := middle[orderMinus2].Find(word, begin, end);
      w, independentLeft := EntryWeights(0, 0), true;
      if found {
        w := ReadMiddle(middle[orderMinus2], pointer, weights[k][pointer]);
        LevelWeight(weigh, grams, weights, k, pointer);
        NodeAt(order, words, nexts, grams, k, pointer);
        independentLeft := nextBegin == nextEnd;
        ExtensionAt(order, words, nexts, grams, g + [word], nextBegin, nextEnd, 0);
        NodeExact(order, words, nexts, grams, g + [word], nextBegin, nextEnd);
      }
    }

    method LookupLongest(word: nat, begin: nat, end: nat, ghost g: Gram, ghost weigh: Gram -> EntryWeights)
      returns (found: bool, prob: nat)
      requires Carries(weigh, grams, weights)
      requires Valid() && NodeOf(grams, nexts, g, begin, end) && |g| == order - 1 && word <= maxVocab
      ensures found <==> InLevel(grams, g + [word])
      ensures found ==> prob == weigh(g + [word]).prob
    {
      hide NodeOf, InLevel, Closed, Counted, LevelIs, LevelCarries;
      ExtensionAt(order, words, nexts, grams, g, begin, end, word);
      NodeExact(order, words, nexts, grams, g, begin, end);
      var pointer;
      found, pointer := longest.Find(word, begin, end);
      prob := 0;
      if found {
        prob := longest.ReadWeight(pointer, 0, PROB_BITS);
        assert HasField(longest.weights[pointer], 0, PROB_BITS, weights[order-1][pointer].prob);
        LevelWeight(weigh, grams, weights, order - 1, pointer);
      }
    }

    /** Walk from the unigram to the node of a context. */
    method FastMakeNode(context: Gram, ghost weigh: Gram -> EntryWeights) returns (ok: bool, begin: nat, end: nat)
      requires Carries(weigh, grams, weights)
      requires Valid() && 1 <= |context| < order && context[0] + 1 < |unigram|
      requires forall i :: 0 <= i < |context| ==> context[i] <= maxVocab
      ensures ok <==> InLevel(grams, context)
      ensures ok ==> NodeOf(grams, nexts, context, begin, end)
    {
      hide NodeOf, InLevel, Complete, Carries;
      assert context[..1] == [context[0]];
      var w, independentLeft;
      w, begin, end, independentLeft := LookupUnigram(context[0], weigh);
      var i := 1;
      while i < |context|
        invariant 1 <= i <= |context| && InLevel(grams, context[..i])
        invariant NodeOf(grams, nexts, context[..i], begin, end)
        invariant independentLeft ==> forall w :: !InLevel(grams, context[..i] + [w])
      {
        LevelPrefix(order, words, nexts, grams, context, i + 1);
        assert context[..i+1] == context[..i] + [context[i]];
        if independentLeft { return false, begin, end; }
        var found, pointer;
        found, w, pointer, begin, end, independentLeft :=
          LookupMiddle(i - 1, context[i], begin, end, context[..i], weigh);
        if !found { return false, begin, end; }
        i := i + 1;
      }
      assert context[..i] == context;
      ok := true;
    }

    /** Look up a whole n-gram: it has the weights that were written for it.  The longest have no backoff. */
    method Lookup(g: Gram, ghost weigh: Gram -> EntryWeights) returns (found: bool, w: EntryWeights)
      requires Valid() && Carries(weigh, grams, weights) && 1 <= |g| <= order && g[0] + 1 < |unigram|
      requires forall i :: 0 <= i < |g| ==> g[i] <= maxVocab
      ensures found <==> InLevel(grams, g)
      ensures found ==> w == if |g| < order then weigh(g) else EntryWeights(weigh(g).prob, 0)
    {
      assert order >= 2;
      hide NodeOf, InLevel, Complete, Carries;
      w := EntryWeights(0, 0);
      var begin, end, independentLeft;
      if |g| == 1 {
        assert g == [g[0]];
        w, begin, end, independentLeft := LookupUnigram(g[0], weigh);
        return true, w;
      }
      var context, last := g[..|g|-1], g[|g|-1];
      LevelPrefix(order, words, nexts, grams, g, |g| - 1);
      assert g == context + [last];
      found, begin, end := FastMakeNode(context, weigh);
      if !found { return; }
      if |g| < order {
        var pointer, nextBegin, nextEnd;
        found, w, pointer, nextBegin, nextEnd, independentLeft :=
          LookupMiddle(|g| - 2, last, begin, end, context, weigh);
      } else {
        var prob;
        found, prob := LookupLongest(last, begin, end, context, weigh);
        w := EntryWeights(prob, 0);
      }
    }
  }

  /** Read the weights of an entry. */
  method ReadMiddle(b: BitPackedMiddle, i: nat, ghost w: EntryWeights) returns (r: EntryWeights)
    requires b.Finished() && i < |b.words| && b.l.quantBits == MIDDLE_BITS && HoldsBoth(b.weights[i], w)
    ensures r == w
  {
    hide Field, Power, RequiredBits, High, Low, BaseSize, Table, Packed, WordAt, Nondecreasing, Weighed;
    var prob := b.ReadWeight(i, 0, PROB_BITS);
    var backoff := b.ReadWeight(i, PROB_BITS, BACKOFF_BITS);
    r := EntryWeights(prob, backoff);
  }

  lemma LevelWeight(weigh: Gram -> EntryWeights, grams: seq<seq<Gram>>, weights: seq<seq<EntryWeights>>, k: nat, j: nat)
    requires Carries(weigh, grams, weights) && k < |grams| && j < |grams[k]|
    ensures |weights[k]| == |grams[k]| && weights[k][j] == weigh(grams[k][j])
  {
    assert LevelCarries(weigh, grams[k], weights[k]);
  }

  lemma UnigramWeight(order: nat, words: seq<seq<nat>>, nexts: seq<seq<nat>>, grams: seq<seq<Gram>>,
                      weigh: Gram -> EntryWeights, weights: seq<seq<EntryWeights>>, word: nat)
    requires Complete(order, words, nexts, grams) && Carries(weigh, grams, weights) && word < |words[0]|
    ensures word < |weights[0]| && weights[0][word] == weigh([word])
  {
    hide Closed, LevelCarries;
    assert LevelIs(words[0], grams[0], 0);
    LevelWeight(weigh, grams, weights, 0, word);
  }

  lemma UnigramSize(order: nat, words: seq<seq<nat>>, nexts: seq<seq<nat>>, grams: seq<seq<Gram>>)
    requires Complete(order, words, nexts, grams)
    ensures |nexts[0]| == |words[0]| + 1
  {
    hide Closed;
    assert LevelIs(words[0], grams[0], 0) && Closed(grams[0], nexts[0], grams[1]);
    ClosedSize(grams[0], nexts[0], grams[1]);
  }

  lemma ClosedSize(level: seq<Gram>, next: seq<nat>, children: seq<Gram>)
    requires Closed(level, next, children)
    ensures |next| == |level| + 1 && NextsBelow(next, |children|) && next[|level|] == |children|
  {}

  /** What 57 bits can count: the program throws for anything else. */
  predicate Packable(words: seq<seq<nat>>, maxVocab: nat) {
    maxVocab < Power(57) && forall k: nat :: 1 <= k < |words| - 1 ==> MiddleFits(|words[k]|, |words[k+1]|)
  }

  predicate MiddleFits(entries: nat, extensions: nat): (fits: bool)
    ensures fits <==> entries < 0x1FF_FFFF_FFFF_FFFF && extensions < 0x200_0000_0000_0000
  {
    Power57();
    entries + 1 < Power(57) && extensions < Power(57)
  }

  lemma Power57()
    ensures Power(57) == 0x200_0000_0000_0000
  {
    assert Power(8) == 0x100;
    PowerSum(8, 8);
    PowerSum(16, 16);
    PowerSum(32, 16);
    PowerSum(48, 8);
    assert Power(57) == 2 * Power(56);
  }

  /** The same of the input. */
  ghost predicate CountsFit(streams: seq<seq<Record>>, maxVocab: nat) {
    && maxVocab < Power(57)
    && Indexable(streams)
    && (forall n: nat :: 2 <= n < |streams| ==> MiddleFits(|Prefixes(streams, n)|, |Prefixes(streams, n + 1)|))
  }

  /** Pack all orders of finished arrays. */
  method Pack(t: TrieArrays, configured: nat, ghost weigh: Gram -> EntryWeights) returns (search: TrieSearch)
    requires t.Valid() && Packable(t.words, t.maxVocab) && Carries(weigh, t.grams, t.weights) && Encodable(weigh)
    ensures search.Valid() && search.order == t.order && search.maxVocab == t.maxVocab
    ensures search.grams == t.grams && search.weights == t.weights && |search.unigram| == |t.words[0]| + 1
  {
    hide Power, Closed, LevelIs, HoldsMiddle, MiddleFits, HoldsLongest, Carries, Encodable, LevelEncodable;
    var middle: seq<BitPackedMiddle> := [];
    for k := 1 to t.order - 1
      invariant |middle| == k - 1
      invariant forall i :: 0 <= i < |middle| ==>
        HoldsMiddle(middle[i], t.words[i+1], t.nexts[i+1], t.weights[i+1], t.maxVocab)
    {
      MiddleSizes(t, k);
      WeightsFit(t, weigh, k);
      var b := PackMiddle(t.words[k], t.nexts[k], t.weights[k], t.maxVocab, |t.words[k+1]|, configured);
      middle := middle + [b];
    }
    WeightsFit(t, weigh, t.order - 1);
    var longest := PackLongest(t.words[t.order-1], t.weights[t.order-1], t.maxVocab);
    search := new TrieSearch(t, middle, longest);
  }

  lemma WeightsFit(t: TrieArrays, weigh: Gram -> EntryWeights, k: nat)
    requires t.Valid() && Carries(weigh, t.grams, t.weights) && Encodable(weigh) && k < t.order
    ensures |t.weights[k]| == |t.words[k]| && LevelEncodable(t.weights[k])
  {
    hide Power, Closed, LevelCarries;
    assert LevelIs(t.words[k], t.grams[k], k) && LevelCarries(weigh, t.grams[k], t.weights[k]);
    CarriedSize(weigh, t.grams[k], t.weights[k]);
    forall j | 0 <= j < |t.weights[k]| ensures t.weights[k][j] == weigh(t.grams[k][j]) {
      LevelWeight(weigh, t.grams, t.weights, k, j);
    }
  }

  lemma CarriedSize(weigh: Gram -> EntryWeights, level: seq<Gram>, weights: seq<EntryWeights>)
    requires LevelCarries(weigh, level, weights)
    ensures |weights| == |level|
  {}

  lemma MiddleSizes(t: TrieArrays, k: nat)
    requires t.Valid() && 1 <= k < t.order - 1 && MiddleFits(|t.words[k]|, |t.words[k+1]|)
    ensures |t.words[k]| + 1 < Power(57) && |t.words[k+1]| < Power(57)
    ensures |t.nexts[k]| == |t.words[k]| + 1 && NextsBelow(t.nexts[k], |t.words[k+1]|)
    ensures t.nexts[k][|t.words[k]|] == |t.words[k+1]|
  {
    hide Closed;
    assert LevelIs(t.words[k], t.grams[k], k) && LevelIs(t.words[k+1], t.grams[k+1], k + 1);
    ClosedSize(t.grams[k], t.nexts[k], t.grams[k+1]);
  }

  /** Merge the sorted streams, write the trie and pack it.  It succeeds exactly if no n-gram starts with an unknown
      word and everything can be counted; then every n-gram and every prefix of one can be looked up, and nothing
      else can. */
  method Load(streams: seq<seq<Record>>, weigh: Gram -> EntryWeights, maxVocab: nat, configured: nat)
    returns (ok: bool, search: TrieSearch?, ghost seen: map<Gram, real>)
    requires SortedStreams(streams) && |streams| >= 2 && WordsWithin(streams, maxVocab) && |streams[0]| <= maxVocab
    requires Encodable(weigh)
    ensures ok <==> AllKnown(streams) && CountsFit(streams, maxVocab)
    ensures ok ==> search != null && search.Valid() && search.order == |streams| && search.maxVocab == maxVocab
    ensures ok ==> |search.unigram| == |streams[0]| + 1 && Read(streams, Ends(streams), seen)
    ensures ok ==> Carries(weigh, search.grams, search.weights)
    ensures ok ==> forall g :: InLevel(search.grams, g) <==> g != [] && IsPrefix(g, seen)
  {
    hide Carries, Encodable, Read, IsPrefix, InLevel, SortedStreams, WordsWithin, AllKnown, Complete, MiddleFits,
         Prefixes, Packable, CountsFit;
    search := null;
    var t;
    ok, t, seen := BuildTrie(streams, weigh, maxVocab);
    if ok {
      ArraysSize(t);
      SameCounts(streams, maxVocab, t.words);
      ok := Packable(t.words, maxVocab);
      if ok { search := Pack(t, configured, weigh); }
    } else {
      NotCounted(streams, maxVocab);
    }
  }

  lemma ArraysSize(t: TrieArrays)
    requires t.Valid()
    ensures |t.words| == t.order
  {}

  lemma SameCounts(streams: seq<seq<Record>>, maxVocab: nat, words: seq<seq<nat>>)
    requires |words| == |streams| && forall k: nat :: k < |words| ==> |words[k]| == |Prefixes(streams, k + 1)|
    requires Indexable(streams)
    ensures Packable(words, maxVocab) <==> CountsFit(streams, maxVocab)
  {
    hide Prefixes, Power, MiddleFits;
    if CountsFit(streams, maxVocab) {
      forall k: nat | 1 <= k < |words| - 1 ensures MiddleFits(|words[k]|, |words[k+1]|) {
        assert MiddleFits(|Prefixes(streams, k + 1)|, |Prefixes(streams, k + 1 + 1)|);
      }
    }
    if Packable(words, maxVocab) {
      forall n: nat | 2 <= n < |streams| ensures MiddleFits(|Prefixes(streams, n)|, |Prefixes(streams, n + 1)|) {
        assert MiddleFits(|words[n-1]|, |words[n-1+1]|);
        assert |words[n-1]| == |Prefixes(streams, n - 1 + 1)| && |words[n]| == |Prefixes(streams, n + 1)|;
      }
    }
  }

  lemma NotCounted(streams: seq<seq<Record>>, maxVocab: nat)
    ensures CountsFit(streams, maxVocab) ==> Indexable(streams)
  {}
}
