/**
 Writing the merged stream into one array per order, and why n-grams can be looked up there.

 An entry of one order points at its extensions in the next; only the start is stored, as the size of the next
 order's array when the entry was written.  `PackedTrie` packs the arrays into bits and looks n-grams up in these.
 */
module Trie {
  import opened TrieMerge
  import opened SortedUniform
  import FiniteSets

  // ----- the arrays while writing

  ghost predicate SortedLevel(level: seq<Gram>, length: nat) {
    && (forall j :: 0 <= j < |level| ==> |level[j]| == length)
    && (forall i, j :: 0 <= i < j < |level| ==> LexLess(level[i], level[j]))
  }

  ghost predicate NextsBelow(next: seq<nat>, size: nat) {
    && (forall i, j :: 0 <= i <= j < |next| ==> next[i] <= next[j])
    && (forall j :: 0 <= j < |next| ==> next[j] <= size)
  }

  /** Entry `m` of the next order extends the entry whose range it is in; the last range is still open. */
  ghost predicate InRangeOf(level: seq<Gram>, next: seq<nat>, child: Gram, m: nat, j: nat)
    requires |next| >= |level|
  {
    j < |level| && Prefix(level[j], child) && next[j] <= m && (j + 1 < |next| ==> m < next[j+1])
  }

  ghost predicate HasParent(level: seq<Gram>, next: seq<nat>, child: Gram, m: nat)
    requires |next| >= |level|
  {
    exists j: nat :: InRangeOf(level, next, child, m, j)
  }

  ghost predicate Parents(level: seq<Gram>, next: seq<nat>, children: seq<Gram>)
    requires |next| >= |level|
  {
    forall m :: 0 <= m < |children| ==> HasParent(level, next, children[m], m)
  }

  /** One order and its pointers into the next. */
  ghost predicate Linked(level: seq<Gram>, next: seq<nat>, children: seq<Gram>) {
    |next| == |level| && NextsBelow(next, |children|) && Parents(level, next, children)
  }

  lemma AppendParent(level: seq<Gram>, next: seq<nat>, children: seq<Gram>, g: Gram)
    requires Linked(level, next, children)
    ensures Linked(level + [g], next + [|children|], children)
  {
    forall m | 0 <= m < |children| ensures HasParent(level + [g], next + [|children|], children[m], m) {
      var j: nat :| InRangeOf(level, next, children[m], m, j);
      assert InRangeOf(level + [g], next + [|children|], children[m], m, j);
    }
  }

  lemma AppendChild(level: seq<Gram>, next: seq<nat>, children: seq<Gram>, g: Gram)
    requires Linked(level, next, children) && level != [] && Prefix(level[|level|-1], g)
    ensures Linked(level, next, children + [g])
  {
    assert InRangeOf(level, next, g, |children|, |level| - 1);
    assert HasParent(level, next, g, |children|);
    assert forall m :: 0 <= m < |children| ==> (children + [g])[m] == children[m];
  }

  // ----- the arrays once finished

  /** The ranges have ends. */
  ghost predicate Closed(level: seq<Gram>, next: seq<nat>, children: seq<Gram>) {
    && |next| == |level| + 1 && NextsBelow(next, |children|) && next[|level|] == |children|
    && Parents(level, next, children)
  }

  lemma Close(level: seq<Gram>, next: seq<nat>, children: seq<Gram>)
    requires Linked(level, next, children)
    ensures Closed(level, next + [|children|], children)
  {
    forall m | 0 <= m < |children| ensures HasParent(level, next + [|children|], children[m], m) {
      var j: nat :| InRangeOf(level, next, children[m], m, j);
      assert InRangeOf(level, next + [|children|], children[m], m, j);
    }
  }

  /** An entry's range holds exactly the n-grams that extend it. */
  lemma RangeExact(level: seq<Gram>, next: seq<nat>, children: seq<Gram>, length: nat, j: nat, m: nat)
    requires Closed(level, next, children) && SortedLevel(level, length) && j < |level| && m < |children|
    ensures next[j] <= m < next[j+1] <==> Prefix(level[j], children[m])
  {
    hide LexLess;
    assert HasParent(level, next, children[m], m);
    var i: nat :| InRangeOf(level, next, children[m], m, i);
    if i < j {
      assert next[i+1] <= next[j];
      Different(level, length, i, j);
    } else if j < i {
      assert next[j+1] <= next[i];
      Different(level, length, j, i);
    }
  }

  lemma Different(level: seq<Gram>, length: nat, i: nat, j: nat)
    requires SortedLevel(level, length) && i < j < |level|
    ensures forall g :: Prefix(level[i], g) ==> !Prefix(level[j], g)
  {
    hide LexLess;
    LexTotal(level[i], level[j]);
  }

  /** The extensions of an entry are in increasing order of their last word. */
  lemma WordsSorted(level: seq<Gram>, length: nat, p: Gram, begin: nat, end: nat)
    requires SortedLevel(level, length) && |p| + 1 == length && begin <= end <= |level|
    requires forall m :: begin <= m < end ==> Prefix(p, level[m])
    ensures forall a, b :: begin <= a < b < end ==> level[a][|p|] < level[b][|p|]
  {
    forall a, b | begin <= a < b < end ensures level[a][|p|] < level[b][|p|] {
      assert LexLess(level[a], level[b]);
      LexAt(level[a], level[b]);
      CommonPrefix(p, level[a], level[b]);
    }
  }

  // ----- all the orders

  ghost predicate LevelIs(words: seq<nat>, level: seq<Gram>, k: nat) {
    && SortedLevel(level, k + 1) && |words| == |level|
    && forall j :: 0 <= j < |level| ==> words[j] == level[j][k]
  }

  ghost predicate Counted(unigrams: seq<Gram>) {
    forall u :: 0 <= u < |unigrams| ==> unigrams[u] == [u]
  }

  /** While writing: `grams` has the n-grams of each order that the entries stand for. */
  ghost predicate Writing(order: nat, words: seq<seq<nat>>, nexts: seq<seq<nat>>, grams: seq<seq<Gram>>) {
    && order >= 2 && |words| == |grams| == order && |nexts| == order - 1 && Counted(grams[0])
    && (forall k :: 0 <= k < order ==> LevelIs(words[k], grams[k], k))
    && (forall k :: 0 <= k < order - 1 ==> Linked(grams[k], nexts[k], grams[k+1]))
  }

  ghost predicate Complete(order: nat, words: seq<seq<nat>>, nexts: seq<seq<nat>>, grams: seq<seq<Gram>>) {
    && order >= 2 && |words| == |grams| == order && |nexts| == order - 1 && Counted(grams[0])
    && (forall k :: 0 <= k < order ==> LevelIs(words[k], grams[k], k))
    && (forall k :: 0 <= k < order - 1 ==> Closed(grams[k], nexts[k], grams[k+1]))
  }

  /** The next n-gram of an order comes after the others and extends the last one of the order before. */
  ghost predicate Follows(grams: seq<seq<Gram>>, g: Gram) {
    && 1 <= |g| <= |grams|
    && (|g| == 1 ==> g == [|grams[0]|])
    && (grams[|g|-1] != [] ==> LexLess(grams[|g|-1][|grams[|g|-1]|-1], g))
    && (|g| > 1 ==> grams[|g|-2] != [] && Prefix(grams[|g|-2][|grams[|g|-2]|-1], g))
  }

  lemma AppendLevel(words: seq<nat>, level: seq<Gram>, k: nat, g: Gram)
    requires LevelIs(words, level, k) && |g| == k + 1 && (level != [] ==> LexLess(level[|level|-1], g))
    ensures LevelIs(words + [g[k]], level + [g], k)
  {
    hide LexLess;
    forall i | 0 <= i < |level| ensures LexLess(level[i], g) {
      if i < |level| - 1 { LexTransitive(level[i], level[|level|-1], g); }
    }
  }

  lemma WriteOne(order: nat, words: seq<seq<nat>>, nexts: seq<seq<nat>>, grams: seq<seq<Gram>>, g: Gram)
    requires Writing(order, words, nexts, grams) && Follows(grams, g)
    ensures var k := |g| - 1;
      Writing(order, words[k := words[k] + [g[k]]],
              if k + 1 < order then nexts[k := nexts[k] + [|words[k+1]|]] else nexts,
              grams[k := grams[k] + [g]])
  {
    hide LexLess, Linked, SortedLevel;
    var k := |g| - 1;
    assert LevelIs(words[k], grams[k], k);
    AppendLevel(words[k], grams[k], k, g);
    var grams' := grams[k := grams[k] + [g]];
    var nexts' := if k + 1 < order then nexts[k := nexts[k] + [|words[k+1]|]] else nexts;
    if k + 1 < order {
      assert LevelIs(words[k+1], grams[k+1], k + 1);
      AppendParent(grams[k], nexts[k], grams[k+1], g);
    }
    if k > 0 { AppendChild(grams[k-1], nexts[k-1], grams[k], g); }
    forall i | 0 <= i < order - 1 ensures Linked(grams'[i], nexts'[i], grams'[i+1]) {
      assert Linked(grams[i], nexts[i], grams[i+1]);
    }
  }

  // ----- what has been written

  /** The n-grams of the events, sorted by order. */
  ghost predicate FromEvents(grams: seq<seq<Gram>>, events: seq<Event>) {
    && (forall k, j :: 0 <= k < |grams| && 0 <= j < |grams[k]| ==> Has(events, grams[k][j]))
    && (forall i :: 0 <= i < |events| ==> InLevel(grams, events[i].gram))
  }

  ghost predicate InLevel(grams: seq<seq<Gram>>, g: Gram) {
    1 <= |g| <= |grams| && g in grams[|g|-1]
  }

  lemma FromMore(grams: seq<seq<Gram>>, events: seq<Event>, e: Event)
    requires FromEvents(grams, events) && 1 <= |e.gram| <= |grams|
    ensures FromEvents(grams[|e.gram|-1 := grams[|e.gram|-1] + [e.gram]], events + [e])
  {
    var k := |e.gram| - 1;
    var grams' := grams[k := grams[k] + [e.gram]];
    forall g ensures Has(events + [e], g) <==> Has(events, g) || g == e.gram { HasMore(events, e, g); }
    forall i | 0 <= i < |events| ensures InLevel(grams', events[i].gram) {
      assert InLevel(grams, events[i].gram);
    }
    forall i, j | 0 <= i < |grams'| && 0 <= j < |grams'[i]| ensures Has(events + [e], grams'[i][j]) {
      assert i != k || j < |grams[k]| ==> Has(events, grams[i][j]);
    }
  }

  /** All unigrams up to a count, and no n-gram that is too long. */
  ghost predicate UnigramsUpTo(events: seq<Event>, count: nat, order: nat) {
    && (forall u: nat :: Has(events, [u]) <==> u < count)
    && (forall i :: 0 <= i < |events| ==> |events[i].gram| <= order)
  }

  lemma Earlier(events: seq<Event>, i: nat, g: Gram)
    requires Increasing(events) && i < |events|
    ensures Has(events, g) && LexLess(g, events[i].gram) <==> Has(events[..i], g)
  {
    hide LexLess;
    if Has(events, g) && LexLess(g, events[i].gram) {
      var j :| 0 <= j < |events| && events[j].gram == g;
      LexTotal(g, events[i].gram);
      assert j < i && events[..i][j].gram == g;
    }
    if Has(events[..i], g) {
      var j :| 0 <= j < i && events[..i][j].gram == g;
      assert events[j].gram == g;
    }
  }

  /** Of two n-grams of the same length, what extends the lesser is less than the greater. */
  lemma ExtendsLess(p: Gram, f: Gram, g: Gram)
    requires |p| == |f| && Prefix(p, g) && LexLess(p, f)
    ensures LexLess(g, f)
  {
    LexAt(p, f);
    LexAt(g, f);
    var c := Common(p, f);
    CommonPrefix(p[..c], g, f);
    var d := Common(g, f);
    assert forall t :: 0 <= t < d ==> g[t] == g[..d][t] && f[t] == f[..d][t];
  }

  lemma FollowsNext(grams: seq<seq<Gram>>, events: seq<Event>, seen: map<Gram, real>, i: nat, count: nat)
    requires Listed(events, seen) && i < |events| && UnigramsUpTo(events, count, |grams|)
    requires FromEvents(grams, events[..i]) && |grams| > 0 && Counted(grams[0])
    requires forall k :: 0 <= k < |grams| ==> SortedLevel(grams[k], k + 1)
    ensures Follows(grams, events[i].gram)
  {
    hide LexLess, EventFor, Listed;
    var g := events[i].gram;
    ListedAt(events, seen, i);
    forall k, j | 0 <= k < |grams| && 0 <= j < |grams[k]| ensures LexLess(grams[k][j], g) {
      Earlier(events, i, grams[k][j]);
    }
    if |g| == 1 {
      assert g == [g[0]];
      UnigramTurn(grams, events, i, count);
    } else {
      ParentLast(grams, events, i);
    }
  }

  lemma ListedAt(events: seq<Event>, seen: map<Gram, real>, i: nat)
    requires Listed(events, seen) && i < |events|
    ensures Increasing(events) && events[i].gram != []
    ensures forall k :: 1 <= k <= |events[i].gram| ==> Has(events, events[i].gram[..k])
  {
    hide EventFor, LexLess;
  }

  lemma UnigramTurn(grams: seq<seq<Gram>>, events: seq<Event>, i: nat, count: nat)
    requires Increasing(events) && i < |events| && UnigramsUpTo(events, count, |grams|)
    requires FromEvents(grams, events[..i]) && |grams| > 0 && Counted(grams[0]) && |events[i].gram| == 1
    ensures events[i].gram == [|grams[0]|]
  {
    hide LexLess, Increasing, FromEvents;
    var g, c := events[i].gram, |grams[0]|;
    assert g == [g[0]] && Has(events, g);
    if c < g[0] {
      UnigramLess(c, g[0]);
      Earlier(events, i, [c]);
      FromHas(grams, events[..i], [c]);
    } else if g[0] < c {
      assert grams[0][g[0]] == g;
      FromLevel(grams, events[..i], 0, g[0]);
      Earlier(events, i, g);
      LexTotal(g, g);
    }
  }

  lemma UnigramLess(a: Word, b: Word)
    requires a < b
    ensures LexLess([a], [b])
  {}

  lemma FromHas(grams: seq<seq<Gram>>, events: seq<Event>, g: Gram)
    requires FromEvents(grams, events) && Has(events, g)
    ensures InLevel(grams, g)
  {}

  lemma FromLevel(grams: seq<seq<Gram>>, events: seq<Event>, k: nat, j: nat)
    requires FromEvents(grams, events) && k < |grams| && j < |grams[k]|
    ensures Has(events, grams[k][j])
  {}

  lemma ParentLast(grams: seq<seq<Gram>>, events: seq<Event>, i: nat)
    requires Increasing(events) && i < |events| && 1 < |events[i].gram| <= |grams|
    requires FromEvents(grams, events[..i])
    requires var g := events[i].gram; Has(events, g[..|g|-1]) && SortedLevel(grams[|g|-2], |g| - 1)
    ensures var g := events[i].gram; var level := grams[|g|-2];
      level != [] && level[|level|-1] == g[..|g|-1]
  {
    hide LexLess, Increasing, FromEvents;
    var g := events[i].gram;
    var p, level := g[..|g|-1], grams[|g|-2];
    PrefixLess(p, g);
    Earlier(events, i, p);
    FromHas(grams, events[..i], p);
    var f := level[|level|-1];
    FromLevel(grams, events[..i], |g| - 2, |level| - 1);
    Earlier(events, i, f);
    if p != f {
      ExtendsLess(p, f, g);
      LexTotal(f, g);
    }
  }

  // ----- lookup

  ghost predicate NodeIs(grams: seq<seq<Gram>>, nexts: seq<seq<nat>>, g: Gram, begin: nat, end: nat, j: nat) {
    && 1 <= |g| <= |nexts| && |nexts| < |grams|
    && j < |grams[|g|-1]| && grams[|g|-1][j] == g && j + 1 < |nexts[|g|-1]|
    && begin == nexts[|g|-1][j] && end == nexts[|g|-1][j+1]
  }

  /** The range of the entry for `g`. */
  ghost predicate NodeOf(grams: seq<seq<Gram>>, nexts: seq<seq<nat>>, g: Gram, begin: nat, end: nat) {
    exists j: nat :: NodeIs(grams, nexts, g, begin, end, j)
  }

  /** The entries in a node's range are its extensions, in increasing order. */
  lemma NodeExact(order: nat, words: seq<seq<nat>>, nexts: seq<seq<nat>>, grams: seq<seq<Gram>>, g: Gram,
                  begin: nat, end: nat)
    requires Complete(order, words, nexts, grams) && NodeOf(grams, nexts, g, begin, end)
    ensures begin <= end <= |words[|g|]| && |words[|g|]| == |grams[|g|]|
    ensures forall m :: 0 <= m < |grams[|g|]| ==> (begin <= m < end <==> Prefix(g, grams[|g|][m]))
    ensures StrictlySorted(words[|g|], begin, end)
    ensures forall m :: begin <= m < end ==> grams[|g|][m] == g + [words[|g|][m]]
  {
    hide LexLess;
    var j: nat :| NodeIs(grams, nexts, g, begin, end, j);
    var k := |g| - 1;
    var level, next, children := grams[k], nexts[k], grams[k+1];
    assert LevelIs(words[k], level, k) && LevelIs(words[k+1], children, k + 1) && Closed(level, next, children);
    forall m | 0 <= m < |children| ensures begin <= m < end <==> Prefix(g, children[m]) {
      RangeExact(level, next, children, k + 1, j, m);
    }
    WordsSorted(children, k + 2, g, begin, end);
    forall m | begin <= m < end ensures children[m] == g + [words[k+1][m]] {
      assert children[m] == children[m][..k+1] + [children[m][k+1]];
    }
  }

  lemma ExtensionAt(order: nat, words: seq<seq<nat>>, nexts: seq<seq<nat>>, grams: seq<seq<Gram>>, g: Gram,
                    begin: nat, end: nat, word: Word)
    requires Complete(order, words, nexts, grams) && NodeOf(grams, nexts, g, begin, end)
    ensures |g| < |words| && StrictlySorted(words[|g|], begin, end)
    ensures InLevel(grams, g + [word]) <==> exists m :: begin <= m < end && words[|g|][m] == word
    ensures begin < end <==> exists w :: InLevel(grams, g + [w])
  {
    hide LexLess, Complete, NodeOf;
    NodeExact(order, words, nexts, grams, g, begin, end);
    NodeSizes(order, words, nexts, grams, g, begin, end);
    forall w ensures InLevel(grams, g + [w]) <==> exists m :: begin <= m < end && words[|g|][m] == w {
      if InLevel(grams, g + [w]) {
        var m :| 0 <= m < |grams[|g|]| && grams[|g|][m] == g + [w];
        assert Prefix(g, grams[|g|][m]);
      }
      if m :| begin <= m < end && words[|g|][m] == w {
        assert grams[|g|][m] == g + [w];
      }
    }
    if begin < end { assert InLevel(grams, g + [words[|g|][begin]]); }
  }

  lemma NodeSizes(order: nat, words: seq<seq<nat>>, nexts: seq<seq<nat>>, grams: seq<seq<Gram>>, g: Gram,
                  begin: nat, end: nat)
    requires Complete(order, words, nexts, grams) && NodeOf(grams, nexts, g, begin, end)
    ensures 1 <= |g| < |words| && |words| == |grams|
  {}

  /** The node of an entry that is not of the last order. */
  lemma NodeAt(order: nat, words: seq<seq<nat>>, nexts: seq<seq<nat>>, grams: seq<seq<Gram>>, k: nat, j: nat)
    requires Complete(order, words, nexts, grams) && k < order - 1 && j < |grams[k]|
    ensures |nexts[k]| == |grams[k]| + 1 && |grams[k][j]| == k + 1
    ensures NodeOf(grams, nexts, grams[k][j], nexts[k][j], nexts[k][j+1])
  {
    assert LevelIs(words[k], grams[k], k) && Closed(grams[k], nexts[k], grams[k+1]);
    assert NodeIs(grams, nexts, grams[k][j], nexts[k][j], nexts[k][j+1], j);
  }

  /** What is written with an n-gram: the numbers that encode its log probability and its backoff. */
  datatype EntryWeights = EntryWeights(prob: nat, backoff: nat)

  ghost predicate LevelCarries(weigh: Gram -> EntryWeights, level: seq<Gram>, weights: seq<EntryWeights>) {
    |weights| == |level| && forall j :: 0 <= j < |level| ==> weights[j] == weigh(level[j])
  }

  /** Every entry has the weights of its n-gram. */
  ghost predicate Carries(weigh: Gram -> EntryWeights, grams: seq<seq<Gram>>, weights: seq<seq<EntryWeights>>) {
    |weights| == |grams| && forall k :: 0 <= k < |grams| ==> LevelCarries(weigh, grams[k], weights[k])
  }

  class TrieArrays {
    const order: nat
    const maxVocab: nat
    var words: seq<seq<nat>>
    var nexts: seq<seq<nat>>
    var weights: seq<seq<EntryWeights>>
    ghost var grams: seq<seq<Gram>>

    ghost predicate Loading()
      reads this
    {
      Writing(order, words, nexts, grams) && |weights| == order
    }

    /** Ready for lookups; no order has as many entries as 64 bits can count, and words are within the vocabulary. */
    ghost predicate Valid()
      reads this
    {
      && Complete(order, words, nexts, grams) && |weights| == order && |words[0]| <= maxVocab
      && (forall k :: 0 <= k < order ==> |words[k]| < TWO_TO_THE_64 - 1)
      && (forall k, j :: 0 <= k < order && 0 <= j < |words[k]| ==> words[k][j] <= maxVocab)
    }

    constructor (order: nat, maxVocab: nat)
      requires order >= 2
      ensures Loading() && this.order == order && this.maxVocab == maxVocab
      ensures grams == seq(order, _ => []) && weights == seq(order, _ => [])
    {
      this.order, this.maxVocab := order, maxVocab;
      words, nexts := seq(order, _ => []), seq(order - 1, _ => []);
      weights, grams := seq(order, _ => []), seq(order, _ => []);
    }

    /** Append an entry that points at where its extensions will start. */
    method Insert(g: Gram, w: EntryWeights)
      requires Loading() && Follows(grams, g)
      modifies this
      ensures Loading() && grams == old(grams)[|g|-1 := old(grams)[|g|-1] + [g]]
      ensures weights == old(weights)[|g|-1 := old(weights)[|g|-1] + [w]]
    {
      hide Linked, LevelIs, Follows;
      var k := |g| - 1;
      FollowsSize(grams, g);
      WriteOne(order, words, nexts, grams, g);
      if k + 1 < order {
        nexts := nexts[k := nexts[k] + [|words[k+1]|]];
      }
      words := words[k := words[k] + [g[k]]];
      weights := weights[k := weights[k] + [w]];
      grams := grams[k := grams[k] + [g]];
    }

    /** Write the ends of the last ranges. */
    method FinishedLoading()
      requires Loading()
      modifies this
      ensures Complete(order, words, nexts, grams) && words == old(words) && grams == old(grams)
      ensures weights == old(weights)
    {
      hide Linked, LevelIs, Closed;
      for k := 0 to order - 1
        invariant words == old(words) && grams == old(grams) && weights == old(weights) && |nexts| == order - 1
        invariant forall i :: 0 <= i < k ==> Closed(grams[i], nexts[i], grams[i+1])
        invariant forall i :: k <= i < order - 1 ==> Linked(grams[i], nexts[i], grams[i+1])
      {
        assert LevelIs(words[k+1], grams[k+1], k + 1);
        LevelSize(words[k+1], grams[k+1], k + 1);
        Close(grams[k], nexts[k], grams[k+1]);
        nexts := nexts[k := nexts[k] + [|words[k+1]|]];
      }
    }
  }

  lemma UnigramAt(order: nat, words: seq<seq<nat>>, nexts: seq<seq<nat>>, grams: seq<seq<Gram>>, word: nat)
    requires Complete(order, words, nexts, grams) && word < |words[0]|
    ensures |nexts[0]| == |words[0]| + 1 && InLevel(grams, [word])
    ensures NodeOf(grams, nexts, [word], nexts[0][word], nexts[0][word+1])
  {
    hide Closed, NodeOf;
    assert LevelIs(words[0], grams[0], 0);
    assert grams[0][word] == [word];
    NodeAt(order, words, nexts, grams, 0, word);
  }

  /** No prefix of an entry is missing. */
  lemma {:induction false} LevelPrefix(order: nat, words: seq<seq<nat>>, nexts: seq<seq<nat>>, grams: seq<seq<Gram>>,
                                       g: Gram, k: nat)
    requires Complete(order, words, nexts, grams) && 1 <= k <= |g|
    ensures InLevel(grams, g) ==> InLevel(grams, g[..k])
    decreases |g|
  {
    hide LexLess;
    if k == |g| {
      assert g[..k] == g;
    } else {
      if InLevel(grams, g) {
        var i := |g| - 2;
        assert Closed(grams[i], nexts[i], grams[i+1]) && LevelIs(words[i], grams[i], i);
        var m :| 0 <= m < |grams[i+1]| && grams[i+1][m] == g;
        assert HasParent(grams[i], nexts[i], grams[i+1][m], m);
        var j: nat :| InRangeOf(grams[i], nexts[i], g, m, j);
        assert grams[i][j] == g[..|g|-1];
      }
      LevelPrefix(order, words, nexts, grams, g[..|g|-1], k);
      assert g[..|g|-1][..k] == g[..k];
    }
  }

  lemma FollowsSize(grams: seq<seq<Gram>>, g: Gram)
    requires Follows(grams, g)
    ensures 1 <= |g| <= |grams|
  {}

  lemma LevelSize(words: seq<nat>, level: seq<Gram>, k: nat)
    requires LevelIs(words, level, k)
    ensures |words| == |level|
  {}

  // ----- building

  lemma CarriesMore(weigh: Gram -> EntryWeights, grams: seq<seq<Gram>>, weights: seq<seq<EntryWeights>>, g: Gram)
    requires Carries(weigh, grams, weights) && 1 <= |g| <= |grams|
    ensures var k := |g| - 1;
      Carries(weigh, grams[k := grams[k] + [g]], weights[k := weights[k] + [weigh(g)]])
  {
    hide LevelCarries;
    assert LevelCarries(weigh, grams[|g|-1], weights[|g|-1]);
    LevelMore(weigh, grams[|g|-1], weights[|g|-1], g);
  }

  lemma LevelMore(weigh: Gram -> EntryWeights, level: seq<Gram>, weights: seq<EntryWeights>, g: Gram)
    requires LevelCarries(weigh, level, weights)
    ensures LevelCarries(weigh, level + [g], weights + [weigh(g)])
  {}

  /** Write the entries for all events, in order. */
  method WriteEntries(t: TrieArrays, events: seq<Event>, weigh: Gram -> EntryWeights,
                      ghost seen: map<Gram, real>, ghost count: nat)
    requires t.Loading() && t.grams == seq(t.order, _ => []) && t.weights == seq(t.order, _ => [])
    requires Listed(events, seen) && UnigramsUpTo(events, count, t.order)
    modifies t
    ensures t.Loading() && FromEvents(t.grams, events) && Carries(weigh, t.grams, t.weights)
  {
    hide Writing, Listed, UnigramsUpTo, FromEvents, Follows;
    NothingWritten(t.order);
    hide Carries;
    for i := 0 to |events|
      invariant t.Loading() && FromEvents(t.grams, events[..i]) && Carries(weigh, t.grams, t.weights)
    {
      WritingParts(t.order, t.words, t.nexts, t.grams);
      FollowsNext(t.grams, events, seen, i, count);
      FollowsSize(t.grams, events[i].gram);
      FromMore(t.grams, events[..i], events[i]);
      CarriesMore(weigh, t.grams, t.weights, events[i].gram);
      t.Insert(events[i].gram, weigh(events[i].gram));
      assert events[..i+1] == events[..i] + [events[i]];
    }
    assert events[..|events|] == events;
  }

  lemma NothingWritten(order: nat)
    ensures FromEvents(seq(order, _ => []), [])
  {}

  lemma WritingParts(order: nat, words: seq<seq<nat>>, nexts: seq<seq<nat>>, grams: seq<seq<Gram>>)
    requires Writing(order, words, nexts, grams)
    ensures |grams| == order > 0 && Counted(grams[0])
    ensures forall k :: 0 <= k < |grams| ==> SortedLevel(grams[k], k + 1)
  {
    forall k | 0 <= k < |grams| ensures SortedLevel(grams[k], k + 1) {
      assert LevelIs(words[k], grams[k], k);
    }
  }

  ghost predicate WordsWithin(streams: seq<seq<Record>>, maxVocab: nat) {
    forall o, j, i :: 0 <= o < |streams| && 0 <= j < |streams[o]| && 0 <= i < |streams[o][j].gram| ==>
      streams[o][j].gram[i] <= maxVocab
  }

  /** The input n-grams of at least `n` words, cut to their first `n`. */
  ghost function Prefixes(streams: seq<seq<Record>>, n: nat): (cut: set<Gram>) {
    set o, j | 0 <= o < |streams| && 0 <= j < |streams[o]| && n <= |streams[o][j].gram| :: streams[o][j].gram[..n]
  }

  /** No order has more entries than 64-bit indices can search. */
  ghost predicate Indexable(streams: seq<seq<Record>>) {
    forall n: nat :: 1 <= n <= |streams| ==> |Prefixes(streams, n)| + 1 < TWO_TO_THE_64
  }

  predicate Countable(words: seq<seq<nat>>) {
    forall k :: 0 <= k < |words| ==> |words[k]| + 1 < TWO_TO_THE_64
  }

  /** Merge the streams and write the trie.  Unless an n-gram starts with an unknown word or there are too many
      entries, every n-gram and every prefix of one has an entry, and nothing else has. */
  method BuildTrie(streams: seq<seq<Record>>, weigh: Gram -> EntryWeights, maxVocab: nat)
    returns (ok: bool, t: TrieArrays, ghost seen: map<Gram, real>)
    requires SortedStreams(streams) && |streams| >= 2 && WordsWithin(streams, maxVocab) && |streams[0]| <= maxVocab
    ensures ok ==> t.Valid() && t.order == |streams| && t.maxVocab == maxVocab && |t.words[0]| == |streams[0]|
    ensures ok ==> Read(streams, Ends(streams), seen)
    ensures ok ==> forall g :: InLevel(t.grams, g) <==> g != [] && IsPrefix(g, seen)
    ensures ok ==> Carries(weigh, t.grams, t.weights)
    ensures ok ==> forall k: nat :: k < |t.words| ==> |t.words[k]| == |Prefixes(streams, k + 1)|
    ensures ok <==> AllKnown(streams) && Indexable(streams)
  {
    hide Carries, Prefixes, Listed, Rooted, Writing, Complete, FromEvents, Read, WordsWithin, UnigramsUpTo,
         IsPrefix, KnownFirst;
    var events;
    t := new TrieArrays(|streams|, maxVocab);
    ok, events, seen := RecursiveInsert(streams);
    if !ok { return; }
    EventsFit(streams, events, seen);
    WriteEntries(t, events, weigh, seen, |streams[0]|);
    FromExactly(streams, events, seen, t.order, t.words, t.nexts, t.grams, maxVocab);
    t.FinishedLoading();
    CompleteSize(t.order, t.words, t.nexts, t.grams);
    forall k: nat | k < |t.words| ensures |t.words[k]| == |Prefixes(streams, k + 1)| {
      LevelCount(streams, seen, t.order, t.words, t.nexts, t.grams, k);
    }
    CountableInput(streams, t.words);
    ok := Countable(t.words);
  }

  lemma CountableInput(streams: seq<seq<Record>>, words: seq<seq<nat>>)
    requires |words| == |streams| && forall k: nat :: k < |words| ==> |words[k]| == |Prefixes(streams, k + 1)|
    ensures Countable(words) <==> Indexable(streams)
  {
    hide Prefixes;
    if Countable(words) {
      forall n: nat | 1 <= n <= |streams| ensures |Prefixes(streams, n)| + 1 < TWO_TO_THE_64 {
        assert |words[n-1]| == |Prefixes(streams, n - 1 + 1)|;
      }
    }
  }

  /** An order has an entry for each prefix of its length. */
  lemma LevelCount(streams: seq<seq<Record>>, seen: map<Gram, real>, order: nat, words: seq<seq<nat>>,
                   nexts: seq<seq<nat>>, grams: seq<seq<Gram>>, k: nat)
    requires Complete(order, words, nexts, grams) && k < order && Read(streams, Ends(streams), seen)
    requires forall g :: InLevel(grams, g) <==> g != [] && IsPrefix(g, seen)
    ensures |words[k]| == |Prefixes(streams, k + 1)|
  {
    hide Closed, IsPrefix, LexLess, Prefixes, InLevel, Read;
    assert LevelIs(words[k], grams[k], k);
    DistinctLevel(grams[k], k + 1);
    FiniteSets.DistinctSize(grams[k]);
    forall g ensures g in FiniteSets.Elements(grams[k]) <==> g in Prefixes(streams, k + 1) {
      PrefixIs(streams, seen, g, k + 1);
      LevelHas(grams, k, g);
    }
    assert FiniteSets.Elements(grams[k]) == Prefixes(streams, k + 1);
  }

  lemma DistinctLevel(level: seq<Gram>, length: nat)
    requires SortedLevel(level, length)
    ensures FiniteSets.Distinct(level)
  {
    hide LexLess;
    forall i, j | 0 <= i < j < |level| ensures level[i] != level[j] { LexTotal(level[i], level[j]); }
  }

  lemma LevelHas(grams: seq<seq<Gram>>, k: nat, g: Gram)
    requires k < |grams| && SortedLevel(grams[k], k + 1)
    ensures g in FiniteSets.Elements(grams[k]) <==> |g| == k + 1 && InLevel(grams, g)
  {
    hide LexLess;
  }

  lemma PrefixIs(streams: seq<seq<Record>>, seen: map<Gram, real>, g: Gram, n: nat)
    requires Read(streams, Ends(streams), seen) && n > 0
    ensures g in Prefixes(streams, n) <==> |g| == n && IsPrefix(g, seen)
  {
    if |g| == n && IsPrefix(g, seen) {
      var f :| f in seen && Prefix(g, f);
      var o, j :| 0 <= o < |streams| && 0 <= j < Ends(streams)[o] && streams[o][j].gram == f;
    }
    if g in Prefixes(streams, n) {
      var o, j :| 0 <= o < |streams| && 0 <= j < |streams[o]| && n <= |streams[o][j].gram| &&
          g == streams[o][j].gram[..n];
      assert 0 <= j < Ends(streams)[o] && streams[o][j].gram in seen;
    }
  }

  lemma CompleteSize(order: nat, words: seq<seq<nat>>, nexts: seq<seq<nat>>, grams: seq<seq<Gram>>)
    requires Complete(order, words, nexts, grams)
    ensures |words| == order >= 2
  {}

  lemma EventsFit(streams: seq<seq<Record>>, events: seq<Event>, seen: map<Gram, real>)
    requires SortedStreams(streams) && Read(streams, Ends(streams), seen) && Listed(events, seen) &&
      Rooted(events, seen)
    requires AllKnown(streams)
    ensures UnigramsUpTo(events, |streams[0]|, |streams|)
  {
    hide Listed, LexLess;
    forall i | 0 <= i < |events| ensures |events[i].gram| <= |streams| {
      assert IsPrefix(events[i].gram, seen);
    }
    forall u: nat ensures Has(events, [u]) <==> u < |streams[0]| {
      UnigramListed(streams, events, seen, u);
    }
  }

  lemma UnigramListed(streams: seq<seq<Record>>, events: seq<Event>, seen: map<Gram, real>, u: nat)
    requires SortedStreams(streams) && Read(streams, Ends(streams), seen) && Listed(events, seen) &&
      Rooted(events, seen)
    requires AllKnown(streams)
    ensures Has(events, [u]) <==> u < |streams[0]|
  {
    hide Listed, LexLess, Rooted, Has;
    ListsPrefixes(events, seen, [u]);
    if IsPrefix([u], seen) {
      var g :| g in seen && Prefix([u], g);
      var o, j :| 0 <= o < |streams| && 0 <= j < Ends(streams)[o] && streams[o][j].gram == g;
      assert KnownFirst(streams, streams[o][j].gram) && g[..1][0] == g[0];
    }
    if u < |streams[0]| {
      assert u < Ends(streams)[0] && streams[0][u].gram == [u];
      assert Prefix([u], [u]);
    }
  }

  lemma FromExactly(streams: seq<seq<Record>>, events: seq<Event>, seen: map<Gram, real>, order: nat,
                    words: seq<seq<nat>>, nexts: seq<seq<nat>>, grams: seq<seq<Gram>>, maxVocab: nat)
    requires SortedStreams(streams) && Read(streams, Ends(streams), seen) && Listed(events, seen) &&
      Rooted(events, seen)
    requires WordsWithin(streams, maxVocab) && UnigramsUpTo(events, |streams[0]|, |streams|)
    requires Writing(order, words, nexts, grams) && FromEvents(grams, events)
    ensures forall g :: InLevel(grams, g) <==> g != [] && IsPrefix(g, seen)
    ensures forall k, j :: 0 <= k < order && 0 <= j < |words[k]| ==> words[k][j] <= maxVocab
    ensures |words[0]| == |streams[0]|
  {
    hide LexLess, Listed, Rooted, Has, Read, IsPrefix, Linked;
    forall g ensures InLevel(grams, g) <==> g != [] && IsPrefix(g, seen) {
      ListsPrefixes(events, seen, g);
      if InLevel(grams, g) {
        var j :| 0 <= j < |grams[|g|-1]| && grams[|g|-1][j] == g;
        FromLevel(grams, events, |g| - 1, j);
      }
      if Has(events, g) { FromHas(grams, events, g); }
    }
    forall k, j | 0 <= k < order && 0 <= j < |words[k]| ensures words[k][j] <= maxVocab {
      assert LevelIs(words[k], grams[k], k);
      assert InLevel(grams, grams[k][j]);
      WordWithin(streams, seen, grams[k][j], k, maxVocab);
    }
    UnigramTotal(events, |streams[0]|, order, words, nexts, grams);
  }

  lemma WordWithin(streams: seq<seq<Record>>, seen: map<Gram, real>, g: Gram, k: nat, maxVocab: nat)
    requires Read(streams, Ends(streams), seen) && WordsWithin(streams, maxVocab) && IsPrefix(g, seen) && k < |g|
    ensures g[k] <= maxVocab
  {
    var r :| r in seen && Prefix(g, r);
    assert r[..|g|][k] == r[k];
  }

  lemma UnigramTotal(events: seq<Event>, count: nat, order: nat, words: seq<seq<nat>>, nexts: seq<seq<nat>>,
                     grams: seq<seq<Gram>>)
    requires UnigramsUpTo(events, count, order) && Writing(order, words, nexts, grams) && FromEvents(grams, events)
    ensures |words[0]| == count
  {
    hide LexLess, Linked;
    UnigramIff(events, count, order, words, nexts, grams, |words[0]|);
    UnigramIff(events, count, order, words, nexts, grams, count);
  }

  lemma UnigramIff(events: seq<Event>, count: nat, order: nat, words: seq<seq<nat>>, nexts: seq<seq<nat>>,
                   grams: seq<seq<Gram>>, u: nat)
    requires UnigramsUpTo(events, count, order) && Writing(order, words, nexts, grams) && FromEvents(grams, events)
    ensures u < |words[0]| <==> u < count
  {
    hide LexLess, Linked;
    assert LevelIs(words[0], grams[0], 0);
    if u < |words[0]| {
      assert grams[0][u] == [u] && Has(events, grams[0][u]);
    }
    if u < count {
      FromHas(grams, events, [u]);
      var j :| 0 <= j < |grams[0]| && grams[0][j] == [u];
      assert grams[0][j] == [j];
    }
  }

  // ----- marking contexts

  /** Reads one order's contexts in step with its n-grams. */
  class ContextReader {
    const contexts: seq<Gram>
    var at: nat
    ghost var visited: seq<Gram>
    ghost var marked: set<Gram>

    /** The contexts read are the n-grams marked; the next context is not among the n-grams visited. */
    ghost predicate Valid()
      reads this
    {
      && (forall i, j :: 0 <= i < j < |contexts| ==> LexLess(contexts[i], contexts[j]))
      && (forall i, j :: 0 <= i < j < |visited| ==> LexLess(visited[i], visited[j]))
      && at <= |contexts| && marked == (set c | c in contexts[..at])
      && (forall c :: c in marked ==> c in visited)
      && (at < |contexts| ==> contexts[at] !in visited)
    }

    constructor (contexts: seq<Gram>)
      requires forall i, j :: 0 <= i < j < |contexts| ==> LexLess(contexts[i], contexts[j])
      ensures Valid() && this.contexts == contexts && visited == [] && marked == {}
    {
      this.contexts, at, visited, marked := contexts, 0, [], {};
    }

    /** Whether the n-gram is to be marked as a context. */
    method Visit(g: Gram) returns (marks: bool)
      requires Valid() && (visited != [] ==> LexLess(visited[|visited|-1], g))
      modifies this
      ensures Valid() && visited == old(visited) + [g] && marked == old(marked) + if marks then {g} else {}
    {
      hide LexLess;
      forall i | 0 <= i < |visited| ensures LexLess(visited[i], g) {
        if i < |visited| - 1 { LexTransitive(visited[i], visited[|visited|-1], g); }
      }
      marks := at < |contexts| && contexts[at] == g;
      visited := visited + [g];
      if marks {
        assert contexts[..at+1] == contexts[..at] + [g];
        if at + 1 < |contexts| {
          assert LexLess(g, contexts[at+1]);
          forall i | 0 <= i < |visited| ensures visited[i] != contexts[at+1] {
            LexTotal(g, contexts[at+1]);
            LexTotal(visited[i], contexts[at+1]);
            if i < |visited| - 1 { LexTransitive(visited[i], g, contexts[at+1]); }
          }
        }
        at := at + 1;
        marked := marked + {g};
      }
    }

    /** A context is left over exactly if some context is not among the n-grams; if none is, the n-grams marked are
        the contexts. */
    method Leftover() returns (left: bool)
      requires Valid()
      ensures left <==> exists c :: c in contexts && c !in visited
      ensures !left ==> marked == set c | c in contexts
    {
      left := at < |contexts|;
      assert !left ==> contexts[..at] == contexts;
      assert left ==> contexts[at] in contexts;
    }
  }
}
