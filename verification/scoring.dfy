/**
 Scoring one word at a time with a minimal state, and the stateless queries.

 The scorer walks from short to long n-grams, stops as soon as an entry says it
 does not extend left, keeps only the longest context that extends right, and
 charges backoffs from an array saved in the state.  The contracts say that none
 of this loses anything against the recursion `NGrams.Score`.
 */
module Scoring {
  import opened NGrams

  /** The context kept for scoring the next word, newest word first. */
  datatype State = State(words: seq<Word>, backoff: seq<Backoff>)

  datatype FullScoreReturn = FullScoreReturn(
    prob: real, ngramLength: nat, independentLeft: bool, extendLeft: Gram, rest: real)

  /** The saved backoffs are those of the stored words. */
  ghost predicate ValidState(m: Model, s: State) {
    && |s.words| == |s.backoff| < m.order
    && Known(m, s.words)
    && forall j {:trigger s.words[..j]} :: 1 <= j <= |s.words| ==>
         s.words[..j] in m.table && s.backoff[j-1] == m.table[s.words[..j]].backoff
  }

  /** `s` is enough to continue after the history `h`. */
  ghost predicate StateFor(m: Model, h: seq<Word>, s: State) {
    ValidState(m, s) && s.words <= h && Adequate(m, h, |s.words|)
  }

  /** `s` is the shortest state that also keeps every backoff. */
  ghost predicate MinimalFor(m: Model, h: seq<Word>, s: State) {
    ValidState(m, s) && s.words == h[..KeepLength(m, h)]
  }

  function SumValues(b: seq<Backoff>, from: nat): (sum: real)
    requires from <= |b|
    decreases |b| - from
  {
    if from == |b| then 0.0 else b[from].value + SumValues(b, from + 1)
  }

  /** What a walk over `full`, started at its stored prefix of length `start`, reports.  There are no pointers to
      n-grams of the highest order: the one to what they extend remains. */
  ghost predicate WalkResult(m: Model, full: Gram, start: nat, ret: FullScoreReturn) {
    var k := MatchLength(m, full);
    && start <= k == ret.ngramLength <= |full| && k <= m.order
    && 1 <= k && full[..k] in m.table
    && ret.prob == ret.rest == m.table[full[..k]].prob
    && (ret.independentLeft <==> !(k == |full| < m.order && m.table[full].extendsLeft))
    && ret.extendLeft == full[..if k < m.order then k else m.order - 1]
  }

  /** `b` lists the backoffs of the prefixes of `full` longer than `start`. */
  ghost predicate BackoffsBeyond(m: Model, full: Gram, start: nat, b: seq<Backoff>) {
    && start + |b| <= |full|
    && forall j {:trigger full[..j]} :: start < j <= start + |b| ==>
         full[..j] in m.table && b[j-start-1] == m.table[full[..j]].backoff
  }

  /** The length of context that the walk tells the caller to use next. */
  ghost function UseAfter(m: Model, full: Gram, start: nat, otherwise: nat): (length: nat) {
    if KeepLength(m, full) > start then KeepLength(m, full) else otherwise
  }

  lemma MatchIs(m: Model, g: Gram, k: nat)
    requires WellFormed(m) && 1 <= k <= |g| && g[..k] in m.table
    requires k == |g| || g[..k+1] !in m.table || !m.table[g[..k]].extendsLeft
    ensures MatchLength(m, g) == k
  {
    var n := MatchLength(m, g);
    PrefixOfPrefix(g, n, k);
    if k < n {
      PrefixOfPrefix(g, n, k + 1);
      DropOldest(m, g[..n], k + 1);
      DropOldest(m, g[..n], k);
    }
  }

  lemma KeepIs(m: Model, g: Gram, k: nat)
    requires k <= |g| && (k > 0 ==> Extends(m, g[..k]))
    requires forall j {:trigger g[..j]} :: k < j <= |g| ==> !Extends(m, g[..j])
    ensures KeepLength(m, g) == k
  {}

  lemma KeepLeMatch(m: Model, g: Gram)
    requires WellFormed(m)
    ensures KeepLength(m, g) <= MatchLength(m, g)
    ensures KeepLength(m, g) < m.order
  {}

  /** Only stored prefixes can extend right. */
  lemma KeepOfMatch(m: Model, g: Gram, k: nat)
    requires WellFormed(m) && 1 <= k <= |g| && MatchLength(m, g) <= k
    ensures KeepLength(m, g[..k]) == KeepLength(m, g)
  {
    var a := KeepLength(m, g);
    KeepLeMatch(m, g);
    forall j {:trigger g[..k][..j]} | 0 <= j <= k ensures g[..k][..j] == g[..j] { PrefixOfPrefix(g, k, j); }
    KeepIs(m, g[..k], a);
  }

  lemma KeepExtend(m: Model, g: Gram, k: nat)
    requires k < |g|
    ensures KeepLength(m, g[..k+1]) == if Extends(m, g[..k+1]) then k + 1 else KeepLength(m, g[..k])
  {
    assert g[..k+1][..k] == g[..k];
  }

  lemma BackoffsStart(m: Model, c: seq<Word>)
    requires c != [] && [c[0]] in m.table
    ensures BackoffsBeyond(m, c, 0, [m.table[[c[0]]].backoff])
  {
    assert c[..1] == [c[0]];
  }

  lemma AppendBackoff(m: Model, full: Gram, start: nat, b: seq<Backoff>, next: Gram)
    requires BackoffsBeyond(m, full, start, b) && start + |b| < |full|
    requires next == full[..start+|b|+1] && next in m.table
    ensures BackoffsBeyond(m, full, start, b + [m.table[next].backoff])
  {}

  function Found(m: Model, node: Gram): (ret: FullScoreReturn)
    requires node in m.table
  {
    FullScoreReturn(m.table[node].prob, |node|, !m.table[node].extendsLeft, node, m.table[node].prob)
  }

  /** The state of a walk over `full` that has found its prefix `node`. */
  ghost predicate Walked(m: Model, full: Gram, start: nat, startUse: nat, node: Gram,
                         backoffOut: seq<Backoff>, nextUse: nat) {
    && 1 <= start <= |node| < m.order && node <= full && node in m.table
    && |backoffOut| == |node| - start
    && BackoffsBeyond(m, full, start, backoffOut)
    && nextUse == UseAfter(m, node, start, startUse)
  }

  lemma WalkStep(m: Model, full: Gram, start: nat, startUse: nat, node: Gram,
                 backoffOut: seq<Backoff>, nextUse: nat, next: Gram)
    requires Walked(m, full, start, startUse, node, backoffOut, nextUse)
    requires |node| + 1 < m.order && |node| < |full| && next == node + [full[|node|]] && next in m.table
    ensures Walked(m, full, start, startUse, next, backoffOut + [m.table[next].backoff],
                   if m.table[next].backoff.extendsRight then |next| else nextUse)
  {
    assert full[..|node|+1] == next;
    AppendBackoff(m, full, start, backoffOut, next);
    KeepExtend(m, full, |node|);
    assert full[..|node|] == node;
  }

  /** The walk may stop at a prefix that is all there is, that has no longer entry, or that
      does not extend left. */
  lemma WalkStop(m: Model, full: Gram, start: nat, startUse: nat, node: Gram,
                 backoffOut: seq<Backoff>, nextUse: nat)
    requires WellFormed(m) && Walked(m, full, start, startUse, node, backoffOut, nextUse)
    requires node == full || !m.table[node].extendsLeft || node + [full[|node|]] !in m.table
    ensures MatchLength(m, full) == |node| && full[..|node|] == node
    ensures nextUse == UseAfter(m, full, start, startUse)
  {
    assert full[..|node|] == node;
    assert |node| < |full| ==> full[..|node|+1] == node + [full[|node|]];
    MatchIs(m, full, |node|);
    KeepOfMatch(m, full, |node|);
  }

  lemma WalkLongest(m: Model, full: Gram, start: nat, startUse: nat, node: Gram,
                    backoffOut: seq<Backoff>, nextUse: nat)
    requires WellFormed(m) && Walked(m, full, start, startUse, node, backoffOut, nextUse)
    requires |node| + 1 == m.order <= |full| && node + [full[|node|]] in m.table
    ensures full[..m.order] == node + [full[|node|]] && MatchLength(m, full) == m.order
    ensures nextUse == UseAfter(m, full, start, startUse)
  {
    assert full[..|node|+1] == node + [full[|node|]];
    assert m.order < |full| ==> full[..m.order+1] !in m.table;
    MatchIs(m, full, m.order);
    KeepOfMatch(m, full, m.order);
    KeepExtend(m, full, |node|);
    assert full[..|node|] == node;
  }

  /** Look up longer and longer n-grams.  `node` is the n-gram reached so far. */
  method ResumeScore(m: Model, hist: seq<Word>, startOrderMinus2: nat, startNode: Gram,
                     startUse: nat, startRet: FullScoreReturn)
    returns (backoffOut: seq<Backoff>, nextUse: nat, ret: FullScoreReturn)
    requires WellFormed(m) && startNode in m.table && |startNode| == startOrderMinus2 + 1 < m.order
    requires startRet == Found(m, startNode)
    ensures WalkResult(m, startNode + hist, |startNode|, ret)
    ensures nextUse == UseAfter(m, startNode + hist, |startNode|, startUse)
    ensures |backoffOut| == (if ret.ngramLength < m.order then ret.ngramLength else m.order - 1) - |startNode|
    ensures BackoffsBeyond(m, startNode + hist, |startNode|, backoffOut)
  {
    ghost var full, start := startNode + hist, |startNode|;
    var node, orderMinus2, i := startNode, startOrderMinus2, 0;
    backoffOut, nextUse, ret := [], startUse, startRet;
    while i < |hist| && !ret.independentLeft && orderMinus2 != m.order - 2
      invariant 0 <= i <= |hist| && |node| == start + i == orderMinus2 + 1
      invariant Walked(m, full, start, startUse, node, backoffOut, nextUse)
      invariant ret == Found(m, node)
    {
      var next := node + [hist[i]];
      if next !in m.table {
        WalkStop(m, full, start, startUse, node, backoffOut, nextUse);
        ret := ret.(independentLeft := true);
        return;
      }
      WalkStep(m, full, start, startUse, node, backoffOut, nextUse, next);
      var found := m.table[next];
      backoffOut := backoffOut + [found.backoff];
      ret := FullScoreReturn(found.prob, orderMinus2 + 2, !found.extendsLeft, next, found.prob);
      if found.backoff.extendsRight {
        nextUse := ret.ngramLength;
      }
      node, orderMinus2, i := next, orderMinus2 + 1, i + 1;
    }
    if i == |hist| || ret.independentLeft {
      WalkStop(m, full, start, startUse, node, backoffOut, nextUse);
      return;
    }
    ret := ret.(independentLeft := true);
    var longest := node + [hist[i]];
    if longest in m.table {
      WalkLongest(m, full, start, startUse, node, backoffOut, nextUse);
      ret := ret.(prob := m.table[longest].prob, rest := m.table[longest].prob, ngramLength := m.order);
    } else {
      WalkStop(m, full, start, startUse, node, backoffOut, nextUse);
    }
  }

  lemma PrependBackoff(m: Model, full: Gram, more: seq<Backoff>)
    requires full != [] && [full[0]] in m.table && BackoffsBeyond(m, full, 1, more)
    ensures BackoffsBeyond(m, full, 0, [m.table[[full[0]]].backoff] + more)
  {
    assert full[..1] == [full[0]];
  }

  lemma MinimalState(m: Model, full: Gram, backoff: seq<Backoff>)
    requires WellFormed(m) && Known(m, full) && BackoffsBeyond(m, full, 0, backoff)
    requires KeepLength(m, full) <= |backoff|
    ensures MinimalFor(m, full, State(full[..KeepLength(m, full)], backoff[..KeepLength(m, full)]))
  {
    var k := KeepLength(m, full);
    KeepLeMatch(m, full);
    forall j {:trigger full[..k][..j]} | 0 <= j <= k ensures full[..k][..j] == full[..j] { PrefixOfPrefix(full, k, j); }
  }

  /** Score `w` after `context` without the backoffs, and make the state for the next word. */
  method ScoreExceptBackoff(m: Model, context: seq<Word>, w: Word) returns (ret: FullScoreReturn, out: State)
    requires WellFormed(m) && Known(m, context) && [w] in m.table
    ensures WalkResult(m, [w] + context, 1, ret)
    ensures MinimalFor(m, [w] + context, out)
  {
    ghost var full := [w] + context;
    assert full[..1] == [w];
    KeepExtend(m, full, 0);
    var uni := m.table[[w]];
    ret := Found(m, [w]);
    var length := if uni.backoff.extendsRight then 1 else 0;
    var backoff: seq<Backoff> := [];
    if context == [] {
      assert full == [w];
      MatchIs(m, full, 1);
    } else {
      backoff, length, ret := ResumeScore(m, context, 0, [w], length, ret);
    }
    assert length == KeepLength(m, full);
    PrependBackoff(m, full, backoff);
    KeepLeMatch(m, full);
    MinimalState(m, full, [uni.backoff] + backoff);
    out := State(([w] + context)[..length], ([uni.backoff] + backoff)[..length]);
  }

  /** Adding up saved backoffs charges the contexts they belong to. */
  lemma {:induction false} SumValuesIsBackoffSum(m: Model, full: Gram, start: nat, b: seq<Backoff>, from: nat)
    requires BackoffsBeyond(m, full, start, b) && from <= |b|
    ensures SumValues(b, from) == BackoffSum(m, full[..start+|b|], start + from)
    decreases |b| - from
  {
    var h := full[..start+|b|];
    if from < |b| {
      SumValuesIsBackoffSum(m, full, start, b, from + 1);
      BackoffSumSplit(m, h, start + from, start + from + 1);
      PrefixOfPrefix(full, start + |b|, start + from + 1);
      PrefixOfPrefix(full, start + from + 1, start + from);
      assert b[from] == m.table[full[..start+from+1]].backoff;
    }
  }

  method AddBackoffs(b: seq<Backoff>, from: nat) returns (sum: real)
    requires from <= |b|
    ensures sum == SumValues(b, from)
  {
    sum := 0.0;
    var i := from;
    while i < |b|
      invariant from <= i <= |b|
      invariant sum + SumValues(b, i) == SumValues(b, from)
    {
      sum := sum + b[i].value;
      i := i + 1;
    }
  }

  /** Predict `w` after the words of `s`: the probability is the recursion's, and the
      new state is the shortest that serves. */
  method FullScore(m: Model, s: State, w: Word) returns (ret: FullScoreReturn, out: State)
    requires WellFormed(m) && ValidState(m, s) && [w] in m.table
    ensures ret.prob == Score(m, s.words, w)
    ensures WalkResult(m, [w] + s.words, 1, ret.(prob := ret.rest))
    ensures MinimalFor(m, [w] + s.words, out)
  {
    ret, out := ScoreExceptBackoff(m, s.words, w);
    ScoreByMatch(m, s.words, w);
    SumValuesIsBackoffSum(m, s.words, 0, s.backoff, ret.ngramLength - 1);
    assert s.words[..|s.backoff|] == s.words;
    var charge := AddBackoffs(s.backoff, ret.ngramLength - 1);
    ret := ret.(prob := ret.prob + charge);
  }

  /** The state holding only the word `bos`; it keeps the word even if nothing follows it. */
  function BeginSentence(m: Model, bos: Word): (state: State)
    requires [bos] in m.table
  {
    State([bos], [m.table[[bos]].backoff])
  }

  lemma BeginSentenceFor(m: Model, bos: Word)
    requires WellFormed(m) && [bos] in m.table
    ensures StateFor(m, [bos], BeginSentence(m, bos))
  {
    assert [bos][..1] == [bos];
  }

  lemma MinimalIsAdequate(m: Model, h: seq<Word>, s: State)
    requires WellFormed(m) && MinimalFor(m, h, s)
    ensures StateFor(m, h, s) && BackoffSum(m, h, |s.words|) == 0.0
  {
    KeepIsAdequate(m, h);
  }

  /** Any adequate state predicts like the whole history, up to the backoffs it dropped,
      and one word later the minimal state of the whole history is reached. */
  lemma ScoreFromState(m: Model, h: seq<Word>, s: State, w: Word, out: State)
    requires WellFormed(m) && StateFor(m, h, s) && [w] in m.table
    requires MinimalFor(m, [w] + s.words, out)
    ensures Score(m, h, w) == BackoffSum(m, h, |s.words|) + Score(m, s.words, w)
    ensures MinimalFor(m, [w] + h, out)
  {
    assert s.words == h[..|s.words|];
    AdequateScore(m, h, |s.words|, w);
    KeepAfterWord(m, h, |s.words|, w);
  }

  /** The history after reading `words` left to right on top of `h`. */
  function Read(h: seq<Word>, words: seq<Word>): (after: seq<Word>)
    decreases words
  {
    if words == [] then h else Read([words[0]] + h, words[1..])
  }

  lemma ReadSnoc(h: seq<Word>, words: seq<Word>, w: Word)
    ensures Read(h, words + [w]) == [w] + Read(h, words)
    decreases words
  {
    if words != [] {
      assert (words + [w])[1..] == words[1..] + [w];
      ReadSnoc([words[0]] + h, words[1..], w);
    }
  }

  /** State minimisation is lossless: from the null context or the beginning of a sentence,
      every probability along the way is the recursion's over the whole history. */
  method ScoreWords(m: Model, start: State, ghost h: seq<Word>, words: seq<Word>)
    returns (probs: seq<real>, state: State)
    requires WellFormed(m) && Known(m, words)
    requires StateFor(m, h, start) && BackoffSum(m, h, |start.words|) == 0.0
    ensures |probs| == |words|
    ensures forall i :: 0 <= i < |words| ==> probs[i] == Score(m, Read(h, words[..i]), words[i])
    ensures StateFor(m, Read(h, words), state)
    ensures words != [] ==> MinimalFor(m, Read(h, words), state)
  {
    hide WellFormed, Score, BackoffSum, KeepLength, WalkResult, ValidState, Adequate;
    probs, state := [], start;
    var i := 0;
    while i < |words|
      invariant 0 <= i <= |words| && |probs| == i
      invariant forall j :: 0 <= j < i ==> probs[j] == Score(m, Read(h, words[..j]), words[j])
      invariant StateFor(m, Read(h, words[..i]), state)
      invariant BackoffSum(m, Read(h, words[..i]), |state.words|) == 0.0
      invariant i > 0 ==> MinimalFor(m, Read(h, words[..i]), state)
    {
      var ret, out := FullScore(m, state, words[i]);
      ScoreFromState(m, Read(h, words[..i]), state, words[i], out);
      ReadSnoc(h, words[..i], words[i]);
      assert words[..i] + [words[i]] == words[..i+1];
      MinimalIsAdequate(m, Read(h, words[..i+1]), out);
      probs := probs + [ret.prob];
      state := out;
      i := i + 1;
    }
    assert words[..i] == words;
  }

  // ----- the stateless queries

  function Truncated(m: Model, context: seq<Word>): (kept: seq<Word>)
    requires m.order >= 1
  {
    if |context| < m.order then context else context[..m.order-1]
  }

  lemma KeepTruncated(m: Model, context: seq<Word>)
    requires WellFormed(m)
    ensures KeepLength(m, Truncated(m, context)) == KeepLength(m, context)
    ensures Truncated(m, context)[..KeepLength(m, context)] == context[..KeepLength(m, context)]
  {
    var t, k := Truncated(m, context), KeepLength(m, context);
    KeepLeMatch(m, context);
    hide WellFormed, MatchLength;
    forall j {:trigger t[..j]} | 0 <= j <= |t| ensures t[..j] == context[..j] {}
    KeepIs(m, t, k);
  }

  lemma NotStoredNext(m: Model, c: seq<Word>, i: nat)
    requires WellFormed(m) && 1 <= i < |c| && c[..i] in m.table && c[..i+1] !in m.table
    ensures KeepLength(m, c[..i]) == KeepLength(m, c) <= i
  {
    MatchIs(m, c, i);
    KeepOfMatch(m, c, i);
  }

  /** Look up longer and longer contexts, saving their backoffs. */
  method WalkContext(m: Model, c: seq<Word>) returns (backoff: seq<Backoff>, length: nat)
    requires WellFormed(m) && c != [] && [c[0]] in m.table
    ensures BackoffsBeyond(m, c, 0, backoff)
    ensures length == KeepLength(m, c) <= |backoff|
  {
    hide WellFormed, MatchLength, KeepLength, BackoffsBeyond;
    assert c[..1] == [c[0]];
    BackoffsStart(m, c);
    KeepExtend(m, c, 0);
    backoff := [m.table[[c[0]]].backoff];
    length := if backoff[0].extendsRight then 1 else 0;
    var node, i := [c[0]], 1;
    while i < |c|
      invariant 1 <= i <= |c| && node == c[..i] && node in m.table && |backoff| == i
      invariant BackoffsBeyond(m, c, 0, backoff)
      invariant length == KeepLength(m, c[..i])
    {
      node := node + [c[i]];
      assert node == c[..i+1];
      KeepExtend(m, c, i);
      if node !in m.table {
        NotStoredNext(m, c, i);
        return;
      }
      AppendBackoff(m, c, 0, backoff, node);
      backoff := backoff + [m.table[node].backoff];
      if m.table[node].backoff.extendsRight {
        length := i + 1;
      }
      i := i + 1;
    }
    assert c[..|c|] == c;
  }

  /** The minimal state of a context, read off the context's own n-grams. */
  method GetState(m: Model, context: seq<Word>) returns (out: State)
    requires WellFormed(m) && Known(m, context)
    ensures MinimalFor(m, context, out)
  {
    KeepTruncated(m, context);
    var c := Truncated(m, context);
    if c == [] {
      return State([], []);
    }
    assert c[0] in context;
    var backoff, length := WalkContext(m, c);
    MinimalState(m, c, backoff);
    out := State(c[..length], backoff[..length]);
  }

  /** The backoffs of `c[..start]`, `c[..start+1]`, ... as long as those contexts are stored. */
  method ChargeBackoffs(m: Model, c: seq<Word>, start: nat) returns (sum: real)
    requires WellFormed(m) && Known(m, c) && 1 <= start <= |c|
    ensures sum == BackoffSum(m, c, start - 1)
  {
    assert c[..|c|] == c && c[..1] == [c[0]];
    var node, i;
    if start <= 1 {
      // The context's newest word is in the vocabulary.
      node, i := [c[0]], 1;
      sum := m.table[node].backoff.value;
      assert c[..1][..0] == [];
      assert BackoffSum(m, c[..1], 0) == BackoffOf(m, node) + BackoffSum(m, [], 0);
    } else {
      node, i, sum := c[..start-1], start - 1, 0.0;
    }
    hide WellFormed;
    while i < |c|
      invariant start - 1 <= i <= |c| && node == c[..i]
      invariant sum == BackoffSum(m, c[..i], start - 1)
    {
      node := node + [c[i]];
      assert node == c[..i+1] && node[..|node|-1] == c[..i];
      if node !in m.table {
        AbsentBeyond(m, c, i + 1);
        BackoffSumZero(m, c, i);
        break;
      }
      sum := sum + m.table[node].backoff.value;
      i := i + 1;
    }
    BackoffSumSplit(m, c, start - 1, i);
  }

  /** Forgetting the state and remembering all the words gives the same answer. */
  method FullScoreForgotState(m: Model, context: seq<Word>, w: Word) returns (ret: FullScoreReturn, out: State)
    requires WellFormed(m) && Known(m, context) && [w] in m.table
    ensures ret.prob == Score(m, context, w)
    ensures WalkResult(m, [w] + context, 1, ret.(prob := ret.rest))
    ensures MinimalFor(m, [w] + context, out)
  {
    assert m.order >= 2;
    hide WellFormed, Score, KeepLength, MatchLength, ValidState, MinimalFor, Truncated;
    var c := Truncated(m, context);
    TruncatedKnown(m, context);
    ret, out := ScoreExceptBackoff(m, c, w);
    TruncatedWalk(m, context, w, ret);
    TruncatedScore(m, context, w, out);
    ScoreByMatch(m, c, w);
    var start := ret.ngramLength;
    if |c| < start {
      return;
    }
    var charge := ChargeBackoffs(m, c, start);
    ret := ret.(prob := ret.prob + charge);
  }

  lemma AbsentBeyond(m: Model, g: Gram, k: nat)
    requires WellFormed(m) && 1 <= k <= |g| && g[..k] !in m.table
    ensures forall j {:trigger g[..j]} :: k <= j <= |g| ==> g[..j] !in m.table
  {
    forall j {:trigger g[..j]} | k <= j <= |g| ensures g[..j] !in m.table {
      assert g[..j][..k] == g[..k];
    }
  }

  lemma TruncationAdequate(m: Model, context: seq<Word>)
    requires WellFormed(m) && |context| >= m.order
    ensures Adequate(m, context, m.order - 1)
  {
    forall w: Word, j: nat {:trigger [w] + context[..j]} | m.order - 1 < j <= |context|
      ensures [w] + context[..j] !in m.table
    {
      assert |[w] + context[..j]| > m.order;
    }
  }

  lemma TruncatedKnown(m: Model, context: seq<Word>)
    requires WellFormed(m) && Known(m, context)
    ensures Known(m, Truncated(m, context))
  {}

  /** Words beyond the order change neither what matches nor whether the match extends left. */
  lemma TruncatedWalk(m: Model, context: seq<Word>, w: Word, ret: FullScoreReturn)
    requires WellFormed(m) && WalkResult(m, [w] + Truncated(m, context), 1, ret)
    ensures WalkResult(m, [w] + context, 1, ret)
  {
    if |context| >= m.order {
      var full, cut := [w] + context, [w] + Truncated(m, context);
      assert cut == full[..m.order];
      var k := MatchLength(m, cut);
      PrefixOfPrefix(full, m.order, k);
      PrefixOfPrefix(full, m.order, m.order - 1);
      if k < m.order { PrefixOfPrefix(full, m.order, k + 1); }
      MatchIs(m, full, k);
    }
  }

  lemma TruncatedScore(m: Model, context: seq<Word>, w: Word, out: State)
    requires WellFormed(m) && [w] in m.table && MinimalFor(m, [w] + Truncated(m, context), out)
    ensures Score(m, Truncated(m, context), w) == Score(m, context, w) && MinimalFor(m, [w] + context, out)
  {
    hide Score, KeepLength, ValidState;
    if |context| >= m.order {
      OrderBoundsHistory(m, context, w);
      TruncationAdequate(m, context);
      KeepAfterWord(m, context, m.order - 1, w);
    }
  }

  /** Histories that keep the same words give every later word the same probability. */
  lemma {:induction false} SameKept(m: Model, h1: seq<Word>, h2: seq<Word>, between: seq<Word>, w: Word)
    requires WellFormed(m) && h1[..KeepLength(m, h1)] == h2[..KeepLength(m, h2)]
    requires Known(m, between) && [w] in m.table
    ensures Score(m, Read(h1, between), w) == Score(m, Read(h2, between), w)
    decreases |between|
  {
    var k1, k2 := KeepLength(m, h1), KeepLength(m, h2);
    KeepIsAdequate(m, h1);
    KeepIsAdequate(m, h2);
    if between == [] {
      AdequateScore(m, h1, k1, w);
      AdequateScore(m, h2, k2, w);
    } else {
      KeepAfterWord(m, h1, k1, between[0]);
      KeepAfterWord(m, h2, k2, between[0]);
      SameKept(m, [between[0]] + h1, [between[0]] + h2, between[1..], w);
    }
  }

  /** Comparing states by their words alone is sound: minimal states with the same words are
      equal altogether, and every continuation scores the same from both. */
  lemma Recombination(m: Model, h1: seq<Word>, s1: State, h2: seq<Word>, s2: State,
                      between: seq<Word>, w: Word)
    requires WellFormed(m) && MinimalFor(m, h1, s1) && MinimalFor(m, h2, s2) && s1.words == s2.words
    requires Known(m, between) && [w] in m.table
    ensures s1 == s2
    ensures Score(m, Read(h1, between), w) == Score(m, Read(h2, between), w)
  {
    forall i | 0 <= i < |s1.words| ensures s1.backoff[i] == s2.backoff[i] {
      assert s1.words[..i+1] == s2.words[..i+1];
    }
    SameKept(m, h1, h2, between, w);
  }

  // ----- extending a scored fragment to the left

  /** What extending reports: the walk over `full` started at its stored prefix of length `e`,
      the matched n-gram replaced it, and the backoffs `charge` of the contexts across the join
      that the match does not reach were added. */
  ghost predicate Extended(m: Model, full: Gram, e: nat, charge: seq<Backoff>,
                           backoffOut: seq<Backoff>, nextUse: nat, ret: FullScoreReturn) {
    var k := MatchLength(m, full);
    && e <= k == ret.ngramLength <= e + |charge| && k <= m.order
    && 1 <= k && full[..k] in m.table && e <= |full| && full[..e] in m.table
    && ret.rest == m.table[full[..k]].prob - m.table[full[..e]].prob
    && ret.prob == ret.rest + SumValues(charge, k - e)
    && (ret.independentLeft <==> !(k == |full| < m.order && m.table[full].extendsLeft))
    && ret.extendLeft == full[..if k < m.order then k else m.order - 1]
    && nextUse == UseAfter(m, full, e, e) - e <= |backoffOut|
    && BackoffsBeyond(m, full, e, backoffOut)
  }

  /** Continue the walk that found `pointer` with the older words `add`; the result is
      relative to what was charged for `pointer` before. */
  method ExtendLeft(m: Model, add: seq<Word>, backoffIn: seq<Backoff>, pointer: Gram, extendLength: nat)
    returns (backoffOut: seq<Backoff>, nextUse: nat, ret: FullScoreReturn)
    requires WellFormed(m) && |backoffIn| >= |add|
    requires pointer in m.table && m.table[pointer].extendsLeft && |pointer| == extendLength < m.order
    ensures Extended(m, pointer + add, extendLength, backoffIn[..|add|], backoffOut, nextUse, ret)
  {
    var subtractMe := m.table[pointer].prob;
    KeepLeMatch(m, pointer + add);
    assert (pointer + add)[..extendLength] == pointer;
    backoffOut, nextUse, ret := ResumeScore(m, add, extendLength - 1, pointer, extendLength, Found(m, pointer));
    nextUse := nextUse - extendLength;
    var charge := AddBackoffs(backoffIn[..|add|], ret.ngramLength - extendLength);
    ret := ret.(prob := ret.prob + charge - subtractMe, rest := ret.rest - subtractMe);
  }
}
