/**
 Scoring does not depend on how the words of a sentence are grouped: what that
 means exactly, when it holds, and what happens when it does not.
 */
module Bracketing {
  import opened NGrams
  import opened Scoring
  import opened Fragments
  import opened RuleScoring

  /** A derivation; children are in reading order. */
  datatype Tree = Leaf(word: Word) | Node(children: seq<Tree>)

  /** The words of a tree, newest first. */
  function Yield(t: Tree): (words: seq<Word>) {
    match t
    case Leaf(w) => [w]
    case Node(children) => Yields(children)
  }

  function Yields(ts: seq<Tree>): (words: seq<Word>) {
    if ts == [] then [] else Yields(ts[1..]) + Yield(ts[0])
  }

  lemma {:induction false} YieldsSnoc(ts: seq<Tree>, t: Tree)
    ensures Yields(ts + [t]) == Yield(t) + Yields(ts)
  {
    if ts == [] {
      assert ts + [t] == [t];
    } else {
      assert (ts + [t])[1..] == ts[1..] + [t];
      YieldsSnoc(ts[1..], t);
    }
  }

  lemma KnownChild(m: Model, ts: seq<Tree>, i: nat)
    requires i < |ts| && Known(m, Yields(ts))
    ensures Known(m, Yield(ts[i]))
    ensures ts[i].Leaf? ==> [ts[i].word] in m.table
  {
    YieldIn(ts, i);
    assert ts[i].Leaf? ==> ts[i].word in Yield(ts[i]);
  }

  lemma YieldIn(ts: seq<Tree>, i: nat)
    requires i < |ts|
    ensures forall w :: w in Yield(ts[i]) ==> w in Yields(ts)
  {
    if i > 0 { YieldIn(ts[1..], i - 1); }
  }

  /** Apply one rule: its children from left to right. */
  method ScoreChildren(r: RuleScore, ts: seq<Tree>, afterBegin: bool)
    requires r.Valid() && r.h == [] && Known(r.m, Yields(ts)) && (afterBegin <==> r.ctx != [])
    modifies r
    ensures r.Valid() && r.h == Yields(ts) && r.ctx == old(r.ctx)
    decreases ts, 1
  {
    hide WellFormed, Scored, Chart, Known;
    var i := 0;
    while i < |ts|
      invariant 0 <= i <= |ts|
      invariant r.Valid() && r.h == Yields(ts[..i]) && r.ctx == old(r.ctx)
    {
      KnownChild(r.m, ts, i);
      YieldsSnoc(ts[..i], ts[i]);
      assert ts[..i] + [ts[i]] == ts[..i+1];
      if ts[i].Leaf? {
        r.Terminal(ts[i].word);
      } else {
        ScoreNode(r, ts, i, afterBegin);
      }
      i := i + 1;
    }
    assert ts[..i] == ts;
  }

  /** A child that is a tree of its own is scored first; it opens the rule if nothing comes before it. */
  method ScoreNode(r: RuleScore, ts: seq<Tree>, i: nat, afterBegin: bool)
    requires r.Valid() && i < |ts| && r.h == Yields(ts[..i]) && Known(r.m, Yield(ts[i]))
    requires afterBegin <==> r.ctx != []
    modifies r
    ensures r.Valid() && r.h == Yield(ts[i]) + old(r.h) && r.ctx == old(r.ctx)
    decreases ts, 0
  {
    hide WellFormed, Scored, Chart, Known;
    ValidMeans(r);
    var c, prob := ScoreTree(r.m, ts[i]);
    if i == 0 && !afterBegin {
      assert Yield(ts[i]) + [] == Yield(ts[i]);
      r.BeginNonTerminal(c, prob, Yield(ts[i]));
    } else {
      r.NonTerminal(c, prob, Yield(ts[i]));
    }
  }

  lemma ValidMeans(r: RuleScore)
    requires r.Valid()
    ensures WellFormed(r.m)
  {}

  /** Score a tree bottom up: every subtree becomes a chart state that its parent joins. */
  method ScoreTree(m: Model, t: Tree) returns (c: ChartState, prob: real)
    requires WellFormed(m) && Known(m, Yield(t))
    ensures Chart(m, Yield(t), c, prob)
    decreases t, 2
  {
    hide WellFormed, Scored, Chart;
    var r := new RuleScore(m);
    match t {
      case Leaf(w) =>
        assert w in Yield(t);
        r.Terminal(w);
      case Node(children) =>
        ScoreChildren(r, children, false);
    }
    assert r.h == Yield(t);
    prob := r.Finish();
    c := r.out;
  }

  /** Score a whole sentence, given as a rule opened by the beginning of sentence. */
  method ScoreSentence(m: Model, bos: Word, ts: seq<Tree>) returns (right: State, prob: real)
    requires WellFormed(m) && [bos] in m.table && Known(m, Yields(ts))
    ensures StateFor(m, Yields(ts) + [bos], right)
    ensures prob == TotalAfter(m, Yields(ts), [bos]) + BackoffSum(m, Yields(ts) + [bos], |right.words|)
    ensures SilentFor(m, Yields(ts) + [bos]) ==> prob == TotalAfter(m, Yields(ts), [bos])
    ensures ClosedFor(m, Yields(ts) + [bos]) ==> prob == TotalAfter(m, Yields(ts), [bos])
    ensures ClosedFor(m, Yields(ts) + [bos]) && Yields(ts) != [] ==> MinimalFor(m, Yields(ts) + [bos], right)
  {
    hide WellFormed, Scored, Score, BackoffSum, KeepLength, ClosedFor, SilentFor, Adequate, ValidState;
    var r := new RuleScore(m);
    r.BeginSentence(bos);
    ScoreChildren(r, ts, true);
    prob := r.Finish();
    right := r.out.right;
    ScoredMeans(m, [bos], Yields(ts), r.out.left.pointers, r.leftDone, right, prob);
  }

  /** What the description of a fragment is worth. */
  lemma ScoredMeans(m: Model, ctx: seq<Word>, h: seq<Word>, pointers: seq<Gram>, done: bool, right: State, prob: real)
    requires WellFormed(m) && Scored(m, ctx, h, pointers, done, right, prob)
    ensures StateFor(m, h + ctx, right)
    ensures prob == TotalAfter(m, h, ctx) + BackoffSum(m, h + ctx, |right.words|)
    ensures SilentFor(m, h + ctx) || ClosedFor(m, h + ctx) || h == [] ==> prob == TotalAfter(m, h, ctx)
    ensures ClosedFor(m, h + ctx) && h != [] ==> MinimalFor(m, h + ctx, right)
  {
    hide SilentFor, ClosedFor, Kept, WellFormed;
    var full, ended := h + ctx, ctx == [] && Ended(done, |pointers|, |h|, m.order);
    if h == [] {
      assert full == ctx;
    } else {
      if ClosedFor(m, full) {
        ClosedSilent(m, full);
        KeptClosed(m, full, |right.words|, ended);
      }
      if SilentFor(m, full) { KeptSilent(m, full, |right.words|, ended); }
    }
  }

  // ----- against reading left to right

  /** Score the words one by one from a starting state, adding up `FullScore`. */
  method LeftToRight(m: Model, start: State, ghost ctx: seq<Word>, words: seq<Word>)
    returns (right: State, prob: real)
    requires WellFormed(m) && Known(m, words) && Known(m, ctx)
    requires StateFor(m, ctx, start) && start.words == ctx
    ensures Known(m, Read([], words))
    ensures prob == TotalAfter(m, Read([], words), ctx)
    ensures words != [] ==> MinimalFor(m, Read([], words) + ctx, right)
  {
    hide WellFormed, Score, BackoffSum, KeepLength, Adequate, ValidState;
    right, prob := start, 0.0;
    var i := 0;
    assert [] + ctx == ctx && ctx[..|ctx|] == ctx;
    BackoffSumAll(m, ctx);
    while i < |words|
      invariant 0 <= i <= |words|
      invariant Known(m, Read([], words[..i])) && prob == TotalAfter(m, Read([], words[..i]), ctx)
      invariant StateFor(m, Read([], words[..i]) + ctx, right)
      invariant BackoffSum(m, Read([], words[..i]) + ctx, |right.words|) == 0.0
      invariant i > 0 ==> MinimalFor(m, Read([], words[..i]) + ctx, right)
    {
      var w := words[i];
      assert w in words;
      ReadSnoc([], words[..i], w);
      assert words[..i] + [w] == words[..i+1];
      ghost var h := Read([], words[..i]);
      var ret, out := FullScore(m, right, w);
      TerminalTotal(m, ctx, h, right, prob, w, out);
      KeptIsMinimal(m, [w] + h + ctx, out);
      prob := prob + ret.prob;
      right := out;
      i := i + 1;
    }
    assert words[..i] == words;
  }

  lemma KeptIsMinimal(m: Model, h: seq<Word>, s: State)
    requires StateFor(m, h, s) && |s.words| == KeepLength(m, h)
    ensures MinimalFor(m, h, s)
  {}

  // ----- the condition is necessary

  /** Read the words of `h` with `Terminal` alone. */
  method ScoreFlat(m: Model, h: seq<Word>) returns (c: ChartState, prob: real)
    requires WellFormed(m) && Known(m, h) && h != []
    ensures Chart(m, h, c, prob) && MinimalFor(m, h, c.right) && prob == TotalAfter(m, h, [])
  {
    hide WellFormed, Scored, Score, BackoffSum, KeepLength, TotalAfter, ValidState;
    var r := new RuleScore(m);
    var i := |h|;
    while i > 0
      invariant 0 <= i <= |h| && r.Valid() && r.h == h[i..] && r.ctx == []
      invariant i < |h| ==> MinimalFor(m, h[i..] + [], r.out.right) && Known(m, h[i..])
      invariant i < |h| ==> r.prob == TotalAfter(m, h[i..], [])
    {
      i := i - 1;
      assert h[i] in h && h[i..] == [h[i]] + h[i+1..];
      r.Terminal(h[i]);
      ScoredKnown(m, [], h[i..], r.out.left.pointers, r.leftDone, r.out.right, r.prob);
    }
    assert h[i..] == h && h + [] == h;
    prob := r.Finish();
    c := r.out;
  }

  lemma ScoredKnown(m: Model, ctx: seq<Word>, h: seq<Word>, pointers: seq<Gram>, done: bool, right: State, prob: real)
    requires Scored(m, ctx, h, pointers, done, right, prob)
    ensures Known(m, h)
  {}

  /** With exact right marks, an n-gram extends right although it no longer does without its oldest word only
      if it has a backoff: an n-gram that follows it would also follow the shorter one. */
  lemma GapBackoff(m: Model, q: seq<Word>, x: Word)
    requires WellFormed(m) && RightExact(m) && q != [] && Extends(m, q + [x]) && !Extends(m, q)
    ensures BackoffOf(m, q + [x]) != 0.0
  {
    if w: Word :| [w] + (q + [x]) in m.table {
      var longer := [w] + (q + [x]);
      DropOldest(m, longer, |q| + 1);
      assert longer[..|q|+1] == [w] + q;
      ContextExtends(m, w, q);
    }
  }

  /** Where the newest `k` words of a fragment do not extend right, joining them as a fragment of their own leaves
      their state as the right state, and charges the backoffs of all longer contexts early: another right state if
      one of these extends, another score if their backoffs do not add to zero. */
  method BracketingGap(m: Model, h: seq<Word>, k: nat)
    returns (flat: ChartState, flatProb: real, nested: ChartState, nestedProb: real)
    requires WellFormed(m) && Known(m, h) && 1 <= k < |h| && !Extends(m, h[..k])
    ensures Chart(m, h, flat, flatProb) && Chart(m, h, nested, nestedProb)
    ensures MinimalFor(m, h, flat.right) && flatProb == TotalAfter(m, h, [])
    ensures MinimalFor(m, h[..k], nested.right) && nestedProb == flatProb + BackoffSum(m, h, k)
    ensures KeepLength(m, h) > k ==> nested.right.words != flat.right.words
  {
    hide WellFormed, Scored, Score, BackoffSum, KeepLength, TotalAfter, ValidState, Chart, Known, Extends;
    var q, older := h[..k], h[k..];
    assert h == q + older;
    KnownPieces(m, q, older);
    var left, leftProb := ScoreFlat(m, older);
    var right, rightProb := ScoreFlat(m, q);
    flat, flatProb := ScoreFlat(m, h);
    var r := new RuleScore(m);
    r.BeginNonTerminal(left, leftProb, older);
    ClosedEnd(m, q, right, rightProb);
    r.NonTerminal(right, rightProb, q);
    nestedProb := r.Finish();
    nested := r.out;
    assert h + [] == h;
    ChartMeans(m, h, nested, nestedProb);
    SplitSum(m, h, k);
  }

  lemma ChartMeans(m: Model, h: seq<Word>, c: ChartState, prob: real)
    requires Chart(m, h, c, prob)
    ensures Known(m, h) && prob == TotalAfter(m, h, []) + BackoffSum(m, h, |c.right.words|)
  {
    assert h + [] == h;
  }

  /** The state of the newest `k` words forgets exactly the backoffs of longer contexts. */
  lemma SplitSum(m: Model, h: seq<Word>, k: nat)
    requires WellFormed(m) && k <= |h|
    ensures BackoffSum(m, h, KeepLength(m, h[..k])) == BackoffSum(m, h, k)
  {
    hide BackoffSum, Adequate;
    KeepIsAdequate(m, h[..k]);
    BackoffSumSplit(m, h, KeepLength(m, h[..k]), k);
  }

  /** The same for whole sentences: the older words are read one by one after the beginning of sentence, and then the
      newest `k`, which do not extend right, are joined as a fragment.  `k` may be all of them. */
  method SentenceGap(m: Model, bos: Word, h: seq<Word>, k: nat)
    returns (flat: State, flatProb: real, nested: State, nestedProb: real)
    requires WellFormed(m) && [bos] in m.table && Known(m, h) && bos !in h
    requires 1 <= k <= |h| && !Extends(m, h[..k])
    ensures flatProb == TotalAfter(m, h, [bos]) && MinimalFor(m, h + [bos], flat)
    ensures StateFor(m, h + [bos], nested) && MinimalFor(m, h[..k], nested)
    ensures nestedProb == flatProb + BackoffSum(m, h + [bos], k)
    ensures KeepLength(m, h + [bos]) > k ==> nested.words != flat.words
  {
    hide WellFormed, Scored, Score, BackoffSum, KeepLength, TotalAfter, ValidState, Chart, Known, Extends, Adequate;
    var q, older := h[..k], h[k..];
    assert h == q + older;
    KnownPieces(m, q, older);
    flat, flatProb := ReadSentence(m, bos, h);
    var fragment, fragmentProb := ScoreFlat(m, q);
    ClosedEnd(m, q, fragment, fragmentProb);
    var r := new RuleScore(m);
    r.BeginSentence(bos);
    AddFlat(r, older);
    r.NonTerminal(fragment, fragmentProb, q);
    nestedProb := r.Finish();
    nested := r.out.right;
    ScoredMeans(m, [bos], h, r.out.left.pointers, r.leftDone, nested, nestedProb);
    assert (h + [bos])[..k] == q;
    SplitSum(m, h + [bos], k);
  }

  /** Score a whole sentence left to right. */
  method ReadSentence(m: Model, bos: Word, h: seq<Word>) returns (right: State, prob: real)
    requires WellFormed(m) && [bos] in m.table && Known(m, h) && h != []
    ensures prob == TotalAfter(m, h, [bos]) && MinimalFor(m, h + [bos], right)
  {
    hide WellFormed, Score, BackoffSum, KeepLength, TotalAfter, ValidState, Known;
    var start := BeginSentence(m, bos);
    BeginSentenceFor(m, bos);
    KnownOne(m, bos);
    var words := Reverse(h);
    ReadReverse(h);
    KnownReverse(m, h);
    assert words != [] by { assert h[0] in words; }
    right, prob := LeftToRight(m, start, [bos], words);
  }

  /** Add words one by one. */
  method AddFlat(r: RuleScore, h: seq<Word>)
    requires r.Valid() && Known(r.m, h) && r.h == []
    modifies r
    ensures r.Valid() && r.h == h && r.ctx == old(r.ctx)
  {
    hide WellFormed, Scored;
    var i := |h|;
    while i > 0
      invariant 0 <= i <= |h| && r.Valid() && r.h == h[i..] && r.ctx == old(r.ctx)
    {
      i := i - 1;
      assert h[i] in h && h[i..] == [h[i]] + h[i+1..];
      r.Terminal(h[i]);
    }
    assert h[i..] == h;
  }

  /** Oldest word first. */
  function Reverse(h: seq<Word>): (r: seq<Word>)
    ensures |r| == |h| && forall w :: w in r <==> w in h
  {
    if h == [] then [] else Reverse(h[1..]) + [h[0]]
  }

  lemma {:induction false} ReadReverse(h: seq<Word>)
    ensures Read([], Reverse(h)) == h
  {
    if h != [] {
      ReadReverse(h[1..]);
      ReadSnoc([], Reverse(h[1..]), h[0]);
      assert h == [h[0]] + h[1..];
    }
  }

  lemma KnownReverse(m: Model, h: seq<Word>)
    requires Known(m, h)
    ensures Known(m, Reverse(h))
  {}

  /** A sentence or fragment is closed exactly if no context at its newer end extends right that does not without its
      oldest word. */
  lemma ClosedUnlessGap(m: Model, full: seq<Word>)
    ensures ClosedFor(m, full) <==>
      forall k {:trigger full[..k]} :: 1 <= k < |full| && Extends(m, full[..k+1]) ==> Extends(m, full[..k])
  {
    if forall k {:trigger full[..k]} :: 1 <= k < |full| && Extends(m, full[..k+1]) ==> Extends(m, full[..k]) {
      forall j, k {:trigger full[..j], full[..k]} | 1 <= k < j <= |full| && Extends(m, full[..j])
        ensures Extends(m, full[..k])
      {
        ExtendsDown(m, full, j, k);
      }
    }
  }

  lemma {:induction false} ExtendsDown(m: Model, full: seq<Word>, j: nat, k: nat)
    requires forall i {:trigger full[..i]} :: 1 <= i < |full| && Extends(m, full[..i+1]) ==> Extends(m, full[..i])
    requires 1 <= k < j <= |full| && Extends(m, full[..j])
    ensures Extends(m, full[..k])
    decreases j
  {
    assert Extends(m, full[..j-1]) by { assert full[..j-1+1] == full[..j]; }
    if k < j - 1 { ExtendsDown(m, full, j - 1, k); }
  }

  /** Where a sentence or fragment is not closed, some of its newest words do not extend right, but a longer context
      does: splitting it there changes the state. */
  lemma SplitChangesState(m: Model, full: seq<Word>)
    requires full != []
    ensures ClosedFor(m, full) <==>
      forall k {:trigger full[..k]} :: 1 <= k < |full| && !Extends(m, full[..k]) ==> KeepLength(m, full) <= k
  {
    if ClosedFor(m, full) {
      forall k {:trigger full[..k]} | 1 <= k < |full| && !Extends(m, full[..k]) ensures KeepLength(m, full) <= k {}
    }
    if forall k {:trigger full[..k]} :: 1 <= k < |full| && !Extends(m, full[..k]) ==> KeepLength(m, full) <= k {
      forall j, k {:trigger full[..j], full[..k]} | 1 <= k < j <= |full| && Extends(m, full[..j])
        ensures Extends(m, full[..k])
      {
        assert KeepLength(m, full) >= j;
      }
    }
  }

  /** The longest left state of a fragment. */
  lemma {:induction false} LeftOf(m: Model, h: seq<Word>, n: nat) returns (pointers: seq<Gram>)
    requires WellFormed(m) && h != [] && n <= |h| && n < m.order
    requires forall i {:trigger Oldest(h, i + 1)} :: 0 <= i < n ==>
      Oldest(h, i + 1) in m.table && m.table[Oldest(h, i + 1)].extendsLeft
    requires forall w: Word, x: Word :: [w] + h + [x] !in m.table
    ensures Pointers(m, h, pointers)
    ensures Closed(m, h, |pointers|)
    decreases |h| - n
  {
    pointers := seq(n, i requires 0 <= i < n => Oldest(h, i + 1));
    if n < |h| {
      var next := Oldest(h, n + 1);
      if n + 1 < m.order && next in m.table && m.table[next].extendsLeft {
        pointers := LeftOf(m, h, n + 1);
      } else {
        forall x: Word ensures next + [x] !in m.table {
          NotLengthened(m, next, x);
        }
      }
    }
  }

  lemma NotLengthened(m: Model, g: Gram, x: Word)
    requires WellFormed(m) && g != [] && (|g| == m.order || g !in m.table || !m.table[g].extendsLeft)
    ensures g + [x] !in m.table
  {
    assert (g + [x])[..|g|] == g;
  }

  /** Nothing stored continues a context that is longer than one that does not extend right. */
  lemma SplitAdequate(m: Model, h: seq<Word>, k: nat)
    requires WellFormed(m) && 1 <= k <= |h| && !Extends(m, h[..k])
    ensures Adequate(m, h, KeepLength(m, h[..k]))
    ensures forall w: Word, x: Word :: [w] + h + [x] !in m.table
  {
    var q := h[..k];
    KeepIsAdequate(m, q);
    forall w: Word, g: Gram | g in m.table && |g| > k && g[..k+1] == [w] + q ensures false {
      DropOldest(m, g, k + 1);
      ContextExtends(m, w, q);
    }
    forall w: Word, j: nat {:trigger [w] + h[..j]} | KeepLength(m, q) < j <= |h| ensures [w] + h[..j] !in m.table {
      if j <= k { assert h[..j] == q[..j]; } else { assert ([w] + h[..j])[..k+1] == [w] + q; }
    }
    forall w: Word, x: Word ensures [w] + h + [x] !in m.table {
      assert ([w] + h + [x])[..k+1] == [w] + q;
    }
  }

  lemma StateOf(m: Model, h: seq<Word>, k: nat) returns (s: State)
    requires WellFormed(m) && k <= |h| && (k > 0 ==> Extends(m, h[..k])) && Known(m, h)
    ensures ValidState(m, s) && s.words == h[..k]
  {
    forall j {:trigger h[..k][..j]} | 1 <= j <= k ensures h[..k][..j] in m.table {
      DropOldest(m, h[..k], j);
    }
    s := State(h[..k], seq(k,
        j requires 0 <= j < k => assert h[..k][..j+1] in m.table; m.table[h[..k][..j+1]].backoff));
  }

  /** What a chart state and a score say of the fragment fixes the score. */
  ghost predicate OneScore(m: Model, h: seq<Word>) {
    forall c: ChartState, prob: real :: Chart(m, h, c, prob) ==> prob == TotalAfter(m, h, [])
  }

  /** That is so exactly when no split of the fragment leaves backoffs behind. */
  lemma ExactIffSilent(m: Model, h: seq<Word>)
    requires WellFormed(m) && Known(m, h) && h != []
    ensures SilentFor(m, h) <==> OneScore(m, h)
  {
    hide WellFormed, TotalAfter, KeepLength, BackoffSum, Kept, Pointers, Closed, Adequate, ValidState;
    assert h + [] == h;
    if SilentFor(m, h) {
      forall c: ChartState, prob: real | Chart(m, h, c, prob) ensures prob == TotalAfter(m, h, []) {
        ScoredMeans(m, [], h, c.left.pointers, c.left.full, c.right, prob);
      }
    } else {
      var k: nat :| 1 <= k <= |h| && !Extends(m, h[..k]) && BackoffSum(m, h, k) != 0.0;
      var c, prob := SplitChart(m, h, k);
    }
  }

  /** The description that splitting a fragment after its newest `k` words gives. */
  lemma SplitChart(m: Model, h: seq<Word>, k: nat) returns (c: ChartState, prob: real)
    requires WellFormed(m) && Known(m, h) && 1 <= k <= |h| && !Extends(m, h[..k])
    ensures Chart(m, h, c, prob) && prob == TotalAfter(m, h, []) + BackoffSum(m, h, k)
  {
    hide WellFormed, KeepLength, BackoffSum, Adequate, ValidState, Pointers, Closed, Extends, TotalAfter;
    var q := h[..k];
    SplitAdequate(m, h, k);
    OrderPositive(m);
    var pointers := LeftOf(m, h, 0);
    KeepPrefix(m, q);
    assert h == q + h[k..];
    KnownPieces(m, q, h[k..]);
    var s := StateOf(m, q, KeepLength(m, q));
    SplitSum(m, h, k);
    assert h + [] == h && s.words <= h;
    prob := TotalAfter(m, h, []) + BackoffSum(m, h, k);
    c := ChartState(Left(pointers, true), s);
    var ended := Ended(true, |pointers|, |h|, m.order);
    assert KeptFrom(m, h, |s.words|, ended, k);
    assert StateFor(m, h, s);
  }

  /** With exact right marks, all fragments without the beginning of sentence have one score exactly if all contexts
      that can occur in them are closed. */
  lemma ExactIffClosed(m: Model, bos: Word)
    requires WellFormed(m) && RightExact(m)
    ensures (forall h: seq<Word> :: bos !in h ==> ClosedFor(m, h)) <==>
            (forall h: seq<Word> :: h != [] && bos !in h ==> OneScore(m, h))
  {
    hide WellFormed, RightExact, ClosedFor, OneScore;
    forall h: seq<Word> | h != [] && ClosedFor(m, h) ensures OneScore(m, h) { ClosedExact(m, h); }
    forall h: seq<Word> | bos !in h && !ClosedFor(m, h)
      ensures exists g: seq<Word> :: g != [] && bos !in g && !OneScore(m, g)
    {
      var k := GapWithin(m, h);
      assert h[..k] != [] && bos !in h[..k];
    }
  }

  lemma ClosedExact(m: Model, h: seq<Word>)
    requires WellFormed(m) && h != [] && ClosedFor(m, h)
    ensures OneScore(m, h)
  {
    hide WellFormed, Scored, ClosedFor, SilentFor;
    assert h + [] == h;
    forall c: ChartState, prob: real | Chart(m, h, c, prob)
      ensures Known(m, h) && prob == TotalAfter(m, h, [])
    {
      ScoredKnown(m, [], h, c.left.pointers, c.left.full, c.right, prob);
      ScoredMeans(m, [], h, c.left.pointers, c.left.full, c.right, prob);
    }
  }

  lemma GapWithin(m: Model, h: seq<Word>) returns (k: nat)
    requires WellFormed(m) && RightExact(m) && !ClosedFor(m, h)
    ensures 1 <= k <= |h| && !OneScore(m, h[..k])
  {
    hide WellFormed, RightExact, BackoffSum, ClosedFor, OneScore;
    ClosedUnlessGap(m, h);
    k :| 1 <= k < |h| && Extends(m, h[..k+1]) && !Extends(m, h[..k]);
    var g := h[..k+1];
    assert g[..k] == h[..k] && g == h[..k] + [h[k]];
    GapKnown(m, g);
    GapBackoff(m, h[..k], h[k]);
    LastBackoff(m, g);
    ExactIffSilent(m, g);
    k := k + 1;
  }

  lemma LastBackoff(m: Model, g: seq<Word>)
    requires g != []
    ensures BackoffSum(m, g, |g| - 1) == BackoffOf(m, g)
  {
    assert |g[..|g|-1]| == |g| - 1;
  }

  lemma OrderPositive(m: Model)
    requires WellFormed(m)
    ensures m.order >= 2
  {}

  lemma KeepPrefix(m: Model, q: seq<Word>)
    ensures KeepLength(m, q) <= |q| && (KeepLength(m, q) > 0 ==> Extends(m, q[..KeepLength(m, q)]))
  {}

  /** In a gap all words are known, so it can be scored. */
  lemma GapKnown(m: Model, g: Gram)
    requires WellFormed(m) && g in m.table
    ensures Known(m, g)
  {
    forall w | w in g ensures [w] in m.table {
      var i :| 0 <= i < |g| && g[i] == w;
      assert g[0..] == g && g[i..] in m.table by { if i > 0 { DropNewest(m, g, i); } }
      DropOldest(m, g[i..], 1);
      assert g[i..][..1] == [w];
    }
  }

  lemma KnownOne(m: Model, x: Word)
    requires [x] in m.table
    ensures Known(m, [x])
  {}

  lemma ClosedEnd(m: Model, q: seq<Word>, c: ChartState, prob: real)
    requires Chart(m, q, c, prob) && MinimalFor(m, q, c.right) && q != [] && !Extends(m, q)
    ensures c.left.full
  {
    assert q[..|q|] == q;
  }

  // ----- what always holds

  /** If no n-gram ending in `w` has a backoff, every bracketing of words that end in `w`
      scores exactly the recursion's total, in any model. */
  lemma ExactAtEnd(m: Model, ctx: seq<Word>, h: seq<Word>, pointers: seq<Gram>, done: bool, right: State, prob: real)
    requires WellFormed(m) && Scored(m, ctx, h, pointers, done, right, prob) && h != []
    requires forall g :: g in m.table && g[0] == h[0] ==> m.table[g].backoff.value == 0.0
    ensures prob == TotalAfter(m, h, ctx)
  {
    NoBackoffs(m, h + ctx, |right.words|);
  }

  lemma {:induction false} NoBackoffs(m: Model, h: seq<Word>, k: nat)
    requires WellFormed(m) && k <= |h| && h != []
    requires forall g :: g in m.table && g[0] == h[0] ==> m.table[g].backoff.value == 0.0
    ensures BackoffSum(m, h, k) == 0.0
    decreases |h|
  {
    if k < |h| && |h| > 1 { NoBackoffs(m, h[..|h|-1], k); }
  }

  /** In a model whose left marks are exact, a closed fragment has one score and one chart state, whatever the
      derivation. */
  lemma ChartUnique(m: Model, h: seq<Word>, c1: ChartState, p1: real, c2: ChartState, p2: real)
    requires WellFormed(m) && ClosedFor(m, h) && LeftExact(m) && h != []
    requires Chart(m, h, c1, p1) && Chart(m, h, c2, p2)
    ensures c1 == c2 && p1 == p2
  {
    hide ClosedFor, Kept;
    assert h + [] == h;
    ScoredMeans(m, [], h, c1.left.pointers, c1.left.full, c1.right, p1);
    ScoredMeans(m, [], h, c2.left.pointers, c2.left.full, c2.right, p2);
    LeftNotShorter(m, h, c1, p1, c2, p2);
    LeftNotShorter(m, h, c2, p2, c1, p1);
    forall i | 0 <= i < |c1.left.pointers| ensures c1.left.pointers[i] == c2.left.pointers[i] {}
    forall i | 0 <= i < |c1.right.words| ensures c1.right.backoff[i] == c2.right.backoff[i] {
      assert c1.right.words[..i+1] == c2.right.words[..i+1];
    }
  }

  lemma LeftNotShorter(m: Model, h: seq<Word>, c1: ChartState, p1: real, c2: ChartState, p2: real)
    requires WellFormed(m) && ClosedFor(m, h) && LeftExact(m) && h != []
    requires Chart(m, h, c1, p1) && Chart(m, h, c2, p2)
    ensures |c2.left.pointers| <= |c1.left.pointers|
    ensures c1.left.full && |c1.left.pointers| == |c2.left.pointers| ==> c2.left.full
  {
    hide ClosedFor, Kept;
    var n := |c1.left.pointers|;
    assert h + [] == h && h[..|h|] == h;
    PointerAt(m, h, c2.left.pointers, n);
    if c1.left.full { ClosedStops(m, h, n); }
    KeptClosed(m, h, |c1.right.words|, Ended(c1.left.full, n, |h|, m.order));
    KeptClosed(m, h, |c2.right.words|, Ended(c2.left.full, |c2.left.pointers|, |h|, m.order));
  }

  lemma PointerAt(m: Model, h: seq<Word>, pointers: seq<Gram>, n: nat)
    requires Pointers(m, h, pointers)
    ensures n < |pointers| ==> n < |h| && Oldest(h, n + 1) in m.table && m.table[Oldest(h, n + 1)].extendsLeft
  {
    if n < |pointers| { assert pointers[n] == Oldest(h, n + 1); }
  }

  lemma ClosedStops(m: Model, h: seq<Word>, n: nat)
    requires LeftExact(m) && Closed(m, h, n)
    ensures n < |h| ==> Oldest(h, n + 1) !in m.table || !m.table[Oldest(h, n + 1)].extendsLeft
  {}

  /** `Left::operator==` looks only at the last pointer: it contains the others. */
  lemma LastPointerSuffices(m: Model, h1: seq<Word>, l1: seq<Gram>, h2: seq<Word>, l2: seq<Gram>)
    requires Pointers(m, h1, l1) && Pointers(m, h2, l2)
    requires |l1| == |l2| && (l1 != [] ==> l1[|l1|-1] == l2[|l2|-1])
    ensures l1 == l2
  {
    forall i {:trigger l1[i]} | 0 <= i < |l1| ensures l1[i] == l2[i] {
      var n := |l1|;
      assert Oldest(Oldest(h1, n), i + 1) == Oldest(h1, i + 1);
      assert Oldest(Oldest(h2, n), i + 1) == Oldest(h2, i + 1);
      assert l1[n-1] == Oldest(h1, n) && l2[n-1] == Oldest(h2, n);
    }
  }
}
