/**
 What the score and state of a sentence fragment mean while its left context is
 still unknown, and why fragments can be joined in any order.
 */
module Fragments {
  import opened NGrams
  import opened Scoring

  /** The oldest `k` words of `h`. */
  function Oldest(h: seq<Word>, k: nat): (words: seq<Word>)
    requires k <= |h|
  {
    h[|h|-k..]
  }

  /** The score of all words of `h` when they follow the older words `ctx`. */
  function TotalAfter(m: Model, h: seq<Word>, ctx: seq<Word>): (total: real)
    requires Known(m, h)
  {
    if h == [] then 0.0 else KnownTail(m, h); TotalAfter(m, h[1..], ctx) + Score(m, h[1..] + ctx, h[0])
  }

  lemma KnownTail(m: Model, h: seq<Word>)
    requires Known(m, h) && h != []
    ensures Known(m, h[1..]) && [h[0]] in m.table
  {
    assert h[0] in h;
  }

  lemma KnownPieces(m: Model, a: seq<Word>, b: seq<Word>)
    ensures Known(m, a + b) <==> Known(m, a) && Known(m, b)
  {
    if Known(m, a + b) {
      forall w | w in a ensures [w] in m.table { assert w in a + b; }
      forall w | w in b ensures [w] in m.table { assert w in a + b; }
    }
  }

  /** Every context at the newer end of `full` that extends right still does so without its oldest words. */
  ghost predicate ClosedFor(m: Model, full: seq<Word>) {
    forall j, k {:trigger full[..j], full[..k]} ::
      1 <= k < j <= |full| && Extends(m, full[..j]) ==> Extends(m, full[..k])
  }

  /** No longer context has a backoff left to charge once one does not extend right. */
  ghost predicate SilentFor(m: Model, full: seq<Word>) {
    forall k: nat {:trigger full[..k]} ::
      1 <= k <= |full| && !Extends(m, full[..k]) ==> BackoffSum(m, full, k) == 0.0
  }

  /** The left state: the n-grams made of the oldest words, all of which extend left. */
  ghost predicate Pointers(m: Model, h: seq<Word>, pointers: seq<Gram>) {
    && |pointers| <= |h| && |pointers| < m.order
    && forall i {:trigger pointers[i]} :: 0 <= i < |pointers| ==>
         pointers[i] == Oldest(h, i + 1) && pointers[i] in m.table && m.table[pointers[i]].extendsLeft
  }

  /** Older words to the left can only change the scores of the oldest `n` words, and the
      next one only through backoffs. */
  ghost predicate Closed(m: Model, h: seq<Word>, n: nat) {
    && n <= |h| && h != []
    && (n < |h| ==> forall x: Word :: Oldest(h, n + 1) + [x] !in m.table)
    && (n == |h| ==> forall w: Word, x: Word :: [w] + h + [x] !in m.table)
  }

  /** `r` words are the minimal state of the newest `j` words of `full`, which are all of them or do not extend right;
      a fragment that has `ended` does not extend right in any case. */
  ghost predicate KeptFrom(m: Model, full: seq<Word>, r: nat, ended: bool, j: nat) {
    && 1 <= j <= |full| && r == KeepLength(m, full[..j])
    && (j < |full| || ended ==> !Extends(m, full[..j]))
  }

  ghost predicate Kept(m: Model, full: seq<Word>, r: nat, ended: bool) {
    exists j: nat :: KeptFrom(m, full, r, ended, j)
  }

  /** All words of a finished fragment are in its left state, and not because that is as long as it can be. */
  predicate Ended(done: bool, pointers: nat, length: nat, order: nat) {
    done && pointers == length && pointers != order - 1
  }

  /** The fragment `h` (newest word first) following `ctx`, which is empty or the beginning of
      the sentence, has been scored as `prob` and is described by `pointers` and `right`.
      The score is the recursion's, plus the backoffs of contexts the right state no
      longer holds: those are certain to be charged by whatever word comes next. */
  ghost predicate Scored(m: Model, ctx: seq<Word>, h: seq<Word>,
                         pointers: seq<Gram>, done: bool, right: State, prob: real) {
    && Known(m, ctx) && Known(m, h)
    && StateFor(m, h + ctx, right)
    && prob == TotalAfter(m, h, ctx) + BackoffSum(m, h + ctx, |right.words|)
    && (h == [] ==> right.words == ctx)
    && (h != [] ==> Kept(m, h + ctx, |right.words|, ctx == [] && Ended(done, |pointers|, |h|, m.order)))
    && (!done ==> ctx == [] && |pointers| == |h| == |right.words|)
    && (ctx != [] ==> pointers == [])
    && (ctx == [] ==> Pointers(m, h, pointers))
    && (ctx == [] && done ==> Closed(m, h, |pointers|))
  }

  // ----- what the right state has kept

  lemma KeptAll(m: Model, full: seq<Word>, ended: bool)
    requires full != [] && (ended ==> KeepLength(m, full) < |full|)
    ensures Kept(m, full, KeepLength(m, full), ended)
  {
    assert full[..|full|] == full;
    assert KeptFrom(m, full, KeepLength(m, full), ended, |full|);
  }

  /** The state of the newest words serves for more words if it did not extend right, or nothing longer does. */
  lemma KeptLonger(m: Model, s: seq<Word>, older: seq<Word>, r: nat, was: bool, ended: bool)
    requires Kept(m, s, r, was) && (!was ==> KeepLength(m, s + older) == KeepLength(m, s))
    requires older == [] && ended ==> was
    ensures Kept(m, s + older, r, ended)
  {
    var j: nat :| KeptFrom(m, s, r, was, j);
    assert (s + older)[..j] == s[..j];
    if j < |s| || was {
      assert KeptFrom(m, s + older, r, ended, j);
    } else {
      assert s[..j] == s;
      KeptAll(m, s + older, ended);
    }
  }

  lemma KeptSum(m: Model, full: seq<Word>, r: nat, ended: bool) returns (j: nat)
    requires WellFormed(m) && Kept(m, full, r, ended)
    ensures r <= j && 1 <= j <= |full| && (j < |full| ==> !Extends(m, full[..j]))
    ensures BackoffSum(m, full, r) == BackoffSum(m, full, j)
  {
    j :| KeptFrom(m, full, r, ended, j);
    hide BackoffSum, Adequate;
    BackoffSumSplit(m, full, r, j);
    KeepIsAdequate(m, full[..j]);
  }

  /** Where forgotten contexts have nothing to charge, the score is exact. */
  lemma KeptSilent(m: Model, full: seq<Word>, r: nat, ended: bool)
    requires WellFormed(m) && Kept(m, full, r, ended) && SilentFor(m, full)
    ensures BackoffSum(m, full, r) == 0.0
  {
    hide Kept;
    var j := KeptSum(m, full, r, ended);
    if j == |full| { BackoffSumSelf(m, full); }
  }

  lemma BackoffSumSelf(m: Model, full: seq<Word>)
    ensures BackoffSum(m, full, |full|) == 0.0
  {}

  /** Where contexts are closed, the right state is the minimal one. */
  lemma KeptClosed(m: Model, full: seq<Word>, r: nat, ended: bool)
    requires Kept(m, full, r, ended) && ClosedFor(m, full)
    ensures r == KeepLength(m, full) && (ended ==> !Extends(m, full))
  {
    var j: nat :| KeptFrom(m, full, r, ended, j);
    assert full[..|full|] == full;
    assert r > 0 ==> full[..j][..r] == full[..r];
    forall i {:trigger full[..i]} | r < i <= |full| ensures !Extends(m, full[..i]) {
      if i <= j { assert full[..j][..i] == full[..i]; }
    }
    KeepIs(m, full, r);
  }

  /** Closure leaves nothing to charge. */
  lemma ClosedSilent(m: Model, full: seq<Word>)
    requires WellFormed(m) && ClosedFor(m, full)
    ensures SilentFor(m, full)
  {
    forall k: nat {:trigger full[..k]} | 1 <= k <= |full| && !Extends(m, full[..k])
      ensures BackoffSum(m, full, k) == 0.0
    {
      BackoffSumZero(m, full, k);
    }
  }

  lemma {:induction false} TotalConcat(m: Model, s: seq<Word>, h: seq<Word>, ctx: seq<Word>)
    requires Known(m, s) && Known(m, h)
    ensures Known(m, s + h)
    ensures TotalAfter(m, s + h, ctx) == TotalAfter(m, h, ctx) + TotalAfter(m, s, h + ctx)
    decreases |s|
  {
    KnownPieces(m, s, h);
    if s == [] {
      assert s + h == h;
    } else {
      KnownTail(m, s);
      TotalConcat(m, s[1..], h, ctx);
      assert (s + h)[1..] == s[1..] + h;
      assert (s[1..] + h) + ctx == s[1..] + (h + ctx);
    }
  }

  /** No n-gram joins the word after the oldest `e` words of `s` (or, if there is none, any
      further word) to a word of `older`. */
  ghost predicate CutOff(m: Model, s: seq<Word>, e: nat, older: seq<Word>) {
    && e <= |s|
    && (e < |s| ==> forall j {:trigger older[..j]} :: 1 <= j <= |older| ==> Oldest(s, e + 1) + older[..j] !in m.table)
    && (e == |s| ==> forall w: Word, j {:trigger [w] + s + older[..j]} :: 1 <= j <= |older| ==>
          [w] + s + older[..j] !in m.table)
  }

  /** After a cut the whole fragment joins with nothing older. */
  lemma CutPersists(m: Model, s: seq<Word>, e: nat, older: seq<Word>)
    requires WellFormed(m) && CutOff(m, s, e, older)
    ensures CutOff(m, s, |s|, older)
    ensures e < |s| ==> forall j {:trigger older[..j]} :: 1 <= j <= |older| ==> s + older[..j] !in m.table
  {
    if e < |s| {
      forall j {:trigger older[..j]} | 1 <= j <= |older|
        ensures s + older[..j] !in m.table && forall w: Word :: [w] + s + older[..j] !in m.table
      {
        var g := s + older[..j];
        assert g[|s|-e-1..] == Oldest(s, e + 1) + older[..j];
        forall w: Word ensures [w] + s + older[..j] !in m.table {
          assert [w] + s + older[..j] == [w] + g;
          ContextExtends(m, w, g);
        }
      }
    }
  }

  /** A word that joins with nothing older than `t` is scored from `t` after charging `older`. */
  lemma CutScore(m: Model, t: seq<Word>, older: seq<Word>, a: Word)
    requires [a] in m.table
    requires forall j {:trigger older[..j]} :: 1 <= j <= |older| ==> [a] + t + older[..j] !in m.table
    ensures Score(m, t + older, a) == BackoffSum(m, t + older, |t|) + Score(m, t, a)
  {
    hide Score, BackoffSum;
    var h := t + older;
    forall j {:trigger h[..j]} | |t| < j <= |h| ensures [a] + h[..j] !in m.table {
      SliceAcross(t, older, j - |t|);
      assert [a] + (t + older[..j-|t|]) == [a] + t + older[..j-|t|];
    }
    ScoreTruncate(m, h, a, |t|);
    assert h[..|t|] == t;
  }

  lemma SliceAcross<T>(s: seq<T>, older: seq<T>, n: nat)
    requires n <= |older|
    ensures (s + older)[..|s|+n] == s + older[..n]
  {}

  lemma NoBackoffAcross(m: Model, s: seq<Word>, older: seq<Word>)
    requires WellFormed(m)
    requires forall j {:trigger older[..j]} :: 1 <= j <= |older| ==> !Extends(m, s + older[..j])
    ensures BackoffSum(m, s + older, |s|) == 0.0
  {
    hide WellFormed, BackoffSum;
    var h := s + older;
    forall j {:trigger h[..j]} | |s| < j <= |h| ensures !Extends(m, h[..j]) {
      SliceAcross(s, older, j - |s|);
    }
    BackoffSumZero(m, h, |s|);
  }

  /** Beyond a cut only the backoffs at the cut tell whether `older` is there. */
  lemma {:induction false} BeyondCut(m: Model, s: seq<Word>, e: nat, older: seq<Word>)
    requires WellFormed(m) && Known(m, s) && CutOff(m, s, e, older)
    ensures Known(m, Oldest(s, e))
    ensures TotalAfter(m, s, older) - TotalAfter(m, s, []) + BackoffSum(m, s + older, |s|)
         == TotalAfter(m, Oldest(s, e), older) - TotalAfter(m, Oldest(s, e), [])
            + BackoffSum(m, Oldest(s, e) + older, e)
    decreases |s|
  {
    if e == |s| {
      assert Oldest(s, e) == s;
    } else {
      var a, t := s[0], s[1..];
      KnownTail(m, s);
      assert Oldest(t, e) == Oldest(s, e);
      CutTail(m, s, e, older);
      if e < |t| { BeyondCut(m, t, e, older); } else { assert Oldest(s, e) == t; }
      CutScore(m, t, older, a);
      CutPersists(m, s, e, older);
      NoBackoffAcross(m, s, older);
      assert t + [] == t;
    }
  }

  lemma CutTail(m: Model, s: seq<Word>, e: nat, older: seq<Word>)
    requires WellFormed(m) && CutOff(m, s, e, older) && e < |s|
    ensures e < |s| - 1 ==> CutOff(m, s[1..], e, older)
    ensures forall j {:trigger older[..j]} :: 1 <= j <= |older| ==> [s[0]] + s[1..] + older[..j] !in m.table
  {
    assert e < |s| - 1 ==> Oldest(s[1..], e + 1) == Oldest(s, e + 1);
    assert [s[0]] + s[1..] == s;
    CutPersists(m, s, e, older);
  }

  // ----- joining one word of a fragment at a time to the words older than it

  /** The newest `start` words of `h` have been joined to the older ones, of which only the
      newest `next` can matter from here on; `back` holds the backoffs across the join. */
  ghost predicate Joining(m: Model, h: seq<Word>, start: nat, next: nat, back: seq<Backoff>) {
    && start + next <= |h| && next <= |back|
    && Adequate(m, h, start + next)
    && BackoffsBeyond(m, h, start, back)
  }

  lemma SumUpTo(m: Model, h: Gram, start: nat, back: seq<Backoff>, r: nat, from: nat)
    requires BackoffsBeyond(m, h, start, back) && start + from <= r <= start + |back|
    ensures SumValues(back[..r-start], from) == BackoffSum(m, h[..r], start + from)
  {
    var b := back[..r-start];
    assert BackoffsBeyond(m, h, start, b);
    SumValuesIsBackoffSum(m, h, start, b, from);
  }

  lemma WalkScore(m: Model, h: seq<Word>, a: Word, k: nat)
    requires [a] in m.table && k == MatchLength(m, [a] + h)
    ensures 1 <= k && Score(m, h, a) == m.table[([a] + h)[..k]].prob + BackoffSum(m, h, k - 1)
  {
    ScoreByMatch(m, h, a);
  }

  lemma StoredScore(m: Model, q: seq<Word>, a: Word)
    requires [a] in m.table && [a] + q in m.table
    ensures Score(m, q, a) == m.table[[a] + q].prob
  {
    if q == [] { assert [a] + q == [a]; }
  }

  lemma WalkedDifference(m: Model, h: seq<Word>, start: nat, r: nat, back: seq<Backoff>, a: Word, k: nat)
    requires [a] in m.table && Adequate(m, h, r) && BackoffsBeyond(m, h, start, back)
    requires start <= r <= start + |back| && start < k == MatchLength(m, [a] + h[..r])
    ensures Score(m, h, a) ==
            m.table[([a] + h[..r])[..k]].prob + SumValues(back[..r-start], k - start - 1) + BackoffSum(m, h, r)
  {
    AdequateScore(m, h, r, a);
    WalkScore(m, h[..r], a, k);
    SumUpTo(m, h, start, back, r, k - start - 1);
  }

  /** The difference reported for one word is what the older words change about its score. */
  lemma JoinScore(m: Model, h: seq<Word>, start: nat, next: nat, back: seq<Backoff>, a: Word,
                  backoffOut: seq<Backoff>, nextUse: nat, ret: FullScoreReturn)
    requires Joining(m, h, start, next, back) && [a] in m.table
    requires Extended(m, [a] + h[..start+next], start + 1, back[..next], backoffOut, nextUse, ret)
    ensures ret.prob == Score(m, h, a) - Score(m, h[..start], a) - BackoffSum(m, h, start + next)
  {
    assert ([a] + h[..start+next])[..start+1] == [a] + h[..start];
    WalkedDifference(m, h, start, start + next, back, a, ret.ngramLength);
    StoredScore(m, h[..start], a);
  }

  /** How many words beyond the newest `start` the longest extendable context of `h` has. */
  ghost function Across(m: Model, h: seq<Word>, start: nat): (length: nat) {
    if KeepLength(m, h) > start then KeepLength(m, h) - start else 0
  }

  lemma UseIsKeep(m: Model, h: seq<Word>, start: nat, r: nat, a: Word, nextUse: nat)
    requires WellFormed(m) && Adequate(m, h, r) && start <= r
    requires nextUse == UseAfter(m, [a] + h[..r], start + 1, start + 1) - start - 1
    ensures start + nextUse <= r
    ensures Adequate(m, [a] + h, start + 1 + nextUse)
    ensures BackoffSum(m, [a] + h, start + 1 + nextUse) == 0.0
    ensures nextUse == Across(m, [a] + h, start + 1)
  {
    KeepAfterWord(m, h, r, a);
    KeepIsAdequate(m, [a] + h);
    BackoffSumZero(m, [a] + h, start + 1 + nextUse);
  }

  /** ... and the walk leaves behind what joining the next word needs. */
  lemma JoinStep(m: Model, h: seq<Word>, start: nat, next: nat, back: seq<Backoff>, a: Word,
                 backoffOut: seq<Backoff>, nextUse: nat)
    requires WellFormed(m) && Joining(m, h, start, next, back)
    requires nextUse == UseAfter(m, [a] + h[..start+next], start + 1, start + 1) - start - 1 <= |backoffOut|
    requires BackoffsBeyond(m, [a] + h[..start+next], start + 1, backoffOut)
    ensures Joining(m, [a] + h, start + 1, nextUse, backoffOut) && nextUse <= next
    ensures BackoffSum(m, [a] + h, start + 1 + nextUse) == 0.0
    ensures nextUse == Across(m, [a] + h, start + 1)
  {
    hide WellFormed, Adequate, BackoffSum, KeepLength, UseAfter;
    UseIsKeep(m, h, start, start + next, a, nextUse);
    ConsPrefix(a, h, start + next);
    BackoffsOfPrefix(m, [a] + h, start + 1, backoffOut, start + 1 + next);
  }

  lemma ConsPrefix(a: Word, h: seq<Word>, n: nat)
    requires n <= |h|
    ensures [a] + h[..n] == ([a] + h)[..n+1]
  {}

  lemma BackoffsOfPrefix(m: Model, h: Gram, start: nat, b: seq<Backoff>, n: nat)
    requires n <= |h| && BackoffsBeyond(m, h[..n], start, b)
    ensures BackoffsBeyond(m, h, start, b)
  {
    forall j {:trigger h[..j]} | start < j <= start + |b|
      ensures h[..j] in m.table && b[j-start-1] == m.table[h[..j]].backoff
    {
      PrefixOfPrefix(h, n, j);
    }
  }
}
