/**
 An n-gram language model as a finite map, and the backoff recursion that
 defines what it means.

 Word sequences are kept newest word first, the order in which the scorer walks
 them: the first element is the word being predicted (or the last word read) and
 each further element is one word older.  So `g[..k]` forgets the oldest words
 and `g[k..]` forgets the newest.
 */
module NGrams {

  type Word = nat
  type Gram = seq<Word>

  /** A backoff weight.  The program stores a float whose zero may carry a minus
      sign; `extendsRight` is true for everything except minus zero. */
  datatype Backoff = Backoff(value: real, extendsRight: bool)

  /** `extendsLeft` is the (inverted) sign bit of the stored probability. */
  datatype Entry = Entry(prob: real, backoff: Backoff, extendsLeft: bool)

  datatype Model = Model(order: nat, table: map<Gram, Entry>)

  ghost predicate Extends(m: Model, g: Gram) {
    g in m.table && m.table[g].backoff.extendsRight
  }

  /** What loading a model file establishes and scoring relies on. */
  ghost predicate WellFormed(m: Model) {
    && m.order >= 2
    && (forall g :: g in m.table ==> 1 <= |g| <= m.order)
    && OldestDroppable(m)
    && NewestDroppable(m)
    && (forall g :: g in m.table && m.table[g].backoff.value != 0.0 ==> m.table[g].backoff.extendsRight)
    && (forall g :: g in m.table && |g| == m.order ==> !m.table[g].backoff.extendsRight)
  }

  /** Forgetting older words leads to entries that say they extend left. */
  ghost predicate OldestDroppable(m: Model) {
    forall g, k {:trigger g[..k]} :: g in m.table && 1 <= k < |g| ==> g[..k] in m.table && m.table[g[..k]].extendsLeft
  }

  /** Forgetting newer words leads to entries that say they extend right. */
  ghost predicate NewestDroppable(m: Model) {
    forall g, k {:trigger g[k..]} :: g in m.table && 1 <= k < |g| ==> Extends(m, g[k..])
  }

  /** Entries say they extend left only if they do. */
  ghost predicate LeftExact(m: Model) {
    forall g :: g in m.table && m.table[g].extendsLeft ==> exists x: Word :: g + [x] in m.table
  }

  /** Entries say they extend right only if they do or their backoff must be charged.  Unigrams are left out: when a
      file does not list the unknown word, its backoff is set to one that extends right. */
  ghost predicate RightExact(m: Model) {
    forall g :: |g| >= 2 && Extends(m, g) ==> m.table[g].backoff.value != 0.0 || exists w: Word :: [w] + g in m.table
  }

  /** All words are in the vocabulary. */
  ghost predicate Known(m: Model, h: seq<Word>) {
    forall w :: w in h ==> [w] in m.table
  }

  function BackoffOf(m: Model, h: Gram): (backoff: real) {
    if h in m.table then m.table[h].backoff.value else 0.0
  }

  /** The definition of the model: the stored probability of `w` after `h` if the
      model stores that n-gram, and otherwise the backoff of `h` plus the
      probability of `w` after `h` without its oldest word. */
  function Score(m: Model, h: seq<Word>, w: Word): (prob: real)
    requires [w] in m.table
  {
    if h == [] then m.table[[w]].prob
    else if [w] + h in m.table then m.table[[w] + h].prob
    else BackoffOf(m, h) + Score(m, h[..|h|-1], w)
  }

  /** The backoffs of the contexts `h[..j]` with `k < j <= |h|`. */
  function BackoffSum(m: Model, h: seq<Word>, k: nat): (sum: real)
    requires k <= |h|
    decreases |h|
  {
    if k == |h| then 0.0 else BackoffOf(m, h) + BackoffSum(m, h[..|h|-1], k)
  }

  /** The length of the longest stored prefix of `g`; 0 if there is none. */
  function MatchLength(m: Model, g: Gram): (k: nat)
    ensures k <= |g|
    ensures k > 0 ==> g[..k] in m.table
    ensures forall j {:trigger g[..j]} :: k < j <= |g| ==> g[..j] !in m.table
  {
    if g == [] then 0
    else if g in m.table then assert g[..|g|] == g; |g|
    else
      var k := MatchLength(m, g[..|g|-1]);
      assert k > 0 ==> g[..|g|-1][..k] == g[..k];
      assert forall j {:trigger g[..j]} :: k < j < |g| ==> g[..|g|-1][..j] == g[..j];
      assert g[..|g|] == g;
      k
  }

  /** The length of the longest prefix of `h` that may still be extended to the
      right; 0 if there is none. */
  function KeepLength(m: Model, h: seq<Word>): (k: nat)
    ensures k <= |h|
    ensures k > 0 ==> h[..k] in m.table && m.table[h[..k]].backoff.extendsRight
    ensures forall j {:trigger h[..j]} :: k < j <= |h| ==> !Extends(m, h[..j])
  {
    if h == [] then 0
    else if h in m.table && m.table[h].backoff.extendsRight then assert h[..|h|] == h; |h|
    else
      var k := KeepLength(m, h[..|h|-1]);
      assert k > 0 ==> h[..|h|-1][..k] == h[..k];
      assert forall j {:trigger h[..j]} :: k < j < |h| ==> h[..|h|-1][..j] == h[..j];
      assert h[..|h|] == h;
      k
  }

  /** No n-gram continues `h[..j]` for any `j > r`: older words than the first `r` do
      not matter to whatever is predicted next, except through their backoffs. */
  ghost predicate Adequate(m: Model, h: seq<Word>, r: nat) {
    r <= |h| && forall w: Word, j: nat {:trigger [w] + h[..j]} :: r < j <= |h| ==> [w] + h[..j] !in m.table
  }

  // ----- consequences of well-formedness

  lemma DropOldest(m: Model, g: Gram, k: nat)
    requires WellFormed(m) && g in m.table && 1 <= k <= |g|
    ensures g[..k] in m.table
    ensures k < |g| ==> m.table[g[..k]].extendsLeft
  {
    if k == |g| { assert g[..k] == g; }
  }

  lemma DropNewest(m: Model, g: Gram, k: nat)
    requires WellFormed(m) && g in m.table && 1 <= k < |g|
    ensures Extends(m, g[k..])
  {}

  lemma PrefixAbsent(m: Model, g: Gram, k: nat)
    requires WellFormed(m) && 1 <= k <= |g| && g[..k] !in m.table
    ensures g !in m.table
  {
    if k == |g| { assert g[..k] == g; }
  }

  /** The context of a stored n-gram extends right. */
  lemma ContextExtends(m: Model, w: Word, h: seq<Word>)
    requires WellFormed(m) && h != []
    ensures [w] + h in m.table ==> Extends(m, h)
  {
    assert ([w] + h)[1..] == h;
  }

  lemma PrefixOfPrefix<T>(h: seq<T>, j: nat, k: nat)
    requires k <= j <= |h|
    ensures h[..j][..k] == h[..k]
  {}

  lemma {:induction false} BackoffSumSplit(m: Model, h: seq<Word>, k: nat, j: nat)
    requires k <= j <= |h|
    ensures BackoffSum(m, h, k) == BackoffSum(m, h[..j], k) + BackoffSum(m, h, j)
    decreases |h|
  {
    if j == |h| {
      assert h[..j] == h;
    } else {
      PrefixOfPrefix(h, |h|-1, j);
      BackoffSumSplit(m, h[..|h|-1], k, j);
    }
  }

  /** Contexts that do not extend right carry no backoff. */
  lemma {:induction false} BackoffSumZero(m: Model, h: seq<Word>, k: nat)
    requires WellFormed(m) && k <= |h|
    requires forall j {:trigger h[..j]} :: k < j <= |h| ==> !Extends(m, h[..j])
    ensures BackoffSum(m, h, k) == 0.0
    decreases |h|
  {
    if k < |h| {
      assert h[..|h|] == h;
      forall j {:trigger h[..|h|-1][..j]} | k < j <= |h|-1 ensures !Extends(m, h[..|h|-1][..j]) {
        PrefixOfPrefix(h, |h|-1, j);
      }
      BackoffSumZero(m, h[..|h|-1], k);
    }
  }

  /** If no n-gram continues a context longer than `h[..k]`, prediction charges the
      backoffs of those contexts and goes on from `h[..k]`. */
  lemma {:induction false} ScoreTruncate(m: Model, h: seq<Word>, w: Word, k: nat)
    requires [w] in m.table && k <= |h|
    requires forall j {:trigger h[..j]} :: k < j <= |h| ==> [w] + h[..j] !in m.table
    ensures Score(m, h, w) == BackoffSum(m, h, k) + Score(m, h[..k], w)
    decreases |h|
  {
    assert h[..|h|] == h;
    if k < |h| {
      forall j {:trigger h[..|h|-1][..j]} | k < j <= |h|-1 ensures [w] + h[..|h|-1][..j] !in m.table {
        PrefixOfPrefix(h, |h|-1, j);
      }
      PrefixOfPrefix(h, |h|-1, k);
      ScoreTruncate(m, h[..|h|-1], w, k);
    }
  }

  /** The recursion in closed form. */
  lemma ScoreByMatch(m: Model, h: seq<Word>, w: Word)
    requires [w] in m.table
    ensures var k := MatchLength(m, [w] + h);
      1 <= k && Score(m, h, w) == m.table[([w] + h)[..k]].prob + BackoffSum(m, h, k - 1)
  {
    var g := [w] + h;
    var k := MatchLength(m, g);
    assert g[..1] == [w];
    forall j {:trigger h[..j]} | k - 1 < j <= |h| ensures [w] + h[..j] !in m.table {
      assert g[..j+1] == [w] + h[..j];
    }
    ScoreTruncate(m, h, w, k - 1);
    assert g[..k] == [w] + h[..k-1];
  }

  // ----- which contexts matter

  /** The longest extendable context is enough to predict with. */
  lemma KeepIsAdequate(m: Model, h: seq<Word>)
    requires WellFormed(m)
    ensures Adequate(m, h, KeepLength(m, h))
    ensures BackoffSum(m, h, KeepLength(m, h)) == 0.0
  {
    var r := KeepLength(m, h);
    forall w: Word, j: nat {:trigger [w] + h[..j]} | r < j <= |h| ensures [w] + h[..j] !in m.table {
      ContextExtends(m, w, h[..j]);
    }
    BackoffSumZero(m, h, r);
  }

  /** Predicting from an adequate context differs only by the backoffs left out. */
  lemma AdequateScore(m: Model, h: seq<Word>, r: nat, w: Word)
    requires [w] in m.table && Adequate(m, h, r)
    ensures Score(m, h, w) == BackoffSum(m, h, r) + Score(m, h[..r], w)
  {
    forall j {:trigger h[..j]} | r < j <= |h| ensures [w] + h[..j] !in m.table {}
    ScoreTruncate(m, h, w, r);
  }

  /** Only the last `order - 1` words of the history matter. */
  lemma OrderBoundsHistory(m: Model, h: seq<Word>, w: Word)
    requires WellFormed(m) && [w] in m.table && |h| >= m.order
    ensures Score(m, h, w) == Score(m, h[..m.order-1], w)
  {
    var n := m.order - 1;
    forall j {:trigger h[..j]} | n < j <= |h| ensures [w] + h[..j] !in m.table && !Extends(m, h[..j]) {
      assert |[w] + h[..j]| > m.order;
    }
    ScoreTruncate(m, h, w, n);
    BackoffSumZero(m, h, n);
  }

  /** An adequate context keeps its longest extendable prefix after one more word. */
  lemma KeepAfterWord(m: Model, h: seq<Word>, r: nat, w: Word)
    requires WellFormed(m) && Adequate(m, h, r)
    ensures KeepLength(m, [w] + h) == KeepLength(m, [w] + h[..r])
    ensures ([w] + h)[..KeepLength(m, [w] + h)] == ([w] + h[..r])[..KeepLength(m, [w] + h)]
  {
    var full, cut := [w] + h, [w] + h[..r];
    var a, b := KeepLength(m, full), KeepLength(m, cut);
    forall j | 0 <= j <= r + 1 ensures full[..j] == cut[..j] {}
    assert a > 0 ==> full[..a] == [w] + h[..a-1];
    assert a <= r + 1;
    assert full[..a] == cut[..a];
    assert full[..b] == cut[..b];
  }
}
