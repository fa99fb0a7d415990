/**
 What the table built from a listing means: the invariant that every line read
 keeps, and the comparison of the finished table with the listing.
 */
module HashedMeaning {
  import opened NGrams
  import opened HashedBuild

  // ----- the invariant

  /** What one stored entry owes to the listing `l`, of which `done` has been read. */
  ghost predicate EntryOk(order: nat, l: Listing, done: set<Gram>, t: Table, g: Gram)
    requires g in t
  {
    && 1 <= |g| <= order && [g[0]] in l && t[g].prob.magnitude >= 0.0
    && (t[g].backoff.value != 0.0 ==> t[g].backoff.extendsRight)
    && (|g| == order ==> t[g].backoff == NO_EXTENSION)
    && (g in l <==> g in done)
    && (g in l ==> t[g].prob.magnitude == -l[g].prob && t[g].backoff.value == l[g].backoff)
    && (g !in l ==> t[g].backoff.value == 0.0 && exists f :: f in done && |g| < |f| && g == f[..|g|])
    && (Unflipped(order, l, g, |g|) ==> t[g].prob.magnitude == Abs(Score(ListingModel(order, l), g[1..], g[0])))
  }

  /** The backed-off log probabilities of the unlisted prefixes of `g` shorter than `n` are not positive. */
  ghost predicate Unflipped(order: nat, l: Listing, g: Gram, n: nat)
    requires n <= |g| && g != [] && [g[0]] in l
  {
    forall k {:trigger g[1..k]} :: 2 <= k < n && g[..k] !in l ==> Score(ListingModel(order, l), g[1..k], g[0]) <= 0.0
  }

  lemma UnflippedPrefix(order: nat, l: Listing, g: Gram, k: nat, n: nat)
    requires 1 <= k <= |g| && [g[0]] in l && n <= k
    ensures Unflipped(order, l, g[..k], n) <==> Unflipped(order, l, g, n)
  {
    hide Score;
    forall j | 2 <= j < n ensures g[..k][..j] == g[..j] && g[..k][1..j] == g[1..j] {}
  }

  /** Without its oldest word it is stored and marked as extending left. */
  ghost predicate PrefixOk(t: Table, g: Gram) {
    |g| >= 2 ==> g[..|g|-1] in t && !t[g[..|g|-1]].prob.negative
  }

  /** Its context is stored and marked as extending right. */
  ghost predicate ContextOk(t: Table, g: Gram) {
    |g| >= 2 ==> g[1..] in t && t[g[1..]].backoff.extendsRight
  }

  ghost predicate PrefixesOk(t: Table) {
    forall g {:trigger PrefixOk(t, g)} :: g in t ==> PrefixOk(t, g)
  }

  ghost predicate ContextsOk(t: Table) {
    forall g {:trigger ContextOk(t, g)} :: g in t ==> ContextOk(t, g)
  }

  ghost predicate EntriesOk(order: nat, l: Listing, done: set<Gram>, t: Table) {
    && done <= l.Keys && done <= t.Keys
    && forall g :: g in t ==> EntryOk(order, l, done, t, g)
  }

  ghost predicate Sound(order: nat, l: Listing, done: set<Gram>, t: Table) {
    EntriesOk(order, l, done, t) && PrefixesOk(t) && ContextsOk(t)
  }

  // ----- the listing

  /** The listing as a reader hands it over: log probabilities are not positive, every
      word is listed as a unigram, and the longest n-grams have no backoff. */
  ghost predicate ValidListing(order: nat, l: Listing) {
    && order >= 2
    && (forall g :: g in l ==> 1 <= |g| <= order && l[g].prob <= 0.0)
    && (forall g :: g in l && |g| == order ==> l[g].backoff == 0.0)
    && (forall g, i {:trigger g[i]} :: g in l && 0 <= i < |g| ==> [g[i]] in l)
  }

  /** An n-gram that is not listed but is needed between listed ones. */
  ghost predicate IsBlank(l: Listing, q: Gram) {
    2 <= |q| && q !in l && exists f :: f in l && |q| < |f| && q == f[..|q|]
  }

  /** No blank's backed-off log probability is positive. */
  ghost predicate NoPositiveBlank(order: nat, l: Listing) {
    forall q :: IsBlank(l, q) && [q[0]] in l ==> Score(ListingModel(order, l), q[1..], q[0]) <= 0.0
  }

  /** All listed n-grams shorter than `n` have been read. */
  ghost predicate LowerDone(l: Listing, done: set<Gram>, n: nat) {
    forall q :: q in l && |q| < n ==> q in done
  }

  // ----- closure under dropping more than one word

  lemma {:induction false} PrefixStored(t: Table, g: Gram, k: nat)
    requires PrefixesOk(t) && g in t && 1 <= k <= |g|
    ensures g[..k] in t && (k < |g| ==> !t[g[..k]].prob.negative)
    decreases |g|
  {
    assert PrefixOk(t, g);
    if k == |g| {
      assert g[..k] == g;
    } else {
      var p := g[..|g|-1];
      assert p[..k] == g[..k];
      if k < |p| { PrefixStored(t, p, k); } else { assert g[..k] == p; }
    }
  }

  lemma {:induction false} SuffixStored(t: Table, g: Gram, k: nat)
    requires ContextsOk(t) && g in t && 1 <= k < |g|
    ensures g[k..] in t && t[g[k..]].backoff.extendsRight
    decreases |g|
  {
    assert ContextOk(t, g);
    if k > 1 {
      SuffixStored(t, g[1..], k - 1);
      assert g[1..][k-1..] == g[k..];
    }
  }

  // ----- the guessed probabilities

  lemma SavedIsListed(order: nat, l: Listing, done: set<Gram>, t: Table, u: Table, g: Gram, b: nat, c: Gram)
    requires EntriesOk(order, l, done, t) && LowerDone(l, done, |g|)
    requires g !in t && |c| < |g|
    requires BlanksIn(t, u, g, b)
    ensures Saved(u, c) == BackoffOf(ListingModel(order, l), c)
  {
    if c in l {
      assert c in done && c in t;
    } else if c in t {
      assert EntryOk(order, l, done, t, c);
    }
  }

  /** `u` is `t` with `g` itself and blanks for its missing prefixes longer than `b`. */
  ghost predicate BlanksIn(t: Table, u: Table, g: Gram, b: nat) {
    && 1 <= b < |g| && g[..b] in t
    && (forall k :: b < k < |g| ==> g[..k] !in t && g[..k] in u && u[g[..k]].backoff == NO_EXTENSION)
    && (forall x :: x in t ==> x in u && u[x] == t[x])
    && (forall x :: x in u ==> x in t || x == g || (b < |x| < |g| && x == g[..|x|]))
  }

  lemma ScoreUnlisted(order: nat, l: Listing, g: Gram, k: nat)
    requires 2 <= k <= |g| && g[..k] !in l && [g[0]] in l
    ensures Score(ListingModel(order, l), g[1..k], g[0])
         == BackoffOf(ListingModel(order, l), g[1..k]) + Score(ListingModel(order, l), g[1..k-1], g[0])
  {
    assert [g[0]] + g[1..k] == g[..k];
    assert g[1..k][..k-2] == g[1..k-1];
  }

  lemma StoredIsScore(order: nat, l: Listing, done: set<Gram>, t: Table, g: Gram, b: nat)
    requires EntriesOk(order, l, done, t) && 1 <= b < |g| && g[..b] in t && [g[0]] in l
    requires Unflipped(order, l, g, b + 1)
    ensures -t[g[..b]].prob.magnitude == Score(ListingModel(order, l), g[1..b], g[0])
  {
    hide Score, Unflipped;
    assert EntryOk(order, l, done, t, g[..b]);
    assert g[..b][1..] == g[1..b];
    UnflippedPrefix(order, l, g, b, b);
    UnflippedAt(order, l, g, b);
    if g[..b] in l { ListedScore(order, l, g[..b]); }
  }

  lemma UnflippedAt(order: nat, l: Listing, g: Gram, b: nat)
    requires 1 <= b < |g| && [g[0]] in l && Unflipped(order, l, g, b + 1)
    ensures Unflipped(order, l, g, b)
    ensures g[..b] !in l ==> Score(ListingModel(order, l), g[1..b], g[0]) <= 0.0
  {
    if b == 1 { assert g[..1] == [g[0]]; }
  }

  lemma {:induction false} EstimateIsScore(order: nat, l: Listing, done: set<Gram>, t: Table, u: Table, g: Gram,
      b: nat, k: nat)
    requires EntriesOk(order, l, done, t) && LowerDone(l, done, |g|) && BlanksIn(t, u, g, b)
    requires g !in t && b <= k < |g| && [g[0]] in l && Unflipped(order, l, g, b + 1)
    ensures Estimate(u, g, b, k) == Score(ListingModel(order, l), g[1..k], g[0])
    decreases k
  {
    hide Score, EntriesOk, Unflipped;
    if k == b {
      StoredIsScore(order, l, done, t, g, b);
    } else {
      EstimateIsScore(order, l, done, t, u, g, b, k - 1);
      SavedIsListed(order, l, done, t, u, g, b, g[1..k]);
      NotListed(order, l, done, t, g[..k], |g|);
      ScoreUnlisted(order, l, g, k);
    }
  }

  lemma NotListed(order: nat, l: Listing, done: set<Gram>, t: Table, q: Gram, n: nat)
    requires EntriesOk(order, l, done, t) && LowerDone(l, done, n) && |q| < n && q !in t
    ensures q !in l && q !in done
  {}

  // ----- one line keeps the invariant

  /** What happens to an entry that was there before. */
  lemma OldAfter(t: Table, u: Table, v: Table, g: Gram, b: nat, x: Gram)
    requires BlanksIn(t, u, g, b) && Adjusted(u, v, g, b) && x in t && g !in t
    ensures x in v && v[x].backoff.value == t[x].backoff.value
    ensures t[x].backoff.extendsRight ==> v[x].backoff.extendsRight
    ensures |x| >= |g| - 1 ==> v[x].backoff == t[x].backoff
    ensures v[x].prob.magnitude == t[x].prob.magnitude && (v[x].prob.negative ==> t[x].prob.negative)
    ensures x == g[..b] ==> !v[x].prob.negative
  {
    hide Estimate;
    assert BackoffKept(u, v, g, b, |g| - 1, x);
    if b < |x| < |g| { assert x != g[..|x|]; }
  }

  /** What is known of a new blank. */
  lemma BlankAfter(t: Table, u: Table, v: Table, g: Gram, b: nat, k: nat)
    requires BlanksIn(t, u, g, b) && Adjusted(u, v, g, b) && b < k < |g|
    ensures g[..k] in v && g[..k] !in t && v[g[..k]].backoff.value == 0.0
    ensures v[g[..k]].prob == Signed(Abs(Estimate(u, g, b, k)), false)
  {
    hide Estimate;
    assert BackoffKept(u, v, g, b, |g| - 1, g[..k]);
  }

  /** The new n-gram itself is left alone. */
  lemma LineAfter(t: Table, u: Table, v: Table, g: Gram, b: nat)
    requires BlanksIn(t, u, g, b) && g in u && Adjusted(u, v, g, b)
    ensures g in v && v[g] == u[g]
  {
    hide Estimate;
    assert BackoffKept(u, v, g, b, |g| - 1, g);
  }

  /** The contexts of the blanks are marked, if they are stored. */
  lemma ContextAfter(t: Table, u: Table, v: Table, g: Gram, b: nat, k: nat)
    requires BlanksIn(t, u, g, b) && Adjusted(u, v, g, b) && b < k < |g| && g[1..k] in v
    requires u[g[1..k]].backoff.value != 0.0 ==> u[g[1..k]].backoff.extendsRight
    ensures v[g[1..k]].backoff.extendsRight
  {
    hide Estimate;
    assert BackoffKept(u, v, g, b, |g| - 1, g[1..k]);
  }

  lemma WhichAfter(t: Table, u: Table, v: Table, g: Gram, b: nat, x: Gram)
    requires BlanksIn(t, u, g, b) && Adjusted(u, v, g, b) && x in v
    ensures x in t || x == g || (b < |x| < |g| && x == g[..|x|])
  {
    hide Estimate;
  }

  lemma StepPrefixes(t: Table, u: Table, v: Table, g: Gram, b: nat)
    requires PrefixesOk(t) && BlanksIn(t, u, g, b) && Adjusted(u, v, g, b) && g !in t
    ensures PrefixesOk(v)
  {
    forall x {:trigger PrefixOk(v, x)} | x in v ensures PrefixOk(v, x) {
      StepPrefix(t, u, v, g, b, x);
    }
  }

  lemma StepPrefix(t: Table, u: Table, v: Table, g: Gram, b: nat, x: Gram)
    requires PrefixesOk(t) && BlanksIn(t, u, g, b) && Adjusted(u, v, g, b) && g !in t && x in v
    ensures PrefixOk(v, x)
  {
    hide BlanksIn, Adjusted, PrefixesOk;
    WhichAfter(t, u, v, g, b, x);
    BlanksFacts(t, u, g, b);
    if x in t {
      PrefixOkIn(t, x);
      if |x| >= 2 { OldAfter(t, u, v, g, b, x[..|x|-1]); }
    } else if |x| >= 2 {
      PrefixOfLine(g, x);
      if |x| - 1 == b { OldAfter(t, u, v, g, b, g[..b]); } else { BlankAfter(t, u, v, g, b, |x| - 1); }
    }
  }

  lemma PrefixOkIn(t: Table, x: Gram)
    requires PrefixesOk(t) && x in t
    ensures PrefixOk(t, x)
  {
    assert PrefixOk(t, x);
  }

  lemma PrefixOfLine(g: Gram, x: Gram)
    requires 2 <= |x| && (x == g || (|x| < |g| && x == g[..|x|]))
    ensures |x| <= |g| && x[..|x|-1] == g[..|x|-1]
  {}

  lemma BlanksFacts(t: Table, u: Table, g: Gram, b: nat)
    requires BlanksIn(t, u, g, b)
    ensures 1 <= b < |g| && g[..b] in t
  {}

  /** Every entry but the new n-gram has its context in place. */
  ghost predicate ContextsBut(t: Table, g: Gram) {
    forall x {:trigger ContextOk(t, x)} :: x in t && x != g ==> ContextOk(t, x)
  }

  lemma StepContexts(t: Table, u: Table, v: Table, g: Gram, b: nat)
    requires ContextsOk(t) && BlanksIn(t, u, g, b) && Adjusted(u, v, g, b) && g !in t
    requires PrefixesOk(v) && g[1..] in v
    requires forall x :: x in u && u[x].backoff.value != 0.0 ==> u[x].backoff.extendsRight
    ensures ContextsBut(v, g)
  {
    hide BlanksIn, Adjusted, ContextsOk, PrefixesOk;
    forall x {:trigger ContextOk(v, x)} | x in v && x != g ensures ContextOk(v, x) {
      StepContext(t, u, v, g, b, x);
    }
  }

  lemma ContextOkIn(t: Table, x: Gram)
    requires ContextsOk(t) && x in t
    ensures ContextOk(t, x)
  {
    assert ContextOk(t, x);
  }

  lemma StepContext(t: Table, u: Table, v: Table, g: Gram, b: nat, x: Gram)
    requires ContextsOk(t) && BlanksIn(t, u, g, b) && Adjusted(u, v, g, b) && g !in t
    requires PrefixesOk(v) && g[1..] in v
    requires forall x :: x in u && u[x].backoff.value != 0.0 ==> u[x].backoff.extendsRight
    requires x in v && x != g
    ensures ContextOk(v, x)
  {
    assert v.Keys == u.Keys;
    hide BlanksIn, Adjusted, ContextsOk, PrefixesOk;
    WhichAfter(t, u, v, g, b, x);
    BlanksFacts(t, u, g, b);
    if x in t {
      ContextOkIn(t, x);
      if |x| >= 2 { OldAfter(t, u, v, g, b, x[1..]); }
    } else if |x| >= 2 {
      BlankContext(v, g, b, |x|);
      assert x[1..] == g[1..|x|];
      ContextAfter(t, u, v, g, b, |x|);
    }
  }

  /** Marking the context of the new n-gram completes the table. */
  lemma ExtendContext(order: nat, l: Listing, done: set<Gram>, v: Table, g: Gram)
    requires EntriesOk(order, l, done, v) && PrefixesOk(v) && ContextsBut(v, g)
    requires g in v && 2 <= |g| <= order && g[1..] in v
    ensures Sound(order, l, done, WithExtension(v, g[1..]))
  {
    hide Unflipped, Score;
    var w := WithExtension(v, g[1..]);
    forall x {:trigger PrefixOk(w, x)} | x in w ensures PrefixOk(w, x) { PrefixOkIn(v, x); }
    forall x {:trigger ContextOk(w, x)} | x in w ensures ContextOk(w, x) { assert x != g ==> ContextOk(v, x); }
    forall x | x in w ensures EntryOk(order, l, done, w, x) { assert EntryOk(order, l, done, v, x); }
  }

  lemma BlankContext(v: Table, g: Gram, b: nat, k: nat)
    requires 1 <= b < k < |g| && PrefixesOk(v) && g[1..] in v
    ensures g[1..k] in v
  {
    PrefixStored(v, g[1..], k - 1);
    assert g[1..][..k-1] == g[1..k];
  }

  /** How the line for `g` is stored before anything is known to extend it. */
  function Fresh(l: Listing, g: Gram): (weights: Weights)
    requires g in l
  {
    Weights(Signed(-l[g].prob, true), if l[g].backoff == 0.0 then NO_EXTENSION else Backoff(l[g].backoff, true))
  }

  lemma StepOldEntry(order: nat, l: Listing, done: set<Gram>, t: Table, u: Table, v: Table, g: Gram, b: nat, x: Gram)
    requires EntriesOk(order, l, done, t) && g in l && g !in done && g !in t && |g| <= order
    requires BlanksIn(t, u, g, b) && Adjusted(u, v, g, b) && x in t
    ensures x in v && EntryOk(order, l, done + {g}, v, x)
  {
    hide Score, Unflipped, Estimate, Adjusted, BlanksIn;
    assert EntryOk(order, l, done, t, x);
    hide EntriesOk;
    OldAfter(t, u, v, g, b, x);
    if x !in l {
      var f :| f in done && |x| < |f| && x == f[..|x|];
      assert f in done + {g};
    }
  }

  lemma StepNewEntry(order: nat, l: Listing, done: set<Gram>, t: Table, u: Table, v: Table, g: Gram, b: nat)
    requires ValidListing(order, l) && g in l && g in u && u[g] == Fresh(l, g)
    requires BlanksIn(t, u, g, b) && Adjusted(u, v, g, b)
    ensures g in v && EntryOk(order, l, done + {g}, v, g)
  {
    hide Unflipped, BlanksIn, Adjusted, ValidListing, Score;
    LineAfter(t, u, v, g, b);
    BlanksFacts(t, u, g, b);
    ListingFacts(order, l, g);
    ListedScore(order, l, g);
  }

  lemma ListedScore(order: nat, l: Listing, g: Gram)
    requires g in l && g != [] && [g[0]] in l
    ensures Score(ListingModel(order, l), g[1..], g[0]) == l[g].prob
  {
    assert [g[0]] + g[1..] == g;
    if |g| == 1 { assert g == [g[0]]; }
  }

  lemma ListingFacts(order: nat, l: Listing, g: Gram)
    requires ValidListing(order, l) && g in l
    ensures 1 <= |g| <= order && [g[0]] in l && l[g].prob <= 0.0 && (|g| == order ==> l[g].backoff == 0.0)
  {}

  lemma StepBlankEntry(order: nat, l: Listing, done: set<Gram>, t: Table, u: Table, v: Table, g: Gram, b: nat, k: nat)
    requires ValidListing(order, l) && EntriesOk(order, l, done, t) && LowerDone(l, done, |g|)
    requires g in l && g !in t && g !in done
    requires BlanksIn(t, u, g, b) && Adjusted(u, v, g, b) && b < k < |g|
    ensures g[..k] in v && EntryOk(order, l, done + {g}, v, g[..k])
  {
    hide Score, EntriesOk, Estimate, BlanksIn, Adjusted, ValidListing, Unflipped;
    BlanksFacts(t, u, g, b);
    ListingFacts(order, l, g);
    BlankAfter(t, u, v, g, b, k);
    NotListed(order, l, done, t, g[..k], |g|);
    assert g[..k][0] == g[0] && g[..k][1..] == g[1..k];
    assert g in done + {g} && g[..k] == g[..|g[..k]|];
    if Unflipped(order, l, g[..k], k) {
      UnflippedPrefix(order, l, g, k, k);
      UnflippedLess(order, l, g, b + 1, k);
      EstimateIsScore(order, l, done, t, u, g, b, k);
    }
    assert EntryOk(order, l, done + {g}, v, g[..k]);
  }

  lemma UnflippedLess(order: nat, l: Listing, g: Gram, k: nat, n: nat)
    requires k <= n <= |g| && g != [] && [g[0]] in l && Unflipped(order, l, g, n)
    ensures Unflipped(order, l, g, k)
  {}

  /** Reading the line for `g` keeps the invariant, if its context is stored. */
  lemma StepSound(order: nat, l: Listing, done: set<Gram>, t: Table, u: Table, v: Table, g: Gram, b: nat)
    requires ValidListing(order, l) && Sound(order, l, done, t) && LowerDone(l, done, |g|)
    requires g in l && g !in done && g !in t && |g| >= 2
    requires BlanksIn(t, u, g, b) && g in u && u[g] == Fresh(l, g) && Adjusted(u, v, g, b) && g[1..] in v
    ensures Sound(order, l, done + {g}, WithExtension(v, g[1..]))
  {
    hide BlanksIn, Adjusted, EntryOk, PrefixOk, ContextOk, PrefixesOk, ContextsOk, EntriesOk, ValidListing,
         LowerDone, Fresh;
    ListingFacts(order, l, g);
    StepEntries(order, l, done, t, u, v, g, b);
    StepPrefixes(t, u, v, g, b);
    SavedBackoffsExtend(order, l, done, t, u, g, b);
    StepContexts(t, u, v, g, b);
    LineAfter(t, u, v, g, b);
    ExtendContext(order, l, done + {g}, v, g);
  }

  lemma SavedBackoffsExtend(order: nat, l: Listing, done: set<Gram>, t: Table, u: Table, g: Gram, b: nat)
    requires EntriesOk(order, l, done, t) && BlanksIn(t, u, g, b) && g in l && g in u && u[g] == Fresh(l, g)
    ensures forall x :: x in u && u[x].backoff.value != 0.0 ==> u[x].backoff.extendsRight
  {
    hide Score, Unflipped;
    forall x | x in u && u[x].backoff.value != 0.0 ensures u[x].backoff.extendsRight {
      if x in t { assert EntryOk(order, l, done, t, x); }
    }
  }

  lemma StepEntries(order: nat, l: Listing, done: set<Gram>, t: Table, u: Table, v: Table, g: Gram, b: nat)
    requires ValidListing(order, l) && EntriesOk(order, l, done, t) && LowerDone(l, done, |g|)
    requires g in l && g !in done && g !in t && |g| <= order
    requires BlanksIn(t, u, g, b) && g in u && u[g] == Fresh(l, g) && Adjusted(u, v, g, b)
    ensures EntriesOk(order, l, done + {g}, v)
  {
    forall x | x in v ensures EntryOk(order, l, done + {g}, v, x) {
      StepEntry(order, l, done, t, u, v, g, b, x);
    }
    StepDone(t, u, v, g, b, done);
  }

  lemma StepDone(t: Table, u: Table, v: Table, g: Gram, b: nat, done: set<Gram>)
    requires BlanksIn(t, u, g, b) && g in u && Adjusted(u, v, g, b) && done <= t.Keys
    ensures done + {g} <= v.Keys
  {}

  lemma StepEntry(order: nat, l: Listing, done: set<Gram>, t: Table, u: Table, v: Table, g: Gram, b: nat, x: Gram)
    requires ValidListing(order, l) && EntriesOk(order, l, done, t) && LowerDone(l, done, |g|)
    requires g in l && g !in done && g !in t && |g| <= order
    requires BlanksIn(t, u, g, b) && g in u && u[g] == Fresh(l, g) && Adjusted(u, v, g, b) && x in v
    ensures EntryOk(order, l, done + {g}, v, x)
  {
    hide BlanksIn, Adjusted, EntryOk, EntriesOk, ValidListing, LowerDone, Fresh;
    WhichAfter(t, u, v, g, b, x);
    if x in t {
      StepOldEntry(order, l, done, t, u, v, g, b, x);
    } else if x == g {
      StepNewEntry(order, l, done, t, u, v, g, b);
    } else {
      StepBlankEntry(order, l, done, t, u, v, g, b, |x|);
    }
  }

  // ----- the finished table

  /** The table gives every context and word the probability the listing gives. */
  ghost predicate SameScores(order: nat, l: Listing, t: Table) {
    forall h: seq<Word>, w: Word :: [w] in l ==>
      [w] in t && Score(AsModel(order, t), h, w) == Score(ListingModel(order, l), h, w)
  }

  lemma BuiltWellFormed(order: nat, l: Listing, t: Table)
    requires ValidListing(order, l) && Sound(order, l, l.Keys, t)
    ensures WellFormed(AsModel(order, t))
  {
    hide Score, Unflipped;
    var m := AsModel(order, t);
    forall g, k {:trigger g[..k]} | g in m.table && 1 <= k < |g|
      ensures g[..k] in m.table && m.table[g[..k]].extendsLeft {
      PrefixStored(t, g, k);
    }
    forall g, k {:trigger g[k..]} | g in m.table && 1 <= k < |g| ensures Extends(m, g[k..]) {
      SuffixStored(t, g, k);
    }
    forall g | g in m.table
      ensures 1 <= |g| <= order && (m.table[g].backoff.value != 0.0 ==> m.table[g].backoff.extendsRight)
      ensures |g| == order ==> !m.table[g].backoff.extendsRight
    {
      assert EntryOk(order, l, l.Keys, t, g);
    }
  }

  lemma BackoffsAgree(order: nat, l: Listing, t: Table, h: Gram)
    requires Sound(order, l, l.Keys, t)
    ensures BackoffOf(AsModel(order, t), h) == BackoffOf(ListingModel(order, l), h)
  {
    hide Score, Unflipped, PrefixesOk, ContextsOk;
    if h in t { assert EntryOk(order, l, l.Keys, t, h); }
  }

  lemma EntryAgrees(order: nat, l: Listing, t: Table, g: Gram)
    requires Sound(order, l, l.Keys, t) && NoPositiveBlank(order, l) && g in t
    ensures g != [] && [g[0]] in l && -t[g].prob.magnitude == Score(ListingModel(order, l), g[1..], g[0])
  {
    hide Unflipped, PrefixesOk, ContextsOk, Score, NoPositiveBlank;
    assert EntryOk(order, l, l.Keys, t, g);
    if g in l {
      ListedScore(order, l, g);
    } else {
      var f :| f in l && |g| < |f| && g == f[..|g|];
      BlanksUnflipped(order, l, f, |g|);
      UnflippedLess(order, l, f, |g|, |g| + 1);
      UnflippedPrefix(order, l, f, |g|, |g|);
    }
  }

  lemma BlanksUnflipped(order: nat, l: Listing, f: Gram, n: nat)
    requires NoPositiveBlank(order, l) && f in l && n < |f| && [f[0]] in l
    ensures Unflipped(order, l, f, n + 1)
    ensures n > 0 && f[..n] !in l ==> Score(ListingModel(order, l), f[..n][1..], f[0]) <= 0.0
  {
    hide Score;
    forall k {:trigger f[1..k]} | 2 <= k < n + 1 && f[..k] !in l
      ensures Score(ListingModel(order, l), f[1..k], f[0]) <= 0.0
    {
      var q := f[..k];
      assert IsBlank(l, q) && q[0] == f[0] && q[1..] == f[1..k];
    }
    if n > 0 {
      if n == 1 { assert f[..1] == [f[0]]; }
      assert f[..n][1..] == f[1..n];
    }
  }

  lemma {:induction false} ScoresAgree(order: nat, l: Listing, t: Table, h: seq<Word>, w: Word)
    requires Sound(order, l, l.Keys, t) && NoPositiveBlank(order, l) && [w] in l
    ensures [w] in t && Score(AsModel(order, t), h, w) == Score(ListingModel(order, l), h, w)
    decreases |h|
  {
    hide NoPositiveBlank, Unflipped, PrefixesOk, ContextsOk, EntryOk;
    var g := [w] + h;
    assert g[1..] == h && g[0] == w;
    if g in t {
      EntryAgrees(order, l, t, g);
      if h == [] { assert g == [w]; }
    } else {
      assert h != [] by { assert [w] + [] == [w]; }
      BackoffsAgree(order, l, t, h);
      ScoresAgree(order, l, t, h[..|h|-1], w);
      Unstored(order, l, t, g);
    }
  }

  lemma Unstored(order: nat, l: Listing, t: Table, g: Gram)
    requires Sound(order, l, l.Keys, t) && g !in t
    ensures g !in l
  {}

  /** A blank is stored with minus the magnitude of its guess, whatever the guess was; and the guess is what the
      listing gives unless the sign of a shorter blank has been lost already. */
  lemma BlankStored(order: nat, l: Listing, t: Table, q: Gram)
    requires ValidListing(order, l) && Sound(order, l, l.Keys, t) && IsBlank(l, q) && [q[0]] in l
    ensures q in t && [q[0]] in t && Score(AsModel(order, t), q[1..], q[0]) == -t[q].prob.magnitude <= 0.0
    ensures Unflipped(order, l, q, |q|) ==> t[q].prob.magnitude == Abs(Score(ListingModel(order, l), q[1..], q[0]))
  {
    hide Unflipped, ContextsOk;
    var f :| f in l && |q| < |f| && q == f[..|q|];
    PrefixStored(t, f, |q|);
    assert EntryOk(order, l, l.Keys, t, q);
    assert [q[0]] + q[1..] == q;
  }

  lemma AllScoresAgree(order: nat, l: Listing, t: Table)
    requires Sound(order, l, l.Keys, t) && NoPositiveBlank(order, l)
    ensures SameScores(order, l, t)
  {
    hide Score, Sound, NoPositiveBlank;
    forall h: seq<Word>, w: Word | [w] in l
      ensures [w] in t && Score(AsModel(order, t), h, w) == Score(ListingModel(order, l), h, w)
    {
      ScoresAgree(order, l, t, h, w);
    }
  }

  lemma AllBlanksStored(order: nat, l: Listing, t: Table)
    requires ValidListing(order, l) && Sound(order, l, l.Keys, t) && SameScores(order, l, t)
    ensures NoPositiveBlank(order, l)
  {
    hide Score, Sound, ValidListing;
    forall q | IsBlank(l, q) && [q[0]] in l ensures Score(ListingModel(order, l), q[1..], q[0]) <= 0.0 {
      BlankStored(order, l, t, q);
    }
  }

  /** The comparison: blanks lose nothing exactly when none of them would have a positive
      log probability, because the sign of a stored probability is not its own. */
  lemma BuiltMeaning(order: nat, l: Listing, t: Table)
    requires ValidListing(order, l) && Sound(order, l, l.Keys, t)
    ensures NoPositiveBlank(order, l) <==> SameScores(order, l, t)
  {
    hide *;
    if NoPositiveBlank(order, l) { AllScoresAgree(order, l, t); }
    if SameScores(order, l, t) { AllBlanksStored(order, l, t); }
  }
}
