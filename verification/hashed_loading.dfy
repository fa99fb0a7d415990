/**
 Loading a listing from a file: when it succeeds, and that the marks in the table it builds say no more than is so.
 */
module HashedLoading {
  import opened NGrams
  import opened HashedBuild
  import opened HashedMeaning
  import FiniteSets

  // ----- marks that say no more than is so

  /** `plain` are the words whose unigrams came with a probability whose sign was not set: these are read as
      extending left from the start. */
  ghost predicate LeftMarkExact(plain: set<Word>, t: Table, g: Gram)
    requires g in t
  {
    !t[g].prob.negative ==> (|g| == 1 && g[0] in plain) || exists x: Word :: g + [x] in t
  }

  ghost predicate RightMarkExact(t: Table, g: Gram)
    requires g in t
  {
    t[g].backoff.extendsRight ==> t[g].backoff.value != 0.0 || exists w: Word :: [w] + g in t
  }

  ghost predicate MarksExact(plain: set<Word>, t: Table) {
    && (forall w :: w in plain ==> [w] in t && !t[[w]].prob.negative)
    && (forall g :: g in t ==> LeftMarkExact(plain, t, g) && RightMarkExact(t, g))
  }

  lemma KeysAfter(t: Table, u: Table, v: Table, g: Gram, b: nat)
    requires BlanksIn(t, u, g, b) && g in u && Adjusted(u, v, g, b)
    ensures t.Keys <= v.Keys && forall k :: b <= k <= |g| ==> g[..k] in v
  {
    hide Estimate, BackoffKept;
    assert g[..|g|] == g;
  }

  lemma LeftMarkAfter(plain: set<Word>, t: Table, u: Table, v: Table, g: Gram, b: nat, x: Gram)
    requires MarksExact(plain, t) && BlanksIn(t, u, g, b) && Adjusted(u, v, g, b) && x in v
    requires g !in t && g in u && u[g].prob.negative
    ensures LeftMarkExact(plain, v, x)
  {
    hide BlanksIn, Adjusted, RightMarkExact;
    WhichAfter(t, u, v, g, b, x);
    KeysAfter(t, u, v, g, b);
    LineAfter(t, u, v, g, b);
    BlanksFacts(t, u, g, b);
    if x in t && !t[x].prob.negative {
      assert LeftMarkExact(plain, t, x);
    } else if !v[x].prob.negative {
      if x in t { NewlyMarked(t, u, v, g, b, x); }
      assert x + [g[|x|]] == g[..|x|+1];
    }
  }

  lemma NewlyMarked(t: Table, u: Table, v: Table, g: Gram, b: nat, x: Gram)
    requires BlanksIn(t, u, g, b) && Adjusted(u, v, g, b) && x in t && t[x].prob.negative && x in v
    ensures v[x].prob.negative || (b <= |x| < |g| && x == g[..|x|])
  {
    hide Estimate;
  }

  lemma RightMarkAfter(plain: set<Word>, l: Listing, t: Table, u: Table, v: Table, g: Gram, b: nat, x: Gram)
    requires MarksExact(plain, t) && BlanksIn(t, u, g, b) && Adjusted(u, v, g, b) && x in v
    requires g !in t && g in u && g in l && u[g] == Fresh(l, g)
    ensures RightMarkExact(v, x)
  {
    hide BlanksIn, Adjusted, LeftMarkExact;
    WhichAfter(t, u, v, g, b, x);
    KeysAfter(t, u, v, g, b);
    BackoffAfter(t, u, v, g, b, x);
    if b <= |x| < |g| - 1 && x == g[1..|x|+1] {
      assert [g[0]] + x == g[..|x|+1];
    } else if x in t {
      assert RightMarkExact(t, x);
    }
  }

  lemma BackoffAfter(t: Table, u: Table, v: Table, g: Gram, b: nat, x: Gram)
    requires BlanksIn(t, u, g, b) && Adjusted(u, v, g, b) && x in v
    ensures 1 <= b < |g| && x in u && (x in t ==> u[x] == t[x])
    ensures (b <= |x| < |g| - 1 && x == g[1..|x|+1]) || v[x].backoff == u[x].backoff
    ensures x !in t ==> x == g || u[x].backoff == NO_EXTENSION
  {
    hide Estimate;
    assert BackoffKept(u, v, g, b, |g| - 1, x);
  }

  /** Reading the line for `g` keeps the marks exact. */
  lemma StepMarks(plain: set<Word>, l: Listing, t: Table, u: Table, v: Table, g: Gram, b: nat)
    requires MarksExact(plain, t) && BlanksIn(t, u, g, b) && Adjusted(u, v, g, b)
    requires g !in t && g in u && g in l && u[g] == Fresh(l, g) && g[1..] in v
    ensures MarksExact(plain, WithExtension(v, g[1..]))
  {
    hide BlanksIn, Adjusted;
    BlanksFacts(t, u, g, b);
    KeysAfter(t, u, v, g, b);
    var w := WithExtension(v, g[1..]);
    forall x | x in w ensures LeftMarkExact(plain, w, x) && RightMarkExact(w, x) {
      LeftMarkAfter(plain, t, u, v, g, b, x);
      RightMarkAfter(plain, l, t, u, v, g, b, x);
      if x == g[1..] { assert [g[0]] + x == g[..|g|]; }
    }
    forall y | y in plain ensures [y] in w && !w[[y]].prob.negative {
      OldAfter(t, u, v, g, b, [y]);
    }
  }

  /** The listing has a longer n-gram of the word. */
  ghost predicate StartsLonger(l: Listing, w: Word) {
    exists g :: g in l && |g| >= 2 && g[0] == w
  }

  /** In a finished table the marks are exact, except that a unigram whose sign was not set is marked even if
      nothing extends it. */
  lemma BuiltExact(order: nat, l: Listing, t: Table, plain: set<Word>)
    requires Sound(order, l, l.Keys, t) && MarksExact(plain, t)
    ensures RightExact(AsModel(order, t))
    ensures LeftExact(AsModel(order, t)) <==> forall w :: w in plain ==> StartsLonger(l, w)
  {
    hide Sound, StartsLonger, LeftMarkExact;
    var m := AsModel(order, t);
    forall g | |g| >= 2 && Extends(m, g)
      ensures m.table[g].backoff.value != 0.0 || exists w: Word :: [w] + g in m.table {
      assert RightMarkExact(t, g);
    }
    hide RightMarkExact, RightExact;
    forall w | w in plain ensures Lengthens(t, [w]) <==> StartsLonger(l, w) {
      LongerStored(order, l, t, w);
    }
    LeftExactWhen(order, t, plain);
  }

  ghost predicate Lengthens(t: Table, g: Gram) {
    exists x: Word :: g + [x] in t
  }

  lemma LeftExactWhen(order: nat, t: Table, plain: set<Word>)
    requires MarksExact(plain, t)
    ensures LeftExact(AsModel(order, t)) <==> forall w :: w in plain ==> Lengthens(t, [w])
  {
    hide RightMarkExact;
    var m := AsModel(order, t);
    if LeftExact(m) {
      forall w | w in plain ensures Lengthens(t, [w]) {
        assert [w] in m.table && m.table[[w]].extendsLeft;
      }
    }
    if forall w :: w in plain ==> Lengthens(t, [w]) {
      forall g | g in m.table && m.table[g].extendsLeft ensures exists x: Word :: g + [x] in m.table {
        assert LeftMarkExact(plain, t, g);
        if |g| == 1 && g[0] in plain { assert g == [g[0]] && Lengthens(t, g); }
      }
    }
  }

  lemma LongerStored(order: nat, l: Listing, t: Table, w: Word)
    requires Sound(order, l, l.Keys, t)
    ensures Lengthens(t, [w]) <==> StartsLonger(l, w)
  {
    hide Unflipped, Score, ContextsOk;
    if x: Word :| [w] + [x] in t {
      var q := [w] + [x];
      assert EntryOk(order, l, l.Keys, t, q);
      if q !in l {
        var f :| f in l && |q| < |f| && q == f[..|q|];
        assert f[0] == w;
      }
    }
    if StartsLonger(l, w) {
      var g :| g in l && |g| >= 2 && g[0] == w;
      PrefixStored(t, g, 2);
      assert g[..2] == [w] + [g[1]];
    }
  }

  // ----- room

  /** The listed n-grams of at least `n` words, cut to their newest `n`. */
  ghost function Prefixes(l: Listing, n: nat): (cut: set<Gram>) {
    set g | g in l && n <= |g| :: g[..n]
  }

  /** For every order there is room for all that must be stored. */
  ghost predicate Roomy(l: Listing, capacity: seq<nat>) {
    forall k :: 0 <= k < |capacity| ==> |Prefixes(l, k + 2)| <= capacity[k]
  }

  ghost predicate AllPrefixes(l: Listing, s: set<Gram>) {
    forall x :: x in s ==> x in Prefixes(l, |x|)
  }

  lemma PrefixIn(l: Listing, g: Gram, k: nat)
    requires g in l && k <= |g|
    ensures g[..k] in Prefixes(l, |g[..k]|)
  {}

  lemma StoredPrefixes(order: nat, l: Listing, done: set<Gram>, t: Table)
    requires EntriesOk(order, l, done, t)
    ensures AllPrefixes(l, t.Keys)
  {
    hide Score, Unflipped;
    forall x | x in t ensures x in Prefixes(l, |x|) {
      assert EntryOk(order, l, done, t, x);
      if x in l {
        PrefixIn(l, x, |x|);
        assert x[..|x|] == x;
      } else {
        var f :| f in done && |x| < |f| && x == f[..|x|];
        PrefixIn(l, f, |x|);
      }
    }
  }

  /** A table fills up only if its order has too little room for all that must be stored. */
  lemma FullMeans(l: Listing, capacity: seq<nat>, s: set<Gram>, room: seq<nat>, q: Gram)
    requires Counted(capacity, s, room) && AllPrefixes(l, s) && q in Prefixes(l, |q|) && q !in s
    requires 2 <= |q| <= |room| + 1 && room[|q|-2] == 0
    ensures !Roomy(l, capacity)
  {
    var n := |q|;
    assert OfLength(s, n) + {q} <= Prefixes(l, n);
    FiniteSets.SubsetSize(OfLength(s, n) + {q}, Prefixes(l, n));
    assert room[n-2] + |OfLength(s, n - 2 + 2)| == capacity[n-2];
    assert |Prefixes(l, n - 2 + 2)| > capacity[n-2];
  }

  lemma BlanksFull(l: Listing, capacity: seq<nat>, t: Table, u: Table, room: seq<nat>, g: Gram, k: nat)
    requires Counted(capacity, u.Keys, room) && AllPrefixes(l, t.Keys) && g in l
    requires Blocked(t, room, g, k) && BlanksAdded(t, u, g, k)
    ensures !Roomy(l, capacity)
  {
    forall x | x in u ensures x in Prefixes(l, |x|) {
      if x !in t { PrefixIn(l, g, |x|); }
    }
    PrefixIn(l, g, k);
    FullMeans(l, capacity, u.Keys, room, g[..k]);
  }

  /** If everything is stored there was room for it. */
  lemma BuiltRoomy(order: nat, l: Listing, t: Table, capacity: seq<nat>, room: seq<nat>)
    requires Sound(order, l, l.Keys, t) && Counted(capacity, t.Keys, room)
    ensures Roomy(l, capacity)
  {
    hide EntryOk, ContextsOk, PrefixesOk;
    forall k | 0 <= k < |capacity| ensures |Prefixes(l, k + 2)| <= capacity[k] {
      PrefixesStored(order, l, t, k + 2);
    }
  }

  lemma PrefixesStored(order: nat, l: Listing, t: Table, n: nat)
    requires Sound(order, l, l.Keys, t) && n > 0
    ensures |Prefixes(l, n)| <= |OfLength(t.Keys, n)|
  {
    hide EntryOk, ContextsOk, PrefixesOk;
    var cut, stored := Prefixes(l, n), OfLength(t.Keys, n);
    forall q | q in cut ensures q in stored {
      var g :| g in l && n <= |g| && q == g[..n];
      PrefixStored(t, g, n);
    }
    FiniteSets.SubsetSize(cut, stored);
  }

  // ----- reading a file

  /** The reader's line for a listed n-gram. */
  ghost predicate Lists(l: Listing, n: nat, lines: seq<Line>) {
    && (forall i :: 0 <= i < |lines| ==> |lines[i].gram| == n && lines[i].gram in l &&
                                         l[lines[i].gram] == Listed(lines[i].prob, lines[i].backoff))
    && (forall i, j :: 0 <= i < j < |lines| ==> lines[i].gram != lines[j].gram)
  }

  /** The n-grams of the first `i` lines. */
  function Grams(lines: seq<Line>, i: nat): (grams: set<Gram>)
    requires i <= |lines|
  {
    set j | 0 <= j < i :: lines[j].gram
  }

  function ReadBackoff(value: real): (backoff: Backoff) {
    if value == 0.0 then NO_EXTENSION else Backoff(value, true)
  }

  /** Mark the context of `g`; it must be stored. */
  method Activate(search: HashedSearch, g: Gram) returns (ok: bool)
    requires 2 <= |g|
    modifies search`table
    ensures ok <==> g[1..] in old(search.table)
    ensures search.table == if ok then WithExtension(old(search.table), g[1..]) else old(search.table)
  {
    ok := g[1..] in search.table;
    if ok {
      search.SetBackoffExtension(g[1..]);
    }
  }

  /** Store one line's n-gram and the blanks it needs. */
  method PlaceLine(search: HashedSearch, line: Line, ghost l: Listing, ghost done: set<Gram>)
    returns (full: bool, ghost u: Table, ghost b: nat)
    requires search.Valid() && ValidListing(search.order, l) && Sound(search.order, l, done, search.table)
    requires LowerDone(l, done, |line.gram|) && 2 <= |line.gram| <= |search.capacity| + 1
    requires line.gram in l && line.gram !in done && l[line.gram] == Listed(line.prob, line.backoff)
    modifies search
    ensures search.Valid() && line.gram !in old(search.table)
    ensures full ==> !Roomy(l, search.capacity)
    ensures !full ==> BlanksIn(old(search.table), u, line.gram, b) && Adjusted(u, search.table, line.gram, b)
    ensures !full ==> line.gram in u && u[line.gram] == Fresh(l, line.gram)
  {
    hide Sound, Adjusted, BlanksAdded, BlanksIn, Blocked, Counted, Roomy, AllPrefixes, Prefixes, ValidListing,
         LowerDone;
    var g := line.gram;
    ghost var t, capacity := search.table, search.capacity;
    LineIsNew(search.order, l, done, t, g);
    LinePrefixes(search.order, l, done, t, g);
    CountedSize(capacity, t.Keys, search.room);
    var weights := Weights(ToSigned(line.prob).SetSign(), ReadBackoff(line.backoff));
    u, b := t, 0;
    full := search.Insert(g, weights);
    if full {
      FullMeans(l, capacity, t.Keys, search.room, g);
      return;
    }
    assert g[..1] == [g[0]];
    CountedSize(capacity, search.table.Keys, search.room);
    AddedPrefix(l, t, g, weights);
    var between;
    between, full := search.FindLower(g);
    u, b := search.table, |g| - |between|;
    if full {
      BlanksFull(l, capacity, t[g := weights], u, search.room, g, b);
      return;
    }
    LinePlaced(t, u, g, b, weights);
    search.AdjustLower(g, between);
    AdjustedKeys(u, search.table, g, b);
  }

  lemma LinePrefixes(order: nat, l: Listing, done: set<Gram>, t: Table, g: Gram)
    requires Sound(order, l, done, t) && g in l
    ensures AllPrefixes(l, t.Keys) && g in Prefixes(l, |g|)
  {
    hide EntryOk, PrefixesOk, ContextsOk;
    StoredPrefixes(order, l, done, t);
    PrefixIn(l, g, |g|);
    assert g[..|g|] == g;
  }

  /** Read one line: it fails for want of room, or if the context is not stored by then. */
  method ReadLine(search: HashedSearch, line: Line, ghost l: Listing, ghost done: set<Gram>, ghost plain: set<Word>)
    returns (outcome: Outcome)
    requires search.Valid() && ValidListing(search.order, l) && Sound(search.order, l, done, search.table)
    requires MarksExact(plain, search.table)
    requires LowerDone(l, done, |line.gram|) && 2 <= |line.gram| <= |search.capacity| + 1
    requires line.gram in l && line.gram !in done && l[line.gram] == Listed(line.prob, line.backoff)
    modifies search
    ensures search.Valid()
    ensures outcome == Built ==> Sound(search.order, l, done + {line.gram}, search.table)
    ensures outcome == Built ==> MarksExact(plain, search.table)
    ensures outcome == Built ==> ContextThere(old(search.table), line.gram)
    ensures outcome == MissingContext ==> !ContextThere(old(search.table), line.gram)
    ensures outcome == TableFull ==> !Roomy(l, search.capacity)
  {
    hide Sound, Adjusted, BlanksIn, Counted, Roomy, MarksExact, ValidListing, LowerDone, ContextThere, Fresh,
         WithExtension;
    var g := line.gram;
    ghost var t := search.table;
    var full, u, b := PlaceLine(search, line, l, done);
    if full { return TableFull; }
    ghost var v := search.table;
    AdjustedKeys(u, v, g, b);
    ContextAfterLine(t, u, g, b);
    var ok := Activate(search, g);
    if !ok { return MissingContext; }
    ExtensionKeys(v, g[1..]);
    StepSound(search.order, l, done, t, u, v, g, b);
    StepMarks(plain, l, t, u, v, g, b);
    return Built;
  }

  /** The context of `g` is stored, or is one of the blanks `g` itself needs: then all its words are the same. */
  ghost predicate ContextThere(t: Table, g: Gram)
    requires g != []
  {
    g[1..] in t || g[1..] == g[..|g|-1]
  }

  lemma ContextAfterLine(t: Table, u: Table, g: Gram, b: nat)
    requires BlanksIn(t, u, g, b)
    ensures g[1..] in u <==> ContextThere(t, g)
  {}

  lemma CountedSize(capacity: seq<nat>, s: set<Gram>, room: seq<nat>)
    requires Counted(capacity, s, room)
    ensures |room| == |capacity|
  {}

  lemma AddedPrefix(l: Listing, t: Table, g: Gram, w: Weights)
    requires AllPrefixes(l, t.Keys) && g in Prefixes(l, |g|)
    ensures AllPrefixes(l, t[g := w].Keys)
  {}

  lemma AdjustedKeys(u: Table, v: Table, g: Gram, b: nat)
    requires Adjusted(u, v, g, b)
    ensures v.Keys == u.Keys
  {}

  lemma ExtensionKeys(t: Table, g: Gram)
    requires g in t
    ensures WithExtension(t, g).Keys == t.Keys
  {}

  lemma LineIsNew(order: nat, l: Listing, done: set<Gram>, t: Table, g: Gram)
    requires ValidListing(order, l) && Sound(order, l, done, t) && LowerDone(l, done, |g|)
    requires g in l && g !in done && 2 <= |g|
    ensures g !in t && [g[0]] in t && [g[1]] in t && l[g].prob <= 0.0
  {
    assert [g[0]] in l && [g[1]] in l;
    assert g in t ==> EntryOk(order, l, done, t, g);
  }

  lemma LinePlaced(t: Table, u: Table, g: Gram, b: nat, w: Weights)
    requires g !in t && BlanksAdded(t[g := w], u, g, b) && g[..b] in t[g := w]
    ensures BlanksIn(t, u, g, b) && g in u && u[g] == w
    ensures forall k :: b <= k < |g| ==> g[..k] in u
  {
    var t1 := t[g := w];
    assert forall k :: b <= k < |g| ==> g[..k] != g;
    assert forall x :: x in t ==> x in t1 && t1[x] == t[x];
  }

  /** The n-grams of orders below `n`. */
  function ShorterThan(l: Listing, n: nat): (grams: set<Gram>) {
    set g | g in l && |g| < n
  }

  /** The context of line `i` is listed, or it is the newest words of that line's n-gram or of an earlier one of
      its order, for which it has been inserted as a blank. */
  ghost predicate ContextListed(l: Listing, lines: seq<Line>, i: nat)
    requires i < |lines|
  {
    lines[i].gram != [] ==>
      || lines[i].gram[1..] in l
      || exists j :: 0 <= j <= i && lines[j].gram != [] && lines[j].gram[..|lines[j].gram|-1] == lines[i].gram[1..]
  }

  ghost predicate ContextsListed(l: Listing, lines: seq<Line>) {
    forall i :: 0 <= i < |lines| ==> ContextListed(l, lines, i)
  }

  lemma ContextKnown(order: nat, l: Listing, t: Table, n: nat, lines: seq<Line>, i: nat)
    requires Lists(l, n, lines) && i < |lines| && n >= 2
    requires Sound(order, l, ShorterThan(l, n) + Grams(lines, i), t)
    ensures ContextThere(t, lines[i].gram) <==> ContextListed(l, lines, i)
  {
    hide Unflipped, Score, ContextsOk;
    var done := ShorterThan(l, n) + Grams(lines, i);
    var c := lines[i].gram[1..];
    if c in t && c !in l {
      assert EntryOk(order, l, done, t, c);
      var f :| f in done && |c| < |f| && c == f[..|c|];
      var j: nat :| j < i && lines[j].gram == f;
    }
    if c in l { assert c in ShorterThan(l, n); }
    if j: nat :| j < i && lines[j].gram[..|lines[j].gram|-1] == c {
      assert lines[j].gram in Grams(lines, i);
      assert PrefixOk(t, lines[j].gram);
    }
  }

  /** Read all n-grams of one order. */
  method ReadNGrams(search: HashedSearch, n: nat, lines: seq<Line>, ghost l: Listing, ghost plain: set<Word>)
    returns (outcome: Outcome)
    requires search.Valid() && ValidListing(search.order, l) && MarksExact(plain, search.table)
    requires Sound(search.order, l, ShorterThan(l, n), search.table)
    requires 2 <= n <= |search.capacity| + 1 && Lists(l, n, lines)
    modifies search
    ensures search.Valid()
    ensures outcome == Built ==> Sound(search.order, l, ShorterThan(l, n) + Grams(lines, |lines|), search.table)
    ensures outcome == Built ==> MarksExact(plain, search.table) && ContextsListed(l, lines)
    ensures outcome == MissingContext ==> !ContextsListed(l, lines)
    ensures outcome == TableFull ==> !Roomy(l, search.capacity)
  {
    hide Sound, ValidListing, Counted, MarksExact, Roomy, ContextListed, ContextThere;
    ghost var done := ShorterThan(l, n);
    var i := 0;
    assert done + Grams(lines, 0) == done;
    while i < |lines|
      invariant 0 <= i <= |lines| && search.Valid() && MarksExact(plain, search.table)
      invariant Sound(search.order, l, done + Grams(lines, i), search.table)
      invariant forall j :: 0 <= j < i ==> ContextListed(l, lines, j)
    {
      var line := lines[i];
      assert line.gram !in Grams(lines, i);
      ContextKnown(search.order, l, search.table, n, lines, i);
      outcome := ReadLine(search, line, l, done + Grams(lines, i), plain);
      if outcome != Built { return; }
      assert done + Grams(lines, i + 1) == done + Grams(lines, i) + {line.gram};
      i := i + 1;
    }
    return Built;
  }

  /** The sections of the file list exactly `l`: unigrams, then `sections[n-2]` the n-grams. */
  ghost predicate FileLists(order: nat, l: Listing, unigrams: seq<Weights>, sections: seq<seq<Line>>) {
    && ValidListing(order, l) && |sections| == order - 1
    && (forall w: nat :: w < |unigrams| ==> [w] in l && UnigramListed(unigrams[w], l[[w]]))
    && (forall k :: 0 <= k < |sections| ==> Lists(l, k + 2, sections[k]))
    && (forall g :: g in l ==> InFile(unigrams, sections, g))
  }

  ghost predicate UnigramListed(w: Weights, listed: Listed) {
    w.prob.magnitude == -listed.prob && (listed.prob < 0.0 ==> w.prob.negative) &&
    w.backoff == ReadBackoff(listed.backoff)
  }

  ghost predicate InFile(unigrams: seq<Weights>, sections: seq<seq<Line>>, g: Gram) {
    if |g| == 1 then g[0] < |unigrams|
    else 2 <= |g| <= |sections| + 1 && g in Grams(sections[|g|-2], |sections[|g|-2]|)
  }

  lemma UnigramsSound(order: nat, l: Listing, unigrams: seq<Weights>, sections: seq<seq<Line>>)
    requires FileLists(order, l, unigrams, sections)
    ensures Sound(order, l, ShorterThan(l, 2), UnigramTable(unigrams))
  {
    var t := UnigramTable(unigrams);
    forall g | g in t
      ensures EntryOk(order, l, ShorterThan(l, 2), t, g)
    {
      UnigramEntry(order, l, unigrams, sections, g[0]);
      assert g == [g[0]];
    }
    forall g | g in ShorterThan(l, 2) ensures g in t { assert InFile(unigrams, sections, g) && g == [g[0]]; }
  }

  lemma UnigramEntry(order: nat, l: Listing, unigrams: seq<Weights>, sections: seq<seq<Line>>, w: nat)
    requires FileLists(order, l, unigrams, sections) && w < |unigrams|
    ensures EntryOk(order, l, ShorterThan(l, 2), UnigramTable(unigrams), [w])
  {
    hide Unflipped, Lists, InFile;
    assert UnigramListed(unigrams[w], l[[w]]);
    assert [w][1..] == [];
  }

  lemma ShorterNext(order: nat, l: Listing, unigrams: seq<Weights>, sections: seq<seq<Line>>, n: nat)
    requires FileLists(order, l, unigrams, sections) && 2 <= n <= order
    ensures Lists(l, n, sections[n-2]) && LowerDone(l, ShorterThan(l, n), n)
    ensures ShorterThan(l, n) + Grams(sections[n-2], |sections[n-2]|) == ShorterThan(l, n + 1)
  {
    hide ValidListing, Lists, UnigramListed;
    assert Lists(l, n - 2 + 2, sections[n-2]);
    GramsHere(l, n, sections[n-2]);
    forall g | g in l && |g| == n ensures g in Grams(sections[n-2], |sections[n-2]|) {
      assert InFile(unigrams, sections, g);
    }
  }

  lemma GramsHere(l: Listing, n: nat, lines: seq<Line>)
    requires Lists(l, n, lines)
    ensures forall g :: g in Grams(lines, |lines|) ==> g in l && |g| == n
  {}

  lemma AllShorter(order: nat, l: Listing, unigrams: seq<Weights>, sections: seq<seq<Line>>)
    requires FileLists(order, l, unigrams, sections)
    ensures ShorterThan(l, order + 1) == l.Keys
  {}

  /** The words whose unigrams come without the sign, which only a zero probability can. */
  function Plain(unigrams: seq<Weights>): (plain: set<Word>) {
    set w: nat | w < |unigrams| && !unigrams[w].prob.negative
  }

  lemma UnigramMarks(order: nat, l: Listing, unigrams: seq<Weights>, sections: seq<seq<Line>>)
    requires FileLists(order, l, unigrams, sections)
    ensures MarksExact(Plain(unigrams), UnigramTable(unigrams))
  {
    hide ValidListing, Lists, InFile;
    forall g | g in UnigramTable(unigrams) ensures LeftMarkExact(Plain(unigrams), UnigramTable(unigrams), g)
      ensures RightMarkExact(UnigramTable(unigrams), g)
    {
      assert g == [g[0]] && UnigramListed(unigrams[g[0]], l[[g[0]]]);
    }
  }

  /** Every context in the file is there when it is needed. */
  ghost predicate FileContexts(l: Listing, sections: seq<seq<Line>>) {
    forall k :: 0 <= k < |sections| ==> ContextsListed(l, sections[k])
  }

  /** Whatever the order of the lines, no context is missing if every context is listed. */
  lemma ListedContexts(order: nat, l: Listing, unigrams: seq<Weights>, sections: seq<seq<Line>>)
    requires FileLists(order, l, unigrams, sections)
    requires forall g :: g in l && |g| >= 2 ==> g[1..] in l
    ensures FileContexts(l, sections)
  {
    hide ValidListing, InFile;
    forall k, i | 0 <= k < |sections| && 0 <= i < |sections[k]| ensures ContextListed(l, sections[k], i) {
      assert Lists(l, k + 2, sections[k]);
    }
  }

  /** Load a listing.  It succeeds exactly when every context is there in time and there is room for all that must be
      stored.  The scorer may then use the table; its marks are exact; and it means what the listing means exactly
      when no blank has a positive backed-off log probability. */
  method Build(order: nat, unigrams: seq<Weights>, sections: seq<seq<Line>>, capacity: seq<nat>, ghost l: Listing)
    returns (search: HashedSearch, outcome: Outcome)
    requires FileLists(order, l, unigrams, sections) && |capacity| == order - 1
    ensures outcome == Built <==> FileContexts(l, sections) && Roomy(l, capacity)
    ensures outcome == MissingContext ==> !FileContexts(l, sections)
    ensures outcome == TableFull ==> !Roomy(l, capacity)
    ensures outcome == Built ==> Sound(order, l, l.Keys, search.table) && MarksExact(Plain(unigrams), search.table)
    ensures outcome == Built ==> WellFormed(AsModel(order, search.table)) && RightExact(AsModel(order, search.table))
    ensures outcome == Built ==>
      (LeftExact(AsModel(order, search.table)) <==> forall w :: w in Plain(unigrams) ==> StartsLonger(l, w))
    ensures outcome == Built ==> (NoPositiveBlank(order, l) <==> SameScores(order, l, search.table))
  {
    hide Sound, FileLists, LowerDone, WellFormed, NoPositiveBlank, SameScores, Roomy, MarksExact, Counted, StartsLonger,
         LeftExact, RightExact, ContextsListed;
    FileFacts(order, l, unigrams, sections);
    search := new HashedSearch(order, unigrams, capacity);
    UnigramsSound(order, l, unigrams, sections);
    UnigramMarks(order, l, unigrams, sections);
    var n := 2;
    while n <= order
      invariant 2 <= n <= order + 1 && fresh(search)
      invariant search.Valid() && search.order == order && search.capacity == capacity
      invariant Sound(order, l, ShorterThan(l, n), search.table) && MarksExact(Plain(unigrams), search.table)
      invariant forall k :: 0 <= k < n - 2 ==> ContextsListed(l, sections[k])
    {
      ShorterNext(order, l, unigrams, sections, n);
      outcome := ReadNGrams(search, n, sections[n-2], l, Plain(unigrams));
      if outcome != Built { return; }
      n := n + 1;
    }
    AllShorter(order, l, unigrams, sections);
    BuiltRoomy(order, l, search.table, capacity, search.room);
    BuiltWellFormed(order, l, search.table);
    BuiltExact(order, l, search.table, Plain(unigrams));
    BuiltMeaning(order, l, search.table);
    outcome := Built;
  }

  lemma FileFacts(order: nat, l: Listing, unigrams: seq<Weights>, sections: seq<seq<Line>>)
    requires FileLists(order, l, unigrams, sections)
    ensures ValidListing(order, l) && order >= 2 && |sections| == order - 1
  {}
}
