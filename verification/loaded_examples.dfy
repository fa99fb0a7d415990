/**
 Two small listings, loaded: one whose table has a bracketing gap and one with a blank of the wrong sign.
 */
module LoadedExamples {
  import opened NGrams
  import opened Fragments
  import opened RuleScoring
  import opened Bracketing
  import opened HashedBuild
  import opened HashedMeaning
  import opened HashedLoading
  import FiniteSets

  function Stored(prob: real, backoff: real): (w: Weights) {
    Weights(ToSigned(prob), ReadBackoff(backoff))
  }

  lemma RoomFor(l: Listing, n: nat, all: set<Gram>, room: nat)
    requires Prefixes(l, n) <= all && |all| <= room
    ensures |Prefixes(l, n)| <= room
  {
    FiniteSets.SubsetSize(Prefixes(l, n), all);
  }

  // ----- a gap

  /** What lm/test.arpa lists of the trigram "<unk> however <unk>": 0 is "<unk>" and 1 is "however".
      The bigram "however <unk>" is not listed. */
  function GapListing(): (listing: Listing) {
    map[[0] := Listed(-1.995635, -20.0), [1] := Listed(-1.687872, -0.30103),
        [1, 0] := Listed(-4.0, -1.0), [0, 1, 0] := Listed(-6.0, -12.0)]
  }

  /** The blank for the bigram has no backoff and nothing follows it, but the trigram has a backoff. */
  function GapModel(): (model: Model) {
    Model(5, map[[0] := Entry(-1.995635, Backoff(-20.0, true), true),
                 [1] := Entry(-1.687872, Backoff(-0.30103, true), true),
                 [1, 0] := Entry(-4.0, Backoff(-1.0, true), false),
                 [0, 1] := Entry(-2.296665, Backoff(0.0, false), true),
                 [0, 1, 0] := Entry(-6.0, Backoff(-12.0, true), false)])
  }

  lemma GapKeys(t: Table, x: Gram)
    requires Sound(5, GapListing(), GapListing().Keys, t)
    ensures x in t <==> x in {[0], [1], [1, 0], [0, 1], [0, 1, 0]}
  {
    hide Unflipped, Score, ContextsOk;
    var l := GapListing();
    if x in t && x !in l {
      assert EntryOk(5, l, l.Keys, t, x);
      var f :| f in l && |x| < |f| && x == f[..|x|];
      assert f == [1, 0] || f == [0, 1, 0];
      assert x == [f[0]] || x == [f[0], f[1]];
    }
    PrefixStored(t, [0, 1, 0], 2);
    assert [0, 1, 0][..2] == [0, 1];
  }

  lemma GapScore()
    ensures Score(ListingModel(5, GapListing()), [1], 0) == -2.296665
  {
    var m := ListingModel(5, GapListing());
    assert [0] + [1] == [0, 1] && [1][..|[1]|-1] == [];
    assert BackoffOf(m, [1]) == -0.30103;
    assert Score(m, [], 0) == -1.995635;
  }

  lemma GapBlank(t: Table)
    requires Sound(5, GapListing(), GapListing().Keys, t)
    ensures [0, 1] in t && t[[0, 1]].prob.magnitude == 2.296665
  {
    hide ContextsOk, PrefixesOk, Score;
    var l := GapListing();
    GapKeys(t, [0, 1]);
    assert EntryOk(5, l, l.Keys, t, [0, 1]);
    assert Unflipped(5, l, [0, 1], 2);
    assert [0, 1][1..] == [1];
    GapScore();
  }

  lemma GapMarks(t: Table)
    requires Sound(5, GapListing(), GapListing().Keys, t) && MarksExact({}, t)
    ensures [0] in t && [1] in t && [0, 1] in t && [1, 0] in t && [0, 1, 0] in t
    ensures !t[[0]].prob.negative && !t[[1]].prob.negative && !t[[0, 1]].prob.negative
    ensures t[[1, 0]].prob.negative && t[[0, 1, 0]].prob.negative
    ensures t[[0, 1]].backoff.value == 0.0 && !t[[0, 1]].backoff.extendsRight
  {
    hide EntriesOk, ContextsOk, RightMarkExact;
    forall x ensures x in t <==> x in {[0], [1], [1, 0], [0, 1], [0, 1, 0]} { GapKeys(t, x); }
    assert PrefixOk(t, [0, 1]) && PrefixOk(t, [1, 0]) && PrefixOk(t, [0, 1, 0]);
    assert [0, 1][..1] == [0] && [1, 0][..1] == [1] && [0, 1, 0][..2] == [0, 1];
    hide PrefixesOk, PrefixOk;
    assert LeftMarkExact({}, t, [1, 0]) && LeftMarkExact({}, t, [0, 1, 0]);
    hide MarksExact, LeftMarkExact;
    GapRightMark(t);
  }

  lemma GapRightMark(t: Table)
    requires Sound(5, GapListing(), GapListing().Keys, t) && MarksExact({}, t)
    ensures [0, 1] in t && t[[0, 1]].backoff.value == 0.0 && !t[[0, 1]].backoff.extendsRight
  {
    hide ContextsOk, PrefixesOk, Unflipped, Score, LeftMarkExact;
    forall w: Word ensures [w] + [0, 1] !in t {
      GapKeys(t, [w] + [0, 1]);
      assert ([w] + [0, 1])[2] == 1;
    }
    GapKeys(t, [0, 1]);
    assert EntryOk(5, GapListing(), GapListing().Keys, t, [0, 1]) && RightMarkExact(t, [0, 1]);
  }

  lemma GapWeights(t: Table, g: Gram)
    requires Sound(5, GapListing(), GapListing().Keys, t) && g in GapListing()
    ensures g in t && -t[g].prob.magnitude == GapListing()[g].prob
    ensures t[g].backoff == Backoff(GapListing()[g].backoff, true)
  {
    hide ContextsOk, PrefixesOk, Unflipped, Score;
    assert EntryOk(5, GapListing(), GapListing().Keys, t, g);
  }

  /** Every table the listing can be loaded into is read as this model. */
  lemma GapLoaded(t: Table)
    requires Sound(5, GapListing(), GapListing().Keys, t) && MarksExact({}, t)
    ensures AsModel(5, t) == GapModel()
  {
    hide Sound, MarksExact;
    forall x ensures x in t <==> x in {[0], [1], [1, 0], [0, 1], [0, 1, 0]} { GapKeys(t, x); }
    GapMarks(t);
    GapBlank(t);
    forall g | g in GapListing()
      ensures g in t && -t[g].prob.magnitude == GapListing()[g].prob
      ensures t[g].backoff == Backoff(GapListing()[g].backoff, true)
    {
      GapWeights(t, g);
    }
    var m := AsModel(5, t);
    assert m.table.Keys == GapModel().table.Keys;
    forall g | g in m.table ensures m.table[g] == GapModel().table[g] {
      assert g == [0] || g == [1] || g == [1, 0] || g == [0, 1] || g == [0, 1, 0];
    }
  }

  lemma GapIsGap()
    ensures !Extends(GapModel(), [0, 1, 0][..2]) && !ClosedFor(GapModel(), [0, 1, 0])
    ensures BackoffSum(GapModel(), [0, 1, 0], 2) == -12.0
  {
    var h := [0, 1, 0];
    assert h[..2] == [0, 1] && h[..3] == h;
    LastBackoff(GapModel(), h);
  }

  function GapUnigrams(): (unigrams: seq<Weights>) {
    [Stored(-1.995635, -20.0), Stored(-1.687872, -0.30103)]
  }

  function GapSections(): (sections: seq<seq<Line>>) {
    [[Line([1, 0], -4.0, -1.0)], [Line([0, 1, 0], -6.0, -12.0)], [], []]
  }

  lemma GapFile()
    ensures FileLists(5, GapListing(), GapUnigrams(), GapSections()) && Plain(GapUnigrams()) == {}
    ensures FileContexts(GapListing(), GapSections()) && Roomy(GapListing(), [2, 1, 0, 0])
  {
    GapPlain();
    hide ValidListing, Lists, InFile, FileContexts, Roomy, UnigramListed, GapListing, GapUnigrams, GapSections;
    GapValid();
    GapWords();
    GapLists();
    forall g | g in GapListing() ensures InFile(GapUnigrams(), GapSections(), g) { GapListed(g); }
    ListedContexts(5, GapListing(), GapUnigrams(), GapSections());
    GapRoom();
  }

  lemma GapPlain()
    ensures Plain(GapUnigrams()) == {}
  {}

  lemma GapValid()
    ensures ValidListing(5, GapListing())
    ensures forall g :: g in GapListing() && |g| >= 2 ==> g[1..] in GapListing()
  {
    assert [1, 0][1..] == [0] && [0, 1, 0][1..] == [1, 0];
  }

  lemma GapWords()
    ensures |GapUnigrams()| == 2
    ensures forall w: nat :: w < 2 ==> [w] in GapListing() && UnigramListed(GapUnigrams()[w], GapListing()[[w]])
  {}

  lemma GapLists()
    ensures |GapSections()| == 4
    ensures forall k :: 0 <= k < 4 ==> Lists(GapListing(), k + 2, GapSections()[k])
  {}

  lemma GapListed(g: Gram)
    requires g in GapListing()
    ensures InFile(GapUnigrams(), GapSections(), g)
  {
    if |g| > 1 { assert GapSections()[|g|-2][0].gram == g; }
  }

  lemma GapRoom()
    ensures Roomy(GapListing(), [2, 1, 0, 0])
  {
    var l := GapListing();
    assert [1, 0][..2] == [1, 0] && [0, 1, 0][..2] == [0, 1] && [0, 1, 0][..3] == [0, 1, 0];
    RoomFor(l, 2, {[1, 0], [0, 1]}, 2);
    RoomFor(l, 3, {[0, 1, 0]}, 1);
    RoomFor(l, 4, {}, 0);
    RoomFor(l, 5, {}, 0);
  }

  /** Loaded and scored: the two bracketings of the trigram differ by its backoff. */
  method GapExample() returns (flat: ChartState, flatProb: real, nested: ChartState, nestedProb: real)
    ensures WellFormed(GapModel()) && RightExact(GapModel()) && !ClosedFor(GapModel(), [0, 1, 0])
    ensures Chart(GapModel(), [0, 1, 0], flat, flatProb) && Chart(GapModel(), [0, 1, 0], nested, nestedProb)
    ensures nestedProb == flatProb - 12.0
  {
    hide Sound, MarksExact, FileLists, FileContexts, Roomy, NoPositiveBlank, SameScores, WellFormed, RightExact,
         LeftExact, Chart, GapListing, GapModel, GapUnigrams, GapSections, ClosedFor, BackoffSum, Extends,
         AsModel;
    GapFile();
    var search, outcome := Build(5, GapUnigrams(), GapSections(), [2, 1, 0, 0], GapListing());
    GapLoaded(search.table);
    GapIsGap();
    GapKnownWords();
    flat, flatProb, nested, nestedProb := BracketingGap(AsModel(5, search.table), [0, 1, 0], 2);
  }

  lemma GapKnownWords()
    ensures Known(GapModel(), [0, 1, 0])
  {}

  // ----- a blank with a positive log probability

  /** A listing with a positive blank: the bigram of 2 after 1 is missing, and the backoff of 1 is positive. */
  function PositiveListing(): (listing: Listing) {
    map[[0] := Listed(-1.0, 0.0), [1] := Listed(-1.0, 3.0), [2] := Listed(-1.0, 0.0),
        [1, 0] := Listed(-1.0, 0.0), [2, 1, 0] := Listed(-0.5, 0.0)]
  }

  lemma PositiveScore()
    ensures Score(ListingModel(3, PositiveListing()), [1], 2) == 2.0
  {
    var m := ListingModel(3, PositiveListing());
    assert [2] + [1] == [2, 1] && [1][..|[1]|-1] == [];
    assert Score(m, [], 2) == m.table[[2]].prob;
    assert BackoffOf(m, [1]) == 3.0;
  }

  lemma PositiveBlankExample()
    ensures ValidListing(3, PositiveListing()) && !NoPositiveBlank(3, PositiveListing())
    ensures IsBlank(PositiveListing(), [2, 1]) && Score(ListingModel(3, PositiveListing()), [1], 2) == 2.0
  {
    hide Score;
    PositiveScore();
    assert [2, 1, 0] in PositiveListing() && [2, 1] == [2, 1, 0][..|[2, 1]|];
    assert [2, 1][1..] == [1] && [2, 1][0] == 2;
  }

  function PositiveUnigrams(): (unigrams: seq<Weights>) {
    [Stored(-1.0, 0.0), Stored(-1.0, 3.0), Stored(-1.0, 0.0)]
  }

  function PositiveSections(): (sections: seq<seq<Line>>) {
    [[Line([1, 0], -1.0, 0.0)], [Line([2, 1, 0], -0.5, 0.0)]]
  }

  lemma PositiveFile()
    ensures FileLists(3, PositiveListing(), PositiveUnigrams(), PositiveSections())
    ensures FileContexts(PositiveListing(), PositiveSections()) && Roomy(PositiveListing(), [2, 1])
  {
    hide ValidListing, Lists, InFile, FileContexts, Roomy, NoPositiveBlank, Score, UnigramListed, PositiveListing,
         PositiveUnigrams, PositiveSections;
    PositiveBlankExample();
    PositiveContexts();
    PositiveWords();
    PositiveLists();
    forall g | g in PositiveListing() ensures InFile(PositiveUnigrams(), PositiveSections(), g) { PositiveListed(g); }
    ListedContexts(3, PositiveListing(), PositiveUnigrams(), PositiveSections());
    PositiveRoom();
  }

  lemma PositiveWords()
    ensures |PositiveUnigrams()| == 3
    ensures forall w: nat :: w < 3 ==>
      [w] in PositiveListing() && UnigramListed(PositiveUnigrams()[w], PositiveListing()[[w]])
  {}

  lemma PositiveLists()
    ensures |PositiveSections()| == 2
    ensures forall k :: 0 <= k < 2 ==> Lists(PositiveListing(), k + 2, PositiveSections()[k])
  {}

  lemma PositiveListed(g: Gram)
    requires g in PositiveListing()
    ensures InFile(PositiveUnigrams(), PositiveSections(), g)
  {
    if |g| > 1 { assert PositiveSections()[|g|-2][0].gram == g; }
  }

  lemma PositiveContexts()
    ensures forall g :: g in PositiveListing() && |g| >= 2 ==> g[1..] in PositiveListing()
  {
    assert [1, 0][1..] == [0] && [2, 1, 0][1..] == [1, 0];
  }

  lemma PositiveRoom()
    ensures Roomy(PositiveListing(), [2, 1])
  {
    var l := PositiveListing();
    assert [1, 0][..2] == [1, 0] && [2, 1, 0][..2] == [2, 1] && [2, 1, 0][..3] == [2, 1, 0];
    RoomFor(l, 2, {[1, 0], [2, 1]}, 2);
    RoomFor(l, 3, {[2, 1, 0]}, 1);
  }

  lemma PositiveLoaded(t: Table)
    requires Sound(3, PositiveListing(), PositiveListing().Keys, t)
    ensures [2] in t && Score(AsModel(3, t), [1], 2) == -2.0
  {
    hide Sound, NoPositiveBlank, Score;
    PositiveBlankExample();
    BlankStored(3, PositiveListing(), t, [2, 1]);
    assert [2, 1][1..] == [1] && [2, 1][0] == 2;
    assert Unflipped(3, PositiveListing(), [2, 1], 2);
  }

  /** Loaded, the blank's log probability has lost its sign. */
  method PositiveExample() returns (search: HashedSearch)
    ensures [2] in search.table && Score(AsModel(3, search.table), [1], 2) == -2.0
    ensures Score(ListingModel(3, PositiveListing()), [1], 2) == 2.0
  {
    hide Sound, MarksExact, FileLists, FileContexts, Roomy, NoPositiveBlank, SameScores, WellFormed, RightExact,
         LeftExact, Score, PositiveListing, PositiveUnigrams, PositiveSections, AsModel;
    PositiveFile();
    PositiveBlankExample();
    var outcome;
    search, outcome := Build(3, PositiveUnigrams(), PositiveSections(), [2, 1], PositiveListing());
    PositiveLoaded(search.table);
  }
}
