/**
 Best-first enumeration of the paths packed in the decoder's final beam.

 Scores are logarithms, so the product of two scores is a sum and taking the n-th root divides by n.
 A path is named by the choices made on the way from the ending back to the beginning of sentence.
 */
module KBest {
  import opened FiniteSets
  import opened Wrappers

  datatype Location = Location(engine: nat, offset: nat)

  /** A node of the lattice; `previous` is in decreasing order of score. */
  datatype History = History(location: Location, score: real, previous: seq<History>)

  function BestPrevious(h: History): (previous: Option<History>) {
    if h.previous == [] then None else Some(h.previous[0])
  }

  datatype Ending = Ending(history: History, length: nat, features: seq<real>)

  datatype CompletedHypothesis = CompletedHypothesis(score: real, features: seq<real>, words: seq<Location>)

  /** Every path from `h` back to the beginning of sentence takes `depth` steps. */
  ghost predicate Layered(h: History, depth: nat)
    decreases h
  {
    && (depth == 0 <==> h.previous == [])
    && (forall i, j :: 0 <= i < j < |h.previous| ==> h.previous[i].score >= h.previous[j].score)
    && (depth > 0 ==> forall i :: 0 <= i < |h.previous| ==> Layered(h.previous[i], depth - 1))
  }

  /** There is at least a beginning and an end of sentence. */
  ghost predicate ValidEnding(e: Ending) {
    e.length >= 2 && Layered(e.history, e.length - 1)
  }

  ghost predicate ValidBeam(endings: seq<Ending>) {
    forall e :: 0 <= e < |endings| ==> ValidEnding(endings[e])
  }

  /** The node reached from `h` by the choices `c`. */
  function At(h: History, c: seq<nat>): (history: Option<History>) {
    if c == [] then Some(h)
    else match At(h, c[..|c|-1])
      case None => None
      case Some(n) => if c[|c|-1] < |n.previous| then Some(n.previous[c[|c|-1]]) else None
  }

  /** What the choices cost: for each, the best previous score less the chosen one. */
  function Loss(h: History, c: seq<nat>): (loss: real)
    requires At(h, c).Some?
  {
    if c == [] then 0.0
    else
      var n := At(h, c[..|c|-1]).value;
      Loss(h, c[..|c|-1]) + n.previous[0].score - n.previous[c[|c|-1]].score
  }

  /** The nodes from the one reached back to the ending. */
  function Crumbs(h: History, c: seq<nat>): (r: seq<History>)
    requires At(h, c).Some?
    ensures |r| == |c| + 1 && r[0] == At(h, c).value
  {
    [At(h, c).value] + if c == [] then [] else Crumbs(h, c[..|c|-1])
  }

  /** Going to the end of sentence undoes the choices one by one. */
  lemma {:induction false} CrumbAt(h: History, c: seq<nat>, k: nat)
    requires At(h, c).Some? && k <= |c|
    ensures At(h, c[..|c|-k]) == Some(Crumbs(h, c)[k])
  {
    if k == 0 {
      assert c[..|c|] == c;
    } else {
      CrumbAt(h, c[..|c|-1], k - 1);
      assert c[..|c|-1][..|c|-k] == c[..|c|-k];
    }
  }

  function Locations(crumbs: seq<History>): (r: seq<Location>)
    ensures |r| == |crumbs| && forall k :: 0 <= k < |r| ==> r[k] == crumbs[k].location
  {
    seq(|crumbs|, k requires 0 <= k < |crumbs| => crumbs[k].location)
  }

  function Normalize(score: real, length: nat, normalize: bool): (normalized: real)
    requires length > 0
  {
    if normalize then score / length as real else score
  }

  lemma NormalizeSum(a: real, b: real, length: nat, normalize: bool)
    requires length > 0
    ensures Normalize(a + b, length, normalize) == Normalize(a, length, normalize) + Normalize(b, length, normalize)
    ensures Normalize(a - b, length, normalize) == Normalize(a, length, normalize) - Normalize(b, length, normalize)
  {}

  lemma NormalizeGrows(a: real, b: real, length: nat, normalize: bool)
    requires length > 0 && a <= b
    ensures Normalize(a, length, normalize) <= Normalize(b, length, normalize)
  {}

  datatype Path = Path(ending: nat, choices: seq<nat>)

  /** A path all the way from an ending of the beam to the beginning of sentence. */
  predicate Complete(endings: seq<Ending>, p: Path) {
    && p.ending < |endings|
    && |p.choices| + 1 == endings[p.ending].length
    && At(endings[p.ending].history, p.choices).Some?
  }

  function PathScore(endings: seq<Ending>, p: Path, normalize: bool): (score: real)
    requires Complete(endings, p)
  {
    var e := endings[p.ending];
    e.history.score - Normalize(Loss(e.history, p.choices), e.length, normalize)
  }

  /** What the decoder returns for a path. */
  function Outcome(endings: seq<Ending>, p: Path, normalize: bool): (completed: CompletedHypothesis)
    requires Complete(endings, p)
  {
    var e := endings[p.ending];
    CompletedHypothesis(PathScore(endings, p, normalize), e.features, Locations(Crumbs(e.history, p.choices)))
  }

  // ----- a path's score is what its own words add

  /** Where the ending's own score is `raw`: the beginning's score plus, for each node on the path, what it adds to its
      best previous score. */
  function WordScores(h: History, c: seq<nat>, raw: real): (score: real)
    requires At(h, c).Some?
  {
    var n := At(h, c).value;
    (if c == [] then raw else n.score) - (if n.previous == [] then 0.0 else n.previous[0].score) +
    if c == [] then 0.0 else WordScores(h, c[..|c|-1], raw)
  }

  lemma {:induction false} LossTelescopes(h: History, c: seq<nat>, raw: real)
    requires At(h, c).Some?
    ensures var n := At(h, c).value;
      WordScores(h, c, raw) == raw - Loss(h, c) - if n.previous == [] then 0.0 else n.previous[0].score
  {
    if c != [] { LossTelescopes(h, c[..|c|-1], raw); }
  }

  /** The score of any path is the sum of what its words add, if normalized then divided by the length; `raw` is the
      ending's own score before that. */
  lemma PathScoreIsWordScores(endings: seq<Ending>, p: Path, normalize: bool, raw: real)
    requires ValidBeam(endings) && Complete(endings, p)
    requires var e := endings[p.ending];
      raw == if normalize then e.length as real * e.history.score else e.history.score
    ensures var e, score := endings[p.ending], PathScore(endings, p, normalize);
      WordScores(e.history, p.choices, raw) == if normalize then e.length as real * score else score
  {
    var e, score := endings[p.ending], PathScore(endings, p, normalize);
    AtLayer(e.history, e.length - 1, p.choices);
    LossTelescopes(e.history, p.choices, raw);
    if normalize { TimesNormalized(score, e.history.score, Loss(e.history, p.choices), e.length as real); }
  }

  lemma TimesNormalized(score: real, a: real, b: real, n: real)
    requires n != 0.0 && score == a - b / n
    ensures n * score == n * a - b
  {}

  lemma {:induction false} AtLayer(h: History, depth: nat, c: seq<nat>)
    requires Layered(h, depth) && At(h, c).Some?
    ensures |c| <= depth && Layered(At(h, c).value, depth - |c|)
  {
    if c != [] { AtLayer(h, depth, c[..|c|-1]); }
  }

  lemma AtMore(h: History, c: seq<nat>, i: nat)
    requires At(h, c).Some?
    ensures At(h, c + [i]).Some? <==> i < |At(h, c).value.previous|
    ensures i < |At(h, c).value.previous| ==> At(h, c + [i]) == Some(At(h, c).value.previous[i])
    ensures i < |At(h, c).value.previous| ==>
      Loss(h, c + [i]) == Loss(h, c) + At(h, c).value.previous[0].score - At(h, c).value.previous[i].score
    ensures i < |At(h, c).value.previous| ==> Crumbs(h, c + [i]) == [At(h, c).value.previous[i]] + Crumbs(h, c)
  {
    assert (c + [i])[..|c|] == c;
  }

  lemma {:induction false} AtPrefix(h: History, depth: nat, c: seq<nat>, k: nat)
    requires Layered(h, depth) && At(h, c).Some? && k <= |c|
    ensures At(h, c[..k]).Some? && Loss(h, c[..k]) <= Loss(h, c)
  {
    if k == |c| {
      assert c[..k] == c;
    } else {
      AtPrefix(h, depth, c[..|c|-1], k);
      assert c[..|c|-1][..k] == c[..k];
      AtLayer(h, depth, c[..|c|-1]);
    }
  }

  // ----- branches

  /** The paths that make the choices `prefix` and then choice `next` or a later one. */
  datatype Branch = Branch(ending: nat, prefix: seq<nat>, next: nat)

  predicate InBranch(b: Branch, p: Path) {
    && p.ending == b.ending
    && |b.prefix| < |p.choices|
    && p.choices[..|b.prefix|] == b.prefix
    && p.choices[|b.prefix|] >= b.next
  }

  predicate Starts(ending: nat, c: seq<nat>, p: Path) {
    p.ending == ending && |c| <= |p.choices| && p.choices[..|c|] == c
  }

  /** The branch has a path, and this is the score of its best one. */
  ghost predicate BranchScore(endings: seq<Ending>, normalize: bool, b: Branch, score: real) {
    && b.ending < |endings| && endings[b.ending].length > 0
    && var e := endings[b.ending];
    && At(e.history, b.prefix + [b.next]).Some?
    && score == e.history.score - Normalize(Loss(e.history, b.prefix + [b.next]), e.length, normalize)
  }

  lemma LeastLoss(h: History, depth: nat, c: seq<nat>, k: nat, i: nat)
    requires Layered(h, depth) && At(h, c).Some? && k < |c| && i <= c[k]
    ensures At(h, c[..k]).Some? && At(h, c[..k] + [i]).Some? && Loss(h, c[..k] + [i]) <= Loss(h, c)
  {
    hide Loss, At, Layered;
    AtPrefix(h, depth, c, k);
    AtPrefix(h, depth, c, k + 1);
    assert c[..k+1] == c[..k] + [c[k]];
    AtMore(h, c[..k], c[k]);
    AtMore(h, c[..k], i);
    AtLayer(h, depth, c[..k]);
    LayerSorted(At(h, c[..k]).value, depth - k, i, c[k]);
  }

  lemma LayerSorted(h: History, depth: nat, i: nat, j: nat)
    requires Layered(h, depth) && i <= j < |h.previous|
    ensures h.previous[i].score >= h.previous[j].score
  {}

  lemma BestOfBranch(endings: seq<Ending>, normalize: bool, b: Branch, score: real, p: Path)
    requires ValidBeam(endings) && BranchScore(endings, normalize, b, score)
    requires Complete(endings, p) && InBranch(b, p)
    ensures PathScore(endings, p, normalize) <= score
  {
    hide Loss, At, Layered;
    var e := endings[b.ending];
    LeastLoss(e.history, e.length - 1, p.choices, |b.prefix|, b.next);
    NormalizeGrows(Loss(e.history, b.prefix + [b.next]), Loss(e.history, p.choices), e.length, normalize);
  }

  // ----- the queue

  /** A path not taken: `path` leads from the node to the end of sentence, and `packed` is the choice to
      make at that node. */
  datatype PartialHistory = PartialHistory(
    packed: nat, path: seq<History>, nodeLength: int, pathLength: nat,
    multiplier: real, score: real, features: seq<real>)

  function FromEnding(e: Ending, normalize: bool): (partial: PartialHistory)
    requires e.length > 0 && e.history.previous != []
  {
    PartialHistory(0, [e.history], e.length - 1, 1,
      e.history.score - Normalize(e.history.previous[0].score, e.length, normalize), e.history.score, e.features)
  }

  /** The second choice at the node that `path` starts with. */
  function SecondBest(path: seq<History>, nodeLength: int, pathLength: nat, best: real, features: seq<real>,
                      normalize: bool): (partial: PartialHistory)
    requires path != [] && |path[0].previous| > 1 && nodeLength + pathLength > 0
  {
    var multiplier := best - Normalize(path[0].previous[0].score, nodeLength + pathLength, normalize);
    PartialHistory(1, path, nodeLength, pathLength, multiplier,
      Normalize(path[0].previous[1].score, nodeLength + pathLength, normalize) + multiplier, features)
  }

  predicate HasNextBest(p: PartialHistory)
    requires p.path != []
  {
    p.packed + 1 < |p.path[0].previous|
  }

  function NextBest(p: PartialHistory, normalize: bool): (partial: PartialHistory)
    requires p.path != [] && HasNextBest(p) && p.nodeLength + p.pathLength > 0
  {
    p.(packed := p.packed + 1,
       score := Normalize(p.path[0].previous[p.packed + 1].score, p.nodeLength + p.pathLength, normalize)
                + p.multiplier)
  }

  predicate Less(left: PartialHistory, right: PartialHistory) {
    if left.score == right.score then left.nodeLength > right.nodeLength else left.score < right.score
  }

  /** The queue entry stands for the branch. */
  ghost predicate Matches(endings: seq<Ending>, normalize: bool, q: PartialHistory, b: Branch) {
    && b.ending < |endings| && endings[b.ending].length > 0
    && var e := endings[b.ending];
    && At(e.history, b.prefix).Some?
    && b.next == q.packed < |At(e.history, b.prefix).value.previous|
    && q.path == Crumbs(e.history, b.prefix)
    && q.pathLength == 1 + |b.prefix| && q.nodeLength == e.length - q.pathLength
    && q.features == e.features
    && q.multiplier ==
       e.history.score - Normalize(Loss(e.history, b.prefix) + q.path[0].previous[0].score, e.length, normalize)
    && BranchScore(endings, normalize, b, q.score)
  }

  lemma FirstMatches(endings: seq<Ending>, normalize: bool, e: nat)
    requires ValidBeam(endings) && e < |endings|
    ensures endings[e].history.previous != []
    ensures Matches(endings, normalize, FromEnding(endings[e], normalize), Branch(e, [], 0))
  {
    AtMore(endings[e].history, [], 0);
  }

  lemma NextMatches(endings: seq<Ending>, normalize: bool, q: PartialHistory, b: Branch)
    requires Matches(endings, normalize, q, b) && HasNextBest(q)
    ensures Matches(endings, normalize, NextBest(q, normalize), Branch(b.ending, b.prefix, b.next + 1))
  {
    hide At, Loss, Normalize;
    var e := endings[b.ending];
    AtMore(e.history, b.prefix, b.next + 1);
    NormalizeSum(Loss(e.history, b.prefix) + q.path[0].previous[0].score, q.path[0].previous[b.next + 1].score,
      e.length, normalize);
  }

  lemma SecondMatches(endings: seq<Ending>, normalize: bool, ending: nat, c: seq<nat>, best: real)
    requires ending < |endings| && 1 + |c| <= endings[ending].length
    requires var e := endings[ending];
      At(e.history, c).Some? && |At(e.history, c).value.previous| > 1 &&
      best == e.history.score - Normalize(Loss(e.history, c), e.length, normalize)
    ensures var e := endings[ending];
      Matches(endings, normalize,
        SecondBest(Crumbs(e.history, c), e.length - 1 - |c|, 1 + |c|, best, e.features, normalize),
        Branch(ending, c, 1))
  {
    hide At, Loss, Normalize, Crumbs;
    var e := endings[ending];
    AtMore(e.history, c, 1);
    SecondScore(e, normalize, c, best);
    assert BranchScore(endings, normalize, Branch(ending, c, 1),
      SecondBest(Crumbs(e.history, c), e.length - 1 - |c|, 1 + |c|, best, e.features, normalize).score);
  }

  lemma SecondScore(e: Ending, normalize: bool, c: seq<nat>, best: real)
    requires 1 + |c| <= e.length && At(e.history, c).Some? && |At(e.history, c).value.previous| > 1
    requires best == e.history.score - Normalize(Loss(e.history, c), e.length, normalize)
    ensures At(e.history, c + [1]).Some?
    ensures var n := At(e.history, c).value;
      && best - Normalize(n.previous[0].score, e.length, normalize)
         == e.history.score - Normalize(Loss(e.history, c) + n.previous[0].score, e.length, normalize)
      && Normalize(n.previous[1].score, e.length, normalize) +
         (best - Normalize(n.previous[0].score, e.length, normalize))
         == e.history.score - Normalize(Loss(e.history, c + [1]), e.length, normalize)
  {
    hide At, Loss, Normalize;
    AtMore(e.history, c, 1);
    var n := At(e.history, c).value;
    NormalizeSum(Loss(e.history, c), n.previous[0].score, e.length, normalize);
    NormalizeSum(Loss(e.history, c) + n.previous[0].score, n.previous[1].score, e.length, normalize);
  }

  // ----- how branches split

  ghost predicate Covered(bs: seq<Branch>, p: Path) {
    exists j :: 0 <= j < |bs| && InBranch(bs[j], p)
  }

  /** No complete path is in two of the branches. */
  ghost predicate Apart(endings: seq<Ending>, bs: seq<Branch>) {
    forall j, k, p :: 0 <= j < k < |bs| && Complete(endings, p) && InBranch(bs[j], p) ==> !InBranch(bs[k], p)
  }

  /** The complete paths in `left` are those in the branches, each in exactly one. */
  ghost predicate Partition(endings: seq<Ending>, bs: seq<Branch>, left: set<Path>) {
    && Apart(endings, bs)
    && (forall p :: p in left ==> Complete(endings, p))
    && (forall p :: Complete(endings, p) ==> (p in left <==> Covered(bs, p)))
  }

  /** The complete paths in `b` are those that start with `cur` and those in `news`. */
  ghost predicate Split(endings: seq<Ending>, b: Branch, cur: seq<nat>, news: seq<Branch>) {
    && Apart(endings, news)
    && (forall p :: Complete(endings, p) ==> (InBranch(b, p) <==> Starts(b.ending, cur, p) || Covered(news, p)))
    && (forall p :: Complete(endings, p) ==> !(Starts(b.ending, cur, p) && Covered(news, p)))
  }

  lemma CoveredMore(bs: seq<Branch>, b: Branch, p: Path)
    ensures Covered(bs + [b], p) <==> Covered(bs, p) || InBranch(b, p)
  {
    if Covered(bs, p) {
      var j :| 0 <= j < |bs| && InBranch(bs[j], p);
      assert InBranch((bs + [b])[j], p);
    }
    if InBranch(b, p) { assert InBranch((bs + [b])[|bs|], p); }
  }

  /** A complete path has a legal choice after any proper prefix. */
  lemma NextChoice(endings: seq<Ending>, p: Path, c: seq<nat>)
    requires ValidBeam(endings) && Complete(endings, p) && Starts(p.ending, c, p) && |c| < |p.choices|
    ensures var h := endings[p.ending].history;
      At(h, c).Some? && p.choices[|c|] < |At(h, c).value.previous|
  {
    hide At, Loss, Layered;
    var e := endings[p.ending];
    AtPrefix(e.history, e.length - 1, p.choices, |c|);
    AtPrefix(e.history, e.length - 1, p.choices, |c| + 1);
    assert p.choices[..|c|+1] == c + [p.choices[|c|]];
    AtMore(e.history, c, p.choices[|c|]);
  }

  lemma StartsMore(ending: nat, c: seq<nat>, i: nat, p: Path)
    ensures Starts(ending, c + [i], p) <==> Starts(ending, c, p) && |c| < |p.choices| && p.choices[|c|] == i
    ensures InBranch(Branch(ending, c, i), p) <==>
      Starts(ending, c + [i], p) || InBranch(Branch(ending, c, i + 1), p)
    ensures !(Starts(ending, c + [i], p) && InBranch(Branch(ending, c, i + 1), p))
  {
    if |c| < |p.choices| { assert p.choices[..|c|+1] == p.choices[..|c|] + [p.choices[|c|]]; }
    if Starts(ending, c + [i], p) { assert (c + [i])[..|c|] == c; }
  }

  lemma SplitFirst(endings: seq<Ending>, b: Branch, news: seq<Branch>)
    requires ValidBeam(endings) && b.ending < |endings| && At(endings[b.ending].history, b.prefix).Some?
    requires news == if b.next + 1 < |At(endings[b.ending].history, b.prefix).value.previous|
                     then [Branch(b.ending, b.prefix, b.next + 1)] else []
    ensures Split(endings, b, b.prefix + [b.next], news)
  {
    hide At, Layered;
    var later := Branch(b.ending, b.prefix, b.next + 1);
    forall p | Complete(endings, p)
      ensures (InBranch(b, p) <==> Starts(b.ending, b.prefix + [b.next], p) || Covered(news, p))
      ensures !(Starts(b.ending, b.prefix + [b.next], p) && Covered(news, p))
    {
      StartsMore(b.ending, b.prefix, b.next, p);
      if InBranch(later, p) { NextChoice(endings, p, b.prefix); }
      CoveredMore([], later, p);
      assert [] + [later] == [later];
    }
  }

  lemma SplitMore(endings: seq<Ending>, b: Branch, cur: seq<nat>, news: seq<Branch>, news': seq<Branch>)
    requires ValidBeam(endings) && b.ending < |endings| && At(endings[b.ending].history, cur).Some?
    requires Split(endings, b, cur, news) && |cur| + 1 < endings[b.ending].length
    requires news' == if |At(endings[b.ending].history, cur).value.previous| > 1
                      then news + [Branch(b.ending, cur, 1)] else news
    ensures Split(endings, b, cur + [0], news')
  {
    hide At, Layered;
    var second := Branch(b.ending, cur, 1);
    forall p | Complete(endings, p)
      ensures (InBranch(b, p) <==> Starts(b.ending, cur + [0], p) || Covered(news', p))
      ensures !(Starts(b.ending, cur + [0], p) && Covered(news', p))
      ensures InBranch(second, p) ==> Starts(b.ending, cur, p)
    {
      StartsMore(b.ending, cur, 0, p);
      if InBranch(second, p) { NextChoice(endings, p, cur); }
      CoveredMore(news, second, p);
    }
    forall j, k, p | 0 <= j < k < |news'| && Complete(endings, p) && InBranch(news'[j], p)
      ensures !InBranch(news'[k], p)
    {
      assert Covered(news, p);
    }
  }

  lemma PartitionStep(endings: seq<Ending>, bs: seq<Branch>, left: set<Path>, k: nat, cur: seq<nat>, news: seq<Branch>)
    requires Partition(endings, bs, left) && k < |bs| && Split(endings, bs[k], cur, news)
    requires Complete(endings, Path(bs[k].ending, cur))
    ensures Path(bs[k].ending, cur) in left
    ensures Partition(endings, bs[..k] + bs[k+1..] + news, left - {Path(bs[k].ending, cur)})
  {
    hide Complete;
    var full := Path(bs[k].ending, cur);
    var rest := bs[..k] + bs[k+1..];
    assert Starts(bs[k].ending, cur, full) && InBranch(bs[k], full) && Covered(bs, full);
    forall p | Complete(endings, p) ensures Starts(bs[k].ending, cur, p) <==> p == full {
      SameLength(endings, p, full);
    }
    forall p | Complete(endings, p) ensures Covered(bs, p) <==> Covered(rest, p) || InBranch(bs[k], p) {
      CoveredBut(bs, k, p);
    }
    forall p | Complete(endings, p) && InBranch(bs[k], p) ensures !Covered(rest, p) {
      ApartFrom(endings, bs, k, p);
    }
    forall p | Complete(endings, p) ensures Covered(rest + news, p) <==> Covered(rest, p) || Covered(news, p) {
      CoveredBoth(rest, news, p);
    }
    ApartJoin(endings, bs, k, news);
  }

  lemma SameLength(endings: seq<Ending>, p: Path, full: Path)
    requires Complete(endings, p) && Complete(endings, full)
    ensures Starts(full.ending, full.choices, p) <==> p == full
  {}

  lemma CoveredBut(bs: seq<Branch>, k: nat, p: Path)
    requires k < |bs|
    ensures Covered(bs, p) <==> Covered(bs[..k] + bs[k+1..], p) || InBranch(bs[k], p)
  {
    var rest := bs[..k] + bs[k+1..];
    if Covered(bs, p) {
      var j :| 0 <= j < |bs| && InBranch(bs[j], p);
      assert j < k ==> rest[j] == bs[j];
      assert j > k ==> rest[j-1] == bs[j];
    }
    if Covered(rest, p) {
      var j :| 0 <= j < |rest| && InBranch(rest[j], p);
      assert rest[j] == bs[if j < k then j else j + 1];
    }
  }

  lemma CoveredBoth(a: seq<Branch>, b: seq<Branch>, p: Path)
    ensures Covered(a + b, p) <==> Covered(a, p) || Covered(b, p)
  {
    if Covered(a + b, p) {
      var j :| 0 <= j < |a + b| && InBranch((a + b)[j], p);
      if j >= |a| { assert InBranch(b[j-|a|], p); }
    }
    if Covered(a, p) {
      var j :| 0 <= j < |a| && InBranch(a[j], p);
      assert InBranch((a + b)[j], p);
    }
    if Covered(b, p) {
      var j :| 0 <= j < |b| && InBranch(b[j], p);
      assert InBranch((a + b)[|a| + j], p);
    }
  }

  lemma ApartFrom(endings: seq<Ending>, bs: seq<Branch>, k: nat, p: Path)
    requires Apart(endings, bs) && k < |bs| && Complete(endings, p)
    ensures InBranch(bs[k], p) ==> !Covered(bs[..k] + bs[k+1..], p)
  {
    var rest := bs[..k] + bs[k+1..];
    forall j | 0 <= j < |rest| ensures InBranch(bs[k], p) ==> !InBranch(rest[j], p) {
      assert rest[j] == bs[if j < k then j else j + 1];
    }
  }

  lemma ApartJoin(endings: seq<Ending>, bs: seq<Branch>, k: nat, news: seq<Branch>)
    requires Apart(endings, bs) && Apart(endings, news) && k < |bs|
    requires forall p :: Complete(endings, p) && Covered(news, p) ==> InBranch(bs[k], p)
    ensures Apart(endings, bs[..k] + bs[k+1..] + news)
  {
    var rest := bs[..k] + bs[k+1..];
    var all := rest + news;
    forall i, j, p | 0 <= i < j < |all| && Complete(endings, p) && InBranch(all[i], p) ensures !InBranch(all[j], p) {
      if j < |rest| {
        assert all[i] == bs[if i < k then i else i + 1] && all[j] == bs[if j < k then j else j + 1];
      } else if i >= |rest| {
        assert all[i] == news[i-|rest|] && all[j] == news[j-|rest|];
      } else {
        assert all[i] == rest[i] && Covered(rest, p) && all[j] == news[j-|rest|];
        assert InBranch(all[j], p) ==> Covered(news, p);
        ApartFrom(endings, bs, k, p);
      }
    }
  }

  // ----- the search

  ghost function PathsTo(h: History, depth: nat): (r: set<seq<nat>>)
    ensures forall c :: c in r <==> |c| == depth && At(h, c).Some?
  {
    if depth == 0 then {[]}
    else
      var shorter := PathsTo(h, depth - 1);
      PathsToMore(h, depth, shorter);
      Longer(h, shorter)
  }

  ghost function Longer(h: History, shorter: set<seq<nat>>): (choices: set<seq<nat>>)
    requires forall c :: c in shorter ==> At(h, c).Some?
  {
    set c, i: nat | c in shorter && i < |At(h, c).value.previous| :: c + [i]
  }

  lemma PathsToMore(h: History, depth: nat, shorter: set<seq<nat>>)
    requires depth > 0 && forall c :: c in shorter <==> |c| == depth - 1 && At(h, c).Some?
    ensures forall c :: c in Longer(h, shorter) <==> |c| == depth && At(h, c).Some?
  {
    hide At;
    forall c ensures c in Longer(h, shorter) <==> |c| == depth && At(h, c).Some? {
      if |c| == depth && At(h, c).Some? {
        var c0, i := c[..depth-1], c[depth-1];
        assert c == c0 + [i];
        AtFewer(h, c);
        AtMore(h, c0, i);
      }
      if c in Longer(h, shorter) {
        var c0, i: nat :| c0 in shorter && i < |At(h, c0).value.previous| && c == c0 + [i];
        AtMore(h, c0, i);
      }
    }
  }

  lemma AtFewer(h: History, c: seq<nat>)
    requires At(h, c).Some? && c != []
    ensures At(h, c[..|c|-1]).Some?
  {}

  /** All complete paths. */
  ghost function AllPaths(endings: seq<Ending>): (r: set<Path>)
    ensures forall p :: p in r <==> Complete(endings, p)
  {
    var r := set e, c | 0 <= e < |endings| && endings[e].length > 0 &&
                        c in PathsTo(endings[e].history, endings[e].length - 1) :: Path(e, c);
    assert forall p :: Complete(endings, p) ==> p == Path(p.ending, p.choices);
    r
  }

  ghost function FirstBranches(n: nat): (bs: seq<Branch>)
    ensures |bs| == n && forall e :: 0 <= e < n ==> bs[e] == Branch(e, [], 0)
  {
    seq(n, e requires 0 <= e < n => Branch(e, [], 0))
  }

  lemma FirstPartition(endings: seq<Ending>)
    requires ValidBeam(endings)
    ensures Partition(endings, FirstBranches(|endings|), AllPaths(endings))
  {
    var bs := FirstBranches(|endings|);
    forall p | Complete(endings, p) ensures Covered(bs, p) {
      assert InBranch(bs[p.ending], p);
    }
  }

  lemma NoneLeft(endings: seq<Ending>, left: set<Path>)
    requires Partition(endings, [], left)
    ensures left == {}
  {
    assert forall p :: p in left ==> Covered([], p);
  }

  predicate IsTop(q: seq<PartialHistory>, k: nat) {
    k < |q| && forall j :: 0 <= j < |q| ==> !Less(q[k], q[j])
  }

  /** Of the best, the first in the sentence. */
  lemma TopIs(q: seq<PartialHistory>, k: nat)
    ensures IsTop(q, k) <==> k < |q| && forall j :: 0 <= j < |q| ==>
      && q[j].score <= q[k].score && (q[j].score == q[k].score ==> q[k].nodeLength <= q[j].nodeLength)
  {
    if k < |q| {
      assert forall j :: 0 <= j < |q| ==>
        (Less(q[k], q[j]) <==>
          q[j].score > q[k].score || (q[j].score == q[k].score && q[k].nodeLength > q[j].nodeLength));
    }
  }

  lemma TopExists(q: seq<PartialHistory>)
    requires q != []
    ensures exists k: nat :: k < |q| && IsTop(q, k)
  {
    if |q| == 1 {
      assert IsTop(q, 0);
    } else {
      TopExists(q[1..]);
      var k: nat :| k < |q[1..]| && IsTop(q[1..], k);
      assert forall j :: 1 <= j < |q| ==> q[j] == q[1..][j-1];
      assert q[k+1] == q[1..][k];
      if Less(q[k+1], q[0]) { assert IsTop(q, 0); } else { assert IsTop(q, k + 1); }
    }
  }

  lemma SecondNotBetter(path: seq<History>, nodeLength: int, pathLength: nat, best: real, features: seq<real>,
                        normalize: bool)
    requires path != [] && |path[0].previous| > 1 && nodeLength + pathLength > 0
    requires path[0].previous[0].score >= path[0].previous[1].score
    ensures SecondBest(path, nodeLength, pathLength, best, features, normalize).score <= best
  {
    NormalizeGrows(path[0].previous[1].score, path[0].previous[0].score, nodeLength + pathLength, normalize);
  }

  lemma NextNotBetter(endings: seq<Ending>, normalize: bool, q: PartialHistory, b: Branch)
    requires ValidBeam(endings) && Matches(endings, normalize, q, b) && HasNextBest(q)
    ensures NextBest(q, normalize).score <= q.score
  {
    hide At, Loss, Layered;
    var e := endings[b.ending];
    AtLayer(e.history, e.length - 1, b.prefix);
    AtMore(e.history, b.prefix, b.next);
    var n := At(e.history, b.prefix).value;
    LayerSorted(n, e.length - 1 - |b.prefix|, b.next, b.next + 1);
    NormalizeSum(Loss(e.history, b.prefix) + n.previous[0].score, n.previous[b.next].score, e.length, normalize);
    NormalizeGrows(n.previous[b.next + 1].score, n.previous[b.next].score, e.length, normalize);
  }

  /** Each queue entry stands for the branch in the same place. */
  ghost predicate AllMatch(endings: seq<Ending>, normalize: bool, q: seq<PartialHistory>, bs: seq<Branch>) {
    |q| == |bs| && forall j :: 0 <= j < |q| ==> Matches(endings, normalize, q[j], bs[j])
  }

  predicate NoneAbove(q: seq<PartialHistory>, score: real) {
    forall j :: 0 <= j < |q| ==> q[j].score <= score
  }

  /** The node's second choice, for the queue. */
  lemma PushSecond(endings: seq<Ending>, normalize: bool, ending: nat, cur: seq<nat>, best: real)
    requires ValidBeam(endings) && ending < |endings| && At(endings[ending].history, cur).Some?
    requires var e := endings[ending];
      && |At(e.history, cur).value.previous| > 1
      && best == e.history.score - Normalize(Loss(e.history, cur), e.length, normalize)
    ensures var e := endings[ending];
      1 + |cur| <= e.length &&
      var q := SecondBest(Crumbs(e.history, cur), e.length - 1 - |cur|, 1 + |cur|, best, e.features, normalize);
      q.score <= best && Matches(endings, normalize, q, Branch(ending, cur, 1))
  {
    hide At, Loss, Layered, Matches;
    var e := endings[ending];
    AtLayer(e.history, e.length - 1, cur);
    LayerSorted(At(e.history, cur).value, e.length - 1 - |cur|, 0, 1);
    SecondMatches(endings, normalize, ending, cur, best);
    SecondNotBetter(Crumbs(e.history, cur), e.length - 1 - |cur|, 1 + |cur|, best, e.features, normalize);
  }

  /** The best choice costs nothing. */
  lemma FollowFirst(e: Ending, cur: seq<nat>)
    requires ValidEnding(e) && At(e.history, cur).Some?
    ensures |cur| < e.length
    ensures BestPrevious(At(e.history, cur).value).Some? <==> |cur| + 1 < e.length
    ensures |cur| + 1 < e.length ==>
      At(e.history, cur + [0]) == BestPrevious(At(e.history, cur).value) &&
      Loss(e.history, cur + [0]) == Loss(e.history, cur) && (cur + [0])[..|cur|] == cur
  {
    hide Loss, At;
    AtLayer(e.history, e.length - 1, cur);
    AtMore(e.history, cur, 0);
  }

  lemma MatchedStart(endings: seq<Ending>, normalize: bool, top: PartialHistory, b: Branch)
    requires ValidBeam(endings) && Matches(endings, normalize, top, b)
    ensures b.ending < |endings|
    ensures var e, cur := endings[b.ending], b.prefix + [b.next];
      && At(e.history, b.prefix).Some? && At(e.history, cur).Some? && cur[..|cur|-1] == b.prefix
      && top.path == Crumbs(e.history, b.prefix) && top.packed < |top.path[0].previous|
      && At(e.history, cur) == Some(top.path[0].previous[top.packed])
      && top.packed == b.next
      && top.pathLength == |cur| < e.length && top.nodeLength == e.length - |cur| && top.features == e.features
      && top.score == e.history.score - Normalize(Loss(e.history, cur), e.length, normalize)
  {
    hide Loss, At, Layered;
    var e := endings[b.ending];
    AtMore(e.history, b.prefix, b.next);
    AtLayer(e.history, e.length - 1, b.prefix + [b.next]);
  }

  lemma CrumbsMore(h: History, c: seq<nat>)
    requires c != [] && At(h, c).Some?
    ensures At(h, c[..|c|-1]).Some? && Crumbs(h, c) == [At(h, c).value] + Crumbs(h, c[..|c|-1])
  {}

  /** From the choice at the end of the queue entry's path, always take the best, down to the beginning of
      sentence; the next choice and the second choices passed are to join the queue. */
  method FollowBest(ghost endings: seq<Ending>, normalize: bool, top: PartialHistory, ghost b: Branch)
    returns (crumb: seq<History>, pushed: seq<PartialHistory>, ghost choices: seq<nat>, ghost news: seq<Branch>)
    requires ValidBeam(endings) && Matches(endings, normalize, top, b)
    ensures AllMatch(endings, normalize, pushed, news) && NoneAbove(pushed, top.score)
    ensures Split(endings, b, choices, news)
    ensures Complete(endings, Path(b.ending, choices))
    ensures top.score == PathScore(endings, Path(b.ending, choices), normalize)
    ensures CompletedHypothesis(top.score, top.features, Locations(crumb)) ==
            Outcome(endings, Path(b.ending, choices), normalize)
  {
    hide At, Loss, Layered, Split, Matches, Crumbs, Normalize;
    MatchedStart(endings, normalize, top, b);
    ghost var e := endings[b.ending];
    pushed, news := [], [];
    if HasNextBest(top) {
      NextMatches(endings, normalize, top, b);
      NextNotBetter(endings, normalize, top, b);
      pushed, news := [NextBest(top, normalize)], [Branch(b.ending, b.prefix, b.next + 1)];
    }
    SplitFirst(endings, b, news);
    choices := b.prefix + [b.next];
    var hist := Some(top.path[0].previous[top.packed]);
    var nodeLength, pathLength := top.nodeLength - 1, top.pathLength + 1;
    crumb := top.path;
    while nodeLength != -1
      invariant -1 <= nodeLength && nodeLength + pathLength == e.length && 0 < |choices| < e.length
      invariant At(e.history, choices).Some? && At(e.history, choices[..|choices|-1]).Some?
      invariant nodeLength >= 0 ==> |choices| + 1 == pathLength && hist == At(e.history, choices)
      invariant nodeLength >= 0 ==> crumb == Crumbs(e.history, choices[..|choices|-1])
      invariant nodeLength == -1 ==> |choices| + 1 == e.length && crumb == Crumbs(e.history, choices) && hist == None
      invariant AllMatch(endings, normalize, pushed, news) && NoneAbove(pushed, top.score)
      invariant Split(endings, b, choices, news)
      invariant top.score == e.history.score - Normalize(Loss(e.history, choices), e.length, normalize)
      decreases nodeLength
    {
      CrumbsMore(e.history, choices);
      FollowFirst(e, choices);
      crumb := [hist.value] + crumb;
      ghost var before := news;
      // All paths that take another choice here wait in one branch.
      if |hist.value.previous| > 1 {
        PushSecond(endings, normalize, b.ending, choices, top.score);
        pushed := pushed + [SecondBest(crumb, nodeLength, pathLength, top.score, top.features, normalize)];
        news := news + [Branch(b.ending, choices, 1)];
      }
      hist, nodeLength, pathLength := BestPrevious(hist.value), nodeLength - 1, pathLength + 1;
      if nodeLength >= 0 {
        SplitMore(endings, b, choices, before, news);
        choices := choices + [0];
      }
    }
  }

  /** Distinct complete paths in non-increasing score, such that no other complete path scores above any. */
  ghost predicate BestPaths(endings: seq<Ending>, normalize: bool, paths: seq<Path>) {
    && (forall j :: 0 <= j < |paths| ==> Complete(endings, paths[j]))
    && Distinct(paths)
    && (forall j, k :: 0 <= j < k < |paths| ==>
         PathScore(endings, paths[j], normalize) >= PathScore(endings, paths[k], normalize))
    && (forall p, j :: Complete(endings, p) && p !in paths && 0 <= j < |paths| ==>
         PathScore(endings, p, normalize) <= PathScore(endings, paths[j], normalize))
  }

  /** Among equal scores the queue may choose, but the list of scores is determined. */
  lemma ScoresDetermined(endings: seq<Ending>, normalize: bool, a: seq<Path>, b: seq<Path>, j: nat)
    requires BestPaths(endings, normalize, a) && BestPaths(endings, normalize, b) && j < |a| && j < |b|
    ensures PathScore(endings, a[j], normalize) == PathScore(endings, b[j], normalize)
  {
    NotAbove(endings, normalize, a, b, j);
    NotAbove(endings, normalize, b, a, j);
  }

  /** The first `j + 1` paths of one list cannot all score above place `j` of the other. */
  lemma NotAbove(endings: seq<Ending>, normalize: bool, a: seq<Path>, b: seq<Path>, j: nat)
    requires BestPaths(endings, normalize, a) && BestPaths(endings, normalize, b) && j < |a| && j < |b|
    ensures PathScore(endings, a[j], normalize) <= PathScore(endings, b[j], normalize)
  {
    hide Complete, PathScore;
    if PathScore(endings, a[j], normalize) > PathScore(endings, b[j], normalize) {
      forall p | p in Elements(a[..j+1]) ensures p in Elements(b[..j]) {
        var i :| 0 <= i <= j && a[i] == p;
        assert PathScore(endings, a[i], normalize) > PathScore(endings, b[j], normalize);
        var k :| 0 <= k < |b| && b[k] == p;
        assert k < j && b[..j][k] == p;
      }
      DistinctSize(a[..j+1]);
      DistinctSize(b[..j]);
      SubsetSize(Elements(a[..j+1]), Elements(b[..j]));
    }
  }

  /** The emitted paths are distinct and in order, and `left` holds the others. */
  ghost predicate Emitted(endings: seq<Ending>, normalize: bool, paths: seq<Path>, left: set<Path>) {
    && (forall j :: 0 <= j < |paths| ==> Complete(endings, paths[j]) && paths[j] !in left)
    && Distinct(paths)
    && (forall j, k :: 0 <= j < k < |paths| ==>
         PathScore(endings, paths[j], normalize) >= PathScore(endings, paths[k], normalize))
    && (forall p :: Complete(endings, p) && p !in paths ==> p in left)
    && |paths| + |left| == |AllPaths(endings)|
  }

  /** What is left is in the queue, and nothing queued scores above anything emitted. */
  ghost predicate Searching(endings: seq<Ending>, normalize: bool, q: seq<PartialHistory>, bs: seq<Branch>,
                            paths: seq<Path>, left: set<Path>) {
    && AllMatch(endings, normalize, q, bs) && Partition(endings, bs, left) && Emitted(endings, normalize, paths, left)
    && (forall j :: 0 <= j < |paths| ==> NoneAbove(q, PathScore(endings, paths[j], normalize)))
  }

  lemma SearchStart(endings: seq<Ending>, normalize: bool, q: seq<PartialHistory>)
    requires ValidBeam(endings) && AllMatch(endings, normalize, q, FirstBranches(|endings|))
    ensures Searching(endings, normalize, q, FirstBranches(|endings|), [], AllPaths(endings))
  {
    hide Matches, Partition, Complete;
    FirstPartition(endings);
  }

  lemma SearchFound(endings: seq<Ending>, normalize: bool, q: seq<PartialHistory>, bs: seq<Branch>,
                    paths: seq<Path>, left: set<Path>)
    requires ValidBeam(endings) && Searching(endings, normalize, q, bs, paths, left)
    ensures BestPaths(endings, normalize, paths)
  {
    hide Complete, PathScore;
    forall p, j | Complete(endings, p) && p !in paths && 0 <= j < |paths|
      ensures PathScore(endings, p, normalize) <= PathScore(endings, paths[j], normalize)
    {
      assert p in left && Covered(bs, p);
      var k :| 0 <= k < |bs| && InBranch(bs[k], p);
      assert Matches(endings, normalize, q[k], bs[k]);
      BestOfBranch(endings, normalize, bs[k], q[k].score, p);
    }
  }

  lemma SearchEnd(endings: seq<Ending>, normalize: bool, bs: seq<Branch>, paths: seq<Path>, left: set<Path>)
    requires Searching(endings, normalize, [], bs, paths, left)
    ensures |paths| == |AllPaths(endings)|
  {
    NoneLeft(endings, left);
  }

  lemma SearchTop(endings: seq<Ending>, normalize: bool, q: seq<PartialHistory>, bs: seq<Branch>,
                  paths: seq<Path>, left: set<Path>, k: nat)
    requires Searching(endings, normalize, q, bs, paths, left) && k < |q|
    ensures |bs| == |q| && Matches(endings, normalize, q[k], bs[k])
  {
    hide Partition, Emitted, Matches;
  }

  lemma EmitStep(endings: seq<Ending>, normalize: bool, paths: seq<Path>, left: set<Path>, p: Path)
    requires Emitted(endings, normalize, paths, left) && p in left && Complete(endings, p)
    requires forall j :: 0 <= j < |paths| ==>
      PathScore(endings, paths[j], normalize) >= PathScore(endings, p, normalize)
    ensures Emitted(endings, normalize, paths + [p], left - {p})
  {
    hide Complete, PathScore;
  }

  lemma SearchStep(endings: seq<Ending>, normalize: bool, q: seq<PartialHistory>, bs: seq<Branch>,
                   paths: seq<Path>, left: set<Path>, k: nat,
                   pushed: seq<PartialHistory>, choices: seq<nat>, news: seq<Branch>)
    requires Searching(endings, normalize, q, bs, paths, left) && IsTop(q, k)
    requires AllMatch(endings, normalize, pushed, news) && NoneAbove(pushed, q[k].score)
    requires Split(endings, bs[k], choices, news) && Complete(endings, Path(bs[k].ending, choices))
    requires q[k].score == PathScore(endings, Path(bs[k].ending, choices), normalize)
    ensures var p := Path(bs[k].ending, choices);
      p in left && Searching(endings, normalize, q[..k] + q[k+1..] + pushed, bs[..k] + bs[k+1..] + news,
                             paths + [p], left - {p})
  {
    hide Matches, Complete, PathScore, Split, Partition, AllMatch, Emitted, NoneAbove;
    MatchSize(endings, normalize, q, bs);
    var p := Path(bs[k].ending, choices);
    PartitionStep(endings, bs, left, k, choices, news);
    MatchStep(endings, normalize, q, bs, k, pushed, news);
    forall j | 0 <= j < |paths| ensures
      Complete(endings, paths[j]) && PathScore(endings, paths[j], normalize) >= q[k].score &&
      NoneAbove(q[..k] + q[k+1..] + pushed, PathScore(endings, paths[j], normalize))
    {
      EmittedAt(endings, normalize, paths, left, j);
      QueueBound(q, k, pushed, PathScore(endings, paths[j], normalize));
    }
    TopBound(q, k, pushed);
    EmitStep(endings, normalize, paths, left, p);
    assert forall j :: 0 <= j < |paths| ==> (paths + [p])[j] == paths[j];
  }

  lemma EmittedAt(endings: seq<Ending>, normalize: bool, paths: seq<Path>, left: set<Path>, j: nat)
    requires Emitted(endings, normalize, paths, left) && j < |paths|
    ensures Complete(endings, paths[j])
  {}

  lemma QueueBound(q: seq<PartialHistory>, k: nat, pushed: seq<PartialHistory>, score: real)
    requires k < |q| && NoneAbove(q, score) && NoneAbove(pushed, q[k].score)
    ensures q[k].score <= score && NoneAbove(q[..k] + q[k+1..] + pushed, score)
  {
    var q' := q[..k] + q[k+1..] + pushed;
    forall j | 0 <= j < |q'| ensures q'[j].score <= score {
      assert q'[j] == if j < k then q[j] else if j < |q| - 1 then q[j+1] else pushed[j-(|q|-1)];
    }
  }

  lemma TopBound(q: seq<PartialHistory>, k: nat, pushed: seq<PartialHistory>)
    requires IsTop(q, k) && NoneAbove(pushed, q[k].score)
    ensures NoneAbove(q[..k] + q[k+1..] + pushed, q[k].score)
  {
    QueueBound(q, k, pushed, q[k].score);
  }

  lemma MatchSize(endings: seq<Ending>, normalize: bool, q: seq<PartialHistory>, bs: seq<Branch>)
    requires AllMatch(endings, normalize, q, bs)
    ensures |q| == |bs|
  {}

  lemma MatchStep(endings: seq<Ending>, normalize: bool, q: seq<PartialHistory>, bs: seq<Branch>, k: nat,
                  pushed: seq<PartialHistory>, news: seq<Branch>)
    requires AllMatch(endings, normalize, q, bs) && AllMatch(endings, normalize, pushed, news) && k < |q|
    ensures AllMatch(endings, normalize, q[..k] + q[k+1..] + pushed, bs[..k] + bs[k+1..] + news)
  {
    hide Matches;
    var q', bs' := q[..k] + q[k+1..] + pushed, bs[..k] + bs[k+1..] + news;
    forall j | 0 <= j < |q'| ensures Matches(endings, normalize, q'[j], bs'[j]) {
      var i := if j < k then j else j + 1;
      assert j < |q| - 1 ==> q'[j] == q[i] && bs'[j] == bs[i];
      assert j >= |q| - 1 ==> q'[j] == pushed[j-(|q|-1)] && bs'[j] == news[j-(|q|-1)];
    }
  }

  /** The hypotheses are those of the paths. */
  ghost predicate Returned(endings: seq<Ending>, normalize: bool, finished: seq<CompletedHypothesis>,
      paths: seq<Path>) {
    |finished| == |paths| &&
    forall j :: 0 <= j < |paths| ==> Complete(endings, paths[j]) && finished[j] == Outcome(endings, paths[j], normalize)
  }

  lemma ReturnedNone(endings: seq<Ending>, normalize: bool)
    ensures Returned(endings, normalize, [], [])
  {}

  lemma ReturnedMore(endings: seq<Ending>, normalize: bool, finished: seq<CompletedHypothesis>, paths: seq<Path>,
      p: Path)
    requires Returned(endings, normalize, finished, paths) && Complete(endings, p)
    ensures Returned(endings, normalize, finished + [Outcome(endings, p, normalize)], paths + [p])
  {}

  /** Pop the best partial history, complete it, queue the choices not taken, until there are enough. */
  method Completed(ghost endings: seq<Ending>, start: seq<PartialHistory>, normalize: bool, number: nat)
    returns (finished: seq<CompletedHypothesis>, ghost paths: seq<Path>)
    requires ValidBeam(endings) && AllMatch(endings, normalize, start, FirstBranches(|endings|))
    ensures BestPaths(endings, normalize, paths)
    ensures Returned(endings, normalize, finished, paths)
    ensures |finished| == if 0 < number <= |AllPaths(endings)| then number else |AllPaths(endings)|
  {
    hide Searching, BestPaths, Matches, IsTop, Outcome, Complete, Split, PathScore, Returned, AllMatch, NoneAbove;
    ReturnedNone(endings, normalize);
    var delayed := start;
    finished, paths := [], [];
    ghost var bs, left := FirstBranches(|endings|), AllPaths(endings);
    SearchStart(endings, normalize, delayed);
    while delayed != []
      invariant Searching(endings, normalize, delayed, bs, paths, left)
      invariant |finished| == |paths| && |paths| + |left| == |AllPaths(endings)|
      invariant number == 0 || |paths| < number
      invariant Returned(endings, normalize, finished, paths)
      decreases |left|
    {
      TopExists(delayed);
      var k: nat :| k < |delayed| && IsTop(delayed, k);
      SearchTop(endings, normalize, delayed, bs, paths, left, k);
      var top := delayed[k];
      var crumb, pushed;
      ghost var choices, news;
      crumb, pushed, choices, news := FollowBest(endings, normalize, top, bs[k]);
      SearchStep(endings, normalize, delayed, bs, paths, left, k, pushed, choices, news);
      delayed := delayed[..k] + delayed[k+1..] + pushed;
      // The set of sentences compares chains of crumbs by identity, and each chain is new.
      ReturnedMore(endings, normalize, finished, paths, Path(bs[k].ending, choices));
      finished := finished + [CompletedHypothesis(top.score, top.features, Locations(crumb))];
      paths, left := paths + [Path(bs[k].ending, choices)], left - {Path(bs[k].ending, choices)};
      bs := bs[..k] + bs[k+1..] + news;
      if |finished| == number { break; }
    }
    SearchFound(endings, normalize, delayed, bs, paths, left);
    if delayed == [] { SearchEnd(endings, normalize, bs, paths, left); }
  }

  /** The k-best list of a beam that holds at most `maxSize` endings. */
  method MakeCompletedHypotheses(beam: seq<Ending>, normalize: bool, maxSize: nat)
    returns (finished: seq<CompletedHypothesis>, ghost paths: seq<Path>)
    requires ValidBeam(beam) && maxSize > 0
    ensures BestPaths(beam, normalize, paths)
    ensures Returned(beam, normalize, finished, paths)
    ensures |finished| == if maxSize <= |AllPaths(beam)| then maxSize else |AllPaths(beam)|
  {
    hide Matches, BestPaths, Outcome;
    var delayed := [];
    for e := 0 to |beam|
      invariant |delayed| == e
      invariant forall j :: 0 <= j < e ==> Matches(beam, normalize, delayed[j], Branch(j, [], 0))
    {
      FirstMatches(beam, normalize, e);
      delayed := delayed + [FromEnding(beam[e], normalize)];
    }
    finished, paths := Completed(beam, delayed, normalize, maxSize);
  }
}
