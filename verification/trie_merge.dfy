/**
 Merging the sorted n-gram streams, one per order, into one sorted stream in which no prefix is missing.

 Words are newest first, so a prefix of an n-gram is a shorter context of the same word.
 */
module TrieMerge {
  import NGrams
  import opened Wrappers

  type Word = NGrams.Word
  type Gram = NGrams.Gram

  // ----- lexicographic order

  predicate LexLess(a: Gram, b: Gram) {
    if b == [] then false
    else if a == [] then true
    else if a[0] != b[0] then a[0] < b[0]
    else LexLess(a[1..], b[1..])
  }

  predicate Prefix(p: Gram, g: Gram) {
    |p| <= |g| && g[..|p|] == p
  }

  /** How many leading words agree. */
  function Common(a: Gram, b: Gram): (c: nat)
    ensures c <= |a| && c <= |b| && a[..c] == b[..c]
    ensures c < |a| && c < |b| ==> a[c] != b[c]
  {
    if a == [] || b == [] || a[0] != b[0] then 0
    else
      var c := Common(a[1..], b[1..]);
      assert a[..c+1] == [a[0]] + a[1..][..c] && b[..c+1] == [b[0]] + b[1..][..c];
      c + 1
  }

  /** The order is decided where the words first differ. */
  lemma {:induction false} LexAt(a: Gram, b: Gram)
    ensures var c := Common(a, b);
      LexLess(a, b) <==> c < |b| && (c == |a| || a[c] < b[c])
  {
    if a != [] && b != [] && a[0] == b[0] {
      LexAt(a[1..], b[1..]);
      var c := Common(a[1..], b[1..]);
      assert c < |a[1..]| ==> a[1..][c] == a[c+1];
      assert c < |b[1..]| ==> b[1..][c] == b[c+1];
    }
  }

  lemma {:induction false} LexTransitive(a: Gram, b: Gram, c: Gram)
    requires LexLess(a, b) && LexLess(b, c)
    ensures LexLess(a, c)
  {
    if a != [] && a[0] == b[0] && b[0] == c[0] {
      LexTransitive(a[1..], b[1..], c[1..]);
    }
  }

  lemma {:induction false} LexTotal(a: Gram, b: Gram)
    ensures LexLess(a, b) || a == b || LexLess(b, a)
    ensures !(LexLess(a, b) && LexLess(b, a)) && !LexLess(a, a)
  {
    if a != [] && b != [] && a[0] == b[0] {
      LexTotal(a[1..], b[1..]);
      assert a == [a[0]] + a[1..] && b == [b[0]] + b[1..];
    } else if a != [] {
      LexTotal(a[1..], a[1..]);
    }
  }

  lemma {:induction false} PrefixLess(p: Gram, g: Gram)
    requires Prefix(p, g)
    ensures p == g || LexLess(p, g)
  {
    if p != [] {
      assert p[0] == g[0];
      assert g[1..][..|p|-1] == p[1..];
      PrefixLess(p[1..], g[1..]);
      assert p == [p[0]] + p[1..] && g == [g[0]] + g[1..];
    }
  }

  /** Whatever lies between two n-grams with the same prefix has that prefix too. */
  lemma {:induction false} Between(p: Gram, a: Gram, b: Gram, c: Gram)
    requires Prefix(p, a) && Prefix(p, c)
    requires (a == b || LexLess(a, b)) && LexLess(b, c)
    ensures Prefix(p, b)
  {
    if p != [] {
      assert p[0] == a[0] == c[0];
      assert a[1..][..|p|-1] == p[1..] && c[1..][..|p|-1] == p[1..];
      LexTotal(a[1..], b[1..]);
      Between(p[1..], a[1..], b[1..], c[1..]);
      assert b[..|p|] == [b[0]] + b[1..][..|p|-1];
      assert p == [p[0]] + p[1..];
    }
  }

  lemma CommonPrefix(p: Gram, a: Gram, b: Gram)
    requires Prefix(p, a) && Prefix(p, b)
    ensures |p| <= Common(a, b)
  {
    assert forall i :: 0 <= i < |p| ==> p[i] == a[..|p|][i] && p[i] == b[..|p|][i];
  }

  // ----- blanks

  /** What the merge hands on: an n-gram of the input, or a missing prefix with the order and the probability of
      the longest of its own prefixes that is in the input. */
  datatype Event =
    | Real(gram: Gram, prob: real)
    | Blank(gram: Gram, basedOn: nat, basis: real)

  function LongestReal(seen: map<Gram, real>, g: Gram): (k: nat)
    ensures k <= |g| && (k > 0 ==> g[..k] in seen)
    ensures forall j :: k < j <= |g| ==> g[..j] !in seen
  {
    if g == [] then 0
    else if g in seen then
      assert g[..|g|] == g;
      |g|
    else
      var k := LongestReal(seen, g[..|g|-1]);
      assert forall j :: 0 <= j < |g| ==> g[..|g|-1][..j] == g[..j];
      assert g[..|g|] == g;
      k
  }

  function BlankFor(seen: map<Gram, real>, g: Gram): (blank: Event) {
    Blank(g, LongestReal(seen, g), BasisOf(seen, g))
  }

  /** Blanks for the prefixes of `g` longer than `from` and up to length `to`. */
  function Blanks(seen: map<Gram, real>, g: Gram, from: nat, to: nat): (r: seq<Event>)
    requires from <= to <= |g|
    ensures |r| == to - from && forall i :: 0 <= i < |r| ==> r[i] == BlankFor(seen, g[..from+1+i])
  {
    if from == to then [] else Blanks(seen, g, from, to - 1) + [BlankFor(seen, g[..to])]
  }

  lemma {:induction false} LongestRealLower(seen: map<Gram, real>, g: Gram, c: nat, m: nat)
    requires c <= m <= |g| && forall k :: c < k <= m ==> g[..k] !in seen
    ensures LongestReal(seen, g[..m]) == LongestReal(seen, g[..c])
  {
    if c < m {
      LongestRealLower(seen, g, c, m - 1);
      assert g[..m][..m-1] == g[..m-1];
    }
  }

  lemma SharedPrefix(last: Gram, to: Gram, first: nat)
    requires first < |to| && first == if Common(last, to) < |to| then Common(last, to) else |to| - 1
    ensures first <= |last| && last[..first] == to[..first] && (first > 0 ==> Common(last, to) > 0)
    ensures first == 0 && |to| > 1 ==> Common(last, to) == 0
  {
    CutAgain(last, Common(last, to), first);
    CutAgain(to, Common(last, to), first);
  }

  lemma CutAgain<T>(s: seq<T>, k: nat, c: nat)
    requires c <= k <= |s|
    ensures s[..k][..c] == s[..c]
  {}

  lemma LastWord(been: seq<Word>, to: Gram)
    requires 1 <= |to| <= |been| && been[..|to|-1] == to[..|to|-1] && been[|to|-1] == to[|to|-1]
    ensures been[..|to|] == to
  {
    assert to == to[..|to|-1] + [to[|to|-1]];
  }

  class BlankManager {
    const maxOrder: nat
    const been: array<Word>
    var beenLength: nat
    const basis: array<Option<real>>
    ghost var seen: map<Gram, real>

    ghost predicate Valid()
      reads this, been, basis
    {
      && maxOrder > 0 && been.Length == basis.Length == maxOrder && beenLength <= maxOrder
      && BasisFor(seen, been[..beenLength], basis[..])
    }

    ghost function Been(): (gram: Gram)
      reads this, been
      requires beenLength <= been.Length
    {
      been[..beenLength]
    }

    constructor (maxOrder: nat)
      requires maxOrder > 0
      ensures Valid() && Been() == [] && seen == map[] && this.maxOrder == maxOrder
      ensures fresh(been) && fresh(basis)
    {
      this.maxOrder, beenLength, seen := maxOrder, 0, map[];
      been, basis := new Word[maxOrder](_ => 0), new Option<real>[maxOrder](_ => None);
    }

    /** How many words, short of the last, `to` shares with the last n-gram. */
    method Shared(to: Gram) returns (cur: nat)
      requires 1 <= |to| && beenLength <= been.Length
      ensures cur == if Common(Been(), to) < |to| then Common(Been(), to) else |to| - 1
    {
      var overlap := if |to| - 1 < beenLength then |to| - 1 else beenLength;
      cur := 0;
      while cur < overlap && been[cur] == to[cur]
        invariant cur <= overlap && been[..cur] == to[..cur]
      {
        cur := cur + 1;
      }
      assert Been()[..cur] == been[..cur];
      SharedWords(Been(), to, cur);
    }

    /** The longest of the first `cur` words that is not a blank. */
    method LowerBasis(cur: nat) returns (lower: nat)
      requires 0 < cur <= beenLength <= been.Length && been.Length == basis.Length
      requires basis[0] != None
      ensures lower < cur && basis[lower] != None && forall k :: lower < k < cur ==> basis[k] == None
    {
      lower := cur - 1;
      while basis[lower] == None
        invariant lower < cur && forall k :: lower < k < cur ==> basis[k] == None
        decreases lower
      {
        lower := lower - 1;
      }
    }

    /** Move on to `to`, first inserting blanks for the prefixes that the last n-gram does not share.  It fails when
        the first word is not the last unigram. */
    method Visit(to: Gram, prob: real) returns (ok: bool, blanks: seq<Event>)
      requires Valid() && 1 <= |to| <= maxOrder
      requires forall k :: Common(Been(), to) < k <= |to| ==> to[..k] !in seen
      modifies this, been, basis
      ensures ok <==> |to| == 1 || Common(old(Been()), to) > 0
      ensures ok ==> Valid() && Been() == to && seen == old(seen)[to := prob]
      ensures ok ==> var c := if Common(old(Been()), to) < |to| then Common(old(Been()), to) else |to| - 1;
        blanks == Blanks(old(seen), to, c, |to| - 1)
    {
      hide LongestReal, Blanks, BlankFor, BasisFor, Common;
      ghost var last, bases := Been(), basis[..];
      blanks := [];
      basis[|to|-1] := Some(prob);
      var first := Shared(to);
      SharedPrefix(last, to, first);
      assert been[..first] == last[..first];
      ok := first > 0 || |to| == 1;
      if !ok { return; }
      blanks := FillIn(to, first, last, bases);
      been[|to|-1] := to[|to|-1];
      beenLength := |to|;
      seen := seen[to := prob];
      LastWord(been[..], to);
      BasisNow(old(seen), last, bases, to, prob, first, basis[..]);
    }

    method FillIn(to: Gram, first: nat, ghost last: Gram, ghost bases: seq<Option<real>>) returns (blanks: seq<Event>)
      requires first < |to| <= been.Length && been.Length == basis.Length && first <= beenLength <= been.Length
      requires BasisFor(seen, last, bases) && first <= |last| && last[..first] == to[..first] == been[..first]
      requires first > 0 || |to| == 1
      requires |bases| == basis.Length && forall k :: 0 <= k < |to| - 1 ==> basis[k] == bases[k]
      requires forall k :: first < k < |to| ==> to[..k] !in seen
      modifies been, basis
      ensures blanks == Blanks(seen, to, first, |to| - 1)
      ensures been[..|to|-1] == to[..|to|-1]
      ensures forall i :: 0 <= i < basis.Length ==>
        basis[i] == if first <= i < |to| - 1 then None else old(basis[i])
    {
      hide LongestReal, Blanks, BlankFor, BasisFor, BasisOf;
      blanks := [];
      if first < |to| - 1 {
        // Every order from first + 1 up to just below |to| gets a blank.
        SharedBasis(seen, last, bases, to, first);
        var lower := LowerBasis(first);
        BlankBasis(seen, last, bases, to, first, lower);
        blanks := InsertBlanks(to, first, lower);
      } else {
        BlanksNone(seen, to, first);
      }
    }

    method InsertBlanks(to: Gram, first: nat, lower: nat) returns (blanks: seq<Event>)
      requires lower < first < |to| <= been.Length && been.Length == basis.Length && been[..first] == to[..first]
      requires basis[lower] == Some(BasisOf(seen, to[..first]))
      requires LongestReal(seen, to[..first]) == lower + 1
      requires forall k :: first < k < |to| ==> to[..k] !in seen
      modifies been, basis
      ensures blanks == Blanks(seen, to, first, |to| - 1)
      ensures been[..|to|-1] == to[..|to|-1]
      ensures forall i :: 0 <= i < basis.Length ==>
        basis[i] == if first <= i < |to| - 1 then None else old(basis[i])
    {
      hide LongestReal, Blanks, BlankFor, BasisOf;
      BlanksNone(seen, to, first);
      blanks := [];
      var cur := first;
      while cur < |to| - 1
        invariant first <= cur <= |to| - 1
        invariant been[..cur] == to[..cur]
        invariant forall i :: 0 <= i < basis.Length ==> basis[i] == if first <= i < cur then None else old(basis[i])
        invariant blanks == Blanks(seen, to, first, cur)
      {
        BlanksMore(seen, to, first, cur, lower);
        blanks := blanks + [Blank(to[..cur+1], lower + 1, basis[lower].value)];
        been[cur] := to[cur];
        assert been[..cur+1] == to[..cur+1] by { assert to[..cur+1] == to[..cur] + [to[cur]]; }
        // No later blank may take its probability from this one.
        basis[cur] := None;
        cur := cur + 1;
      }
    }
  }

  /** The probability of the longest prefix that is in the input. */
  function BasisOf(seen: map<Gram, real>, g: Gram): (basis: real) {
    var k := LongestReal(seen, g);
    if k > 0 then seen[g[..k]] else 0.0
  }

  lemma BlanksNone(seen: map<Gram, real>, to: Gram, first: nat)
    requires first <= |to|
    ensures Blanks(seen, to, first, first) == []
  {}

  lemma BlanksMore(seen: map<Gram, real>, to: Gram, first: nat, cur: nat, lower: nat)
    requires lower < first <= cur < |to| && LongestReal(seen, to[..first]) == lower + 1
    requires forall k :: first < k <= cur + 1 ==> to[..k] !in seen
    ensures Blanks(seen, to, first, cur + 1) ==
            Blanks(seen, to, first, cur) + [Blank(to[..cur+1], lower + 1, BasisOf(seen, to[..first]))]
  {
    LongestRealLower(seen, to, first, cur + 1);
    assert to[..cur+1][..lower+1] == to[..lower+1] == to[..first][..lower+1];
  }

  lemma SharedBasis(seen: map<Gram, real>, last: Gram, basis: seq<Option<real>>, to: Gram, first: nat)
    requires BasisFor(seen, last, basis) && 0 < first <= |last| && first <= |to| && last[..first] == to[..first]
    ensures basis[0] != None
  {
    assert basis[1-1] == basis[0];
  }

  /** The basis found is that of the longest prefix in the input. */
  lemma BlankBasis(seen: map<Gram, real>, last: Gram, basis: seq<Option<real>>, to: Gram, first: nat, lower: nat)
    requires BasisFor(seen, last, basis) && lower < first <= |last| && first <= |to| && last[..first] == to[..first]
    requires basis[lower] != None && forall k :: lower < k < first ==> basis[k] == None
    ensures LongestReal(seen, to[..first]) == lower + 1 && basis[lower] == Some(BasisOf(seen, to[..first]))
  {
    assert forall k :: 0 <= k <= first ==> to[..first][..k] == last[..first][..k] == last[..k];
    assert basis[(lower+1)-1] == basis[lower] && to[..first][..lower+1] == last[..lower+1];
    forall k | lower + 1 < k <= first ensures to[..first][..k] !in seen {
      assert basis[k-1] == None;
    }
  }

  lemma SharedWords(last: Gram, to: Gram, cur: nat)
    requires cur < |to| && cur <= |last| && last[..cur] == to[..cur]
    requires cur == |to| - 1 || cur == |last| || last[cur] != to[cur]
    ensures cur == if Common(last, to) < |to| then Common(last, to) else |to| - 1
  {
    CommonPrefix(last[..cur], last, to);
    var c := Common(last, to);
    if c > cur {
      assert last[..c][cur] == to[..c][cur];
    }
  }

  lemma BasisNow(seen: map<Gram, real>, last: Gram, before: seq<Option<real>>, to: Gram, prob: real, first: nat,
                 basis: seq<Option<real>>)
    requires BasisFor(seen, last, before) && |basis| == |before| && 1 <= |to| <= |basis|
    requires first <= |last| && first < |to| && last[..first] == to[..first] && (first > 0 || |to| == 1)
    requires forall k :: first < k <= |to| ==> to[..k] !in seen || k == |to|
    requires forall i :: 0 <= i < first ==> basis[i] == before[i]
    requires forall i :: first <= i < |to| - 1 ==> basis[i] == None
    requires basis[|to|-1] == Some(prob)
    ensures BasisFor(seen[to := prob], to, basis)
  {
    assert to[..|to|] == to;
    forall k | 1 <= k <= |to|
      ensures basis[k-1] == if to[..k] in seen[to := prob] then Some(seen[to := prob][to[..k]]) else None
    {
      if k < |to| { assert to[..k] != to; }
      if k <= first { assert to[..k] == to[..first][..k] == last[..first][..k] == last[..k]; }
    }
    if first > 0 { assert to[..1] == to[..first][..1] == last[..first][..1] == last[..1]; }
  }

  /** The basis of each prefix of the last n-gram is its probability if it was in the input. */
  ghost predicate BasisFor(seen: map<Gram, real>, last: Gram, basis: seq<Option<real>>) {
    && |last| <= |basis|
    && (forall k :: 1 <= k <= |last| ==> basis[k-1] == if last[..k] in seen then Some(seen[last[..k]]) else None)
    && (|last| > 0 ==> last[..1] in seen)
  }

  // ----- what the merged stream is

  function EventFor(seen: map<Gram, real>, g: Gram): (event: Event) {
    if g in seen then Real(g, seen[g]) else BlankFor(seen, g)
  }

  ghost predicate Has(events: seq<Event>, g: Gram) {
    exists i :: 0 <= i < |events| && events[i].gram == g
  }

  ghost predicate Increasing(events: seq<Event>) {
    forall i, j :: 0 <= i < j < |events| ==> LexLess(events[i].gram, events[j].gram)
  }

  /** Sorted, with every input n-gram, with no prefix missing, and with the right kind of event for each. */
  ghost predicate Listed(events: seq<Event>, seen: map<Gram, real>) {
    && Increasing(events)
    && (forall i :: 0 <= i < |events| ==> events[i].gram != [] && events[i] == EventFor(seen, events[i].gram))
    && (forall i, k :: 0 <= i < |events| && 1 <= k <= |events[i].gram| ==> Has(events, events[i].gram[..k]))
    && (forall g :: g in seen ==> Has(events, g))
  }

  ghost predicate IsPrefix(p: Gram, seen: map<Gram, real>) {
    exists g :: g in seen && Prefix(p, g)
  }

  /** Nothing is inserted that is not a prefix of an input n-gram. */
  ghost predicate Rooted(events: seq<Event>, seen: map<Gram, real>) {
    forall i :: 0 <= i < |events| ==> IsPrefix(events[i].gram, seen)
  }

  /** The n-grams of the stream are exactly the non-empty prefixes of those in the input. */
  lemma ListsPrefixes(events: seq<Event>, seen: map<Gram, real>, p: Gram)
    requires Listed(events, seen) && Rooted(events, seen)
    ensures Has(events, p) <==> p != [] && IsPrefix(p, seen)
  {
    hide EventFor, Increasing, Prefix;
    if p != [] {
      if g :| g in seen && Prefix(p, g) { PrefixListed(events, seen, p, g); }
    }
  }

  lemma PrefixListed(events: seq<Event>, seen: map<Gram, real>, p: Gram, g: Gram)
    requires Listed(events, seen) && g in seen && Prefix(p, g) && p != []
    ensures Has(events, p)
  {
    hide EventFor, Increasing;
    var i :| 0 <= i < |events| && events[i].gram == g;
    assert events[i].gram[..|p|] == p;
  }

  ghost function Last(events: seq<Event>): (gram: Gram) {
    if events == [] then [] else events[|events|-1].gram
  }

  lemma UpToLast(events: seq<Event>, g: Gram)
    requires Increasing(events) && Has(events, g)
    ensures g == Last(events) || LexLess(g, Last(events))
  {
    var i :| 0 <= i < |events| && events[i].gram == g;
    assert i < |events| - 1 ==> LexLess(events[i].gram, events[|events|-1].gram);
  }

  lemma HasMore(events: seq<Event>, e: Event, g: Gram)
    ensures Has(events + [e], g) <==> Has(events, g) || g == e.gram
  {
    if Has(events, g) {
      var i :| 0 <= i < |events| && events[i].gram == g;
      assert (events + [e])[i].gram == g;
    }
    assert (events + [e])[|events|] == e;
  }

  /** A blank goes after everything before it. */
  lemma ListBlank(events: seq<Event>, seen: map<Gram, real>, p: Gram)
    requires Listed(events, seen) && LexLess(Last(events), p) && p !in seen
    requires |p| > 1 ==> Has(events, p[..|p|-1])
    ensures Listed(events + [BlankFor(seen, p)], seen) && Last(events + [BlankFor(seen, p)]) == p
  {
    hide EventFor, BlankFor, LexLess;
    assert EventFor(seen, p) == BlankFor(seen, p) && BlankFor(seen, p).gram == p by { BlankGram(seen, p); }
    ListOne(events, seen, BlankFor(seen, p));
  }

  lemma BlankGram(seen: map<Gram, real>, p: Gram)
    requires p !in seen
    ensures EventFor(seen, p) == BlankFor(seen, p) && BlankFor(seen, p).gram == p
  {}

  lemma ListOne(events: seq<Event>, seen: map<Gram, real>, e: Event)
    requires Listed(events, seen) && LexLess(Last(events), e.gram) && e == EventFor(seen, e.gram)
    requires |e.gram| > 1 ==> Has(events, e.gram[..|e.gram|-1])
    ensures Listed(events + [e], seen)
  {
    hide EventFor, LexLess;
    assert e.gram != [] by { NotBelowEmpty(Last(events), e.gram); }
    IncreasingMore(events, e);
    forall g ensures Has(events + [e], g) <==> Has(events, g) || g == e.gram { HasMore(events, e, g); }
    forall i, k | 0 <= i < |events + [e]| && 1 <= k <= |(events + [e])[i].gram|
      ensures Has(events + [e], (events + [e])[i].gram[..k])
    {
      if i == |events| { PrefixesHere(events, seen, e.gram, k); }
    }
  }

  lemma NotBelowEmpty(a: Gram, b: Gram)
    requires LexLess(a, b)
    ensures b != []
  {}

  lemma PrefixesHere(events: seq<Event>, seen: map<Gram, real>, g: Gram, k: nat)
    requires Listed(events, seen) && 1 <= k <= |g| && (|g| > 1 ==> Has(events, g[..|g|-1]))
    ensures g[..k] == g || Has(events, g[..k])
  {
    hide EventFor, Increasing;
    if k < |g| {
      var i :| 0 <= i < |events| && events[i].gram == g[..|g|-1];
      assert events[i].gram[..k] == g[..k];
    }
  }

  lemma IncreasingMore(events: seq<Event>, e: Event)
    requires Increasing(events) && LexLess(Last(events), e.gram)
    ensures Increasing(events + [e])
  {
    hide LexLess;
    forall i | 0 <= i < |events| ensures LexLess(events[i].gram, e.gram) {
      if i < |events| - 1 { LexTransitive(events[i].gram, Last(events), e.gram); }
    }
  }

  /** When an n-gram after all others joins the input, the events before it stay right. */
  lemma SeenMore(events: seq<Event>, seen: map<Gram, real>, to: Gram, prob: real)
    requires Listed(events, seen) && LexLess(Last(events), to)
    requires |to| > 1 ==> Has(events, to[..|to|-1])
    ensures Listed(events + [Real(to, prob)], seen[to := prob])
  {
    hide EventFor, LexLess, Increasing;
    var seen', events' := seen[to := prob], events + [Real(to, prob)];
    assert to != [] by { NotBelowEmpty(Last(events), to); }
    IncreasingMore(events, Real(to, prob));
    forall g ensures Has(events', g) <==> Has(events, g) || g == to { HasMore(events, Real(to, prob), g); }
    forall i | 0 <= i < |events| ensures EventFor(seen', events[i].gram) == EventFor(seen, events[i].gram) {
      NotPrefixOfEarlier(events, i, to);
      EventStable(seen, events[i].gram, to, prob);
    }
    assert EventFor(seen', to) == Real(to, prob) by { RealEvent(seen', to); }
    forall i, k | 0 <= i < |events'| && 1 <= k <= |events'[i].gram| ensures Has(events', events'[i].gram[..k]) {
      if i == |events| { PrefixesHere(events, seen, to, k); }
    }
  }

  lemma RealEvent(seen: map<Gram, real>, g: Gram)
    requires g in seen
    ensures EventFor(seen, g) == Real(g, seen[g])
  {}

  lemma NotPrefixOfEarlier(events: seq<Event>, i: nat, to: Gram)
    requires Increasing(events) && LexLess(Last(events), to) && i < |events|
    ensures !Prefix(to, events[i].gram)
  {
    var g := events[i].gram;
    if i < |events| - 1 { LexTransitive(g, Last(events), to); }
    if Prefix(to, g) { PrefixLess(to, g); }
    LexTotal(g, to);
  }

  lemma {:induction false} EventStable(seen: map<Gram, real>, g: Gram, to: Gram, prob: real)
    requires !Prefix(to, g)
    ensures EventFor(seen[to := prob], g) == EventFor(seen, g)
    ensures LongestReal(seen[to := prob], g) == LongestReal(seen, g)
  {
    assert g != to;
    if g != [] && g !in seen {
      assert |to| <= |g| - 1 ==> g[..|g|-1][..|to|] == g[..|to|];
      EventStable(seen, g[..|g|-1], to, prob);
    }
    var k := LongestReal(seen, g);
    assert g[..k] == to ==> Prefix(to, g);
  }

  /** The blanks inserted before `to` and then `to` continue the stream. */
  lemma {:induction false} ListBlanks(events: seq<Event>, seen: map<Gram, real>, to: Gram, c: nat, m: nat)
    requires Listed(events, seen) && LexLess(Last(events), to) && c <= m < |to|
    requires c == Common(Last(events), to) || m == c
    requires c > 0 ==> Has(events, to[..c])
    ensures var events' := events + Blanks(seen, to, c, m);
      && Listed(events', seen) && LexLess(Last(events'), to) && (m > 0 ==> Has(events', to[..m]))
      && (c < m ==> Last(events') == to[..m])
  {
    hide EventFor, BlankFor, LexLess, Increasing, Listed, Blanks, Has;
    if c == m {
      BlanksNone(seen, to, c);
      assert events + [] == events;
    } else {
      ListBlanks(events, seen, to, c, m - 1);
      var before := events + Blanks(seen, to, c, m - 1);
      var p := to[..m];
      assert to[..m][..m-1] == to[..m-1];
      AfterLast(Last(events), Last(before), to, c, m);
      UnseenAfter(before, seen, p);
      ListBlank(before, seen, p);
      BlanksSplit(events, seen, to, c, m);
      HasMore(before, BlankFor(seen, p), p);
      BlankGram(seen, p);
      PrefixLess(p, to);
    }
  }

  lemma BlanksSplit(events: seq<Event>, seen: map<Gram, real>, to: Gram, c: nat, m: nat)
    requires c < m <= |to|
    ensures events + Blanks(seen, to, c, m) == events + Blanks(seen, to, c, m - 1) + [BlankFor(seen, to[..m])]
  {}

  lemma UnseenAfter(events: seq<Event>, seen: map<Gram, real>, p: Gram)
    requires Listed(events, seen) && LexLess(Last(events), p)
    ensures p !in seen
  {
    hide EventFor;
    if p in seen {
      UpToLast(events, p);
    }
    LexTotal(p, Last(events));
  }

  lemma AfterLast(last: Gram, before: Gram, to: Gram, c: nat, m: nat)
    requires LexLess(last, to) && c == Common(last, to) < m < |to|
    requires before == if m == c + 1 then last else to[..m-1]
    ensures LexLess(before, to[..m])
  {
    if m == c + 1 {
      LexAt(last, to);
      CommonPrefix(to[..c], last, to[..m]);
      LexAt(last, to[..m]);
    } else {
      assert to[..m][..m-1] == to[..m-1];
      PrefixLess(to[..m-1], to[..m]);
    }
  }

  // ----- the merge

  datatype Record = Record(gram: Gram, prob: real)

  /** Stream `o` has the n-grams of order `o + 1`, strictly increasing; the first counts up all unigrams. */
  ghost predicate SortedStreams(streams: seq<seq<Record>>) {
    && |streams| > 0
    && (forall u :: 0 <= u < |streams[0]| ==> streams[0][u].gram == [u])
    && (forall o, j :: 0 <= o < |streams| && 0 <= j < |streams[o]| ==> |streams[o][j].gram| == o + 1)
    && (forall o, j, k :: 0 <= o < |streams| && 0 <= j < k < |streams[o]| ==>
         LexLess(streams[o][j].gram, streams[o][k].gram))
  }

  /** The n-grams before the heads `at`, with their probabilities. */
  ghost predicate Read(streams: seq<seq<Record>>, at: seq<nat>, seen: map<Gram, real>) {
    && |at| == |streams| && (forall o :: 0 <= o < |at| ==> at[o] <= |streams[o]|)
    && (forall o, j :: 0 <= o < |at| && 0 <= j < at[o] ==>
         streams[o][j].gram in seen && seen[streams[o][j].gram] == streams[o][j].prob)
    && (forall g :: g in seen ==> exists o, j :: 0 <= o < |at| && 0 <= j < at[o] && streams[o][j].gram == g)
  }

  function Ends(streams: seq<seq<Record>>): (at: seq<nat>)
    ensures |at| == |streams| && forall o :: 0 <= o < |at| ==> at[o] == |streams[o]|
  {
    seq(|streams|, o requires 0 <= o < |streams| => |streams[o]|)
  }

  predicate KnownFirst(streams: seq<seq<Record>>, g: Gram)
    requires |streams| > 0
  {
    g != [] && g[0] < |streams[0]|
  }

  /** No input n-gram starts with an unknown word. */
  ghost predicate AllKnown(streams: seq<seq<Record>>)
    requires |streams| > 0
  {
    forall o, j :: 0 <= o < |streams| && 0 <= j < |streams[o]| ==> KnownFirst(streams, streams[o][j].gram)
  }

  /** The queue has the streams that are not at their ends; their heads come after everything so far. */
  ghost predicate Merging(streams: seq<seq<Record>>, at: seq<nat>, queue: set<nat>, seen: map<Gram, real>,
                          events: seq<Event>) {
    && SortedStreams(streams) && Read(streams, at, seen) && Listed(events, seen) && Rooted(events, seen)
    && (forall o :: o in queue <==> 0 <= o < |at| && at[o] < |streams[o]|)
    && (forall o :: o in queue ==> LexLess(Last(events), streams[o][at[o]].gram))
    && (forall g :: g in seen ==> KnownFirst(streams, g))
  }

  /** The queue hands out the least head. */
  predicate IsTop(streams: seq<seq<Record>>, at: seq<nat>, queue: set<nat>, o: nat)
    requires |at| == |streams| && forall o :: o in queue ==> o < |at| && at[o] < |streams[o]|
  {
    o in queue && forall i :: i in queue ==> !LexLess(streams[i][at[i]].gram, streams[o][at[o]].gram)
  }

  lemma TopExists(streams: seq<seq<Record>>, at: seq<nat>, queue: set<nat>)
    requires |at| == |streams| && forall o :: o in queue ==> o < |at| && at[o] < |streams[o]|
    requires queue != {}
    ensures exists o :: o in queue && IsTop(streams, at, queue, o)
    decreases queue
  {
    var i :| i in queue;
    if queue == {i} {
      LexTotal(streams[i][at[i]].gram, streams[i][at[i]].gram);
      assert IsTop(streams, at, queue, i);
    } else {
      assert queue - {i} != {};
      TopExists(streams, at, queue - {i});
      var o :| o in queue - {i} && IsTop(streams, at, queue - {i}, o);
      TopOfTwo(streams, at, queue, i, o);
    }
  }

  lemma TopOfTwo(streams: seq<seq<Record>>, at: seq<nat>, queue: set<nat>, i: nat, o: nat)
    requires |at| == |streams| && forall o :: o in queue ==> o < |at| && at[o] < |streams[o]|
    requires i in queue && o in queue && IsTop(streams, at, queue - {i}, o)
    ensures IsTop(streams, at, queue, if LexLess(streams[i][at[i]].gram, streams[o][at[o]].gram) then i else o)
  {
    hide LexLess;
    var a, b := streams[i][at[i]].gram, streams[o][at[o]].gram;
    LexTotal(a, a);
    forall k | k in queue ensures !LexLess(streams[k][at[k]].gram, if LexLess(a, b) then a else b) {
      var c := streams[k][at[k]].gram;
      if LexLess(a, b) && LexLess(c, a) { LexTransitive(c, a, b); }
      assert k != i ==> k in queue - {i};
    }
  }

  /** What is at the head is not yet seen, nor is any prefix that the last n-gram does not share. */
  lemma Unseen(events: seq<Event>, seen: map<Gram, real>, to: Gram, k: nat)
    requires Listed(events, seen) && LexLess(Last(events), to) && Common(Last(events), to) < k <= |to|
    ensures to[..k] !in seen
  {
    hide EventFor, LexLess, Common;
    if to[..k] in seen {
      UpToLast(events, to[..k]);
      PrefixLess(to[..k], to);
      Between(to[..k], to[..k], Last(events), to);
      CommonPrefix(to[..k], Last(events), to);
    }
  }

  /** The last n-gram shares the first word exactly if that is a known unigram. */
  lemma FirstShared(streams: seq<seq<Record>>, at: seq<nat>, queue: set<nat>, seen: map<Gram, real>,
                    events: seq<Event>, o: nat)
    requires Merging(streams, at, queue, seen, events) && o in queue && IsTop(streams, at, queue, o)
    ensures var to := streams[o][at[o]].gram;
      |to| == o + 1 && (o == 0 ==> to == [at[0]]) &&
      (KnownFirst(streams, to) <==> o == 0 || Common(Last(events), to) > 0)
  {
    hide Listed, Rooted, LexLess, EventFor, Common;
    var to := streams[o][at[o]].gram;
    if o > 0 {
      if to[0] < |streams[0]| {
        UnigramFirst(streams, at, queue, seen, events, o);
      }
      if Common(Last(events), to) > 0 {
        LastKnown(streams, seen, events);
        assert Last(events)[..1][0] == to[..1][0] by { SharesFirst(Last(events), to); }
      }
    }
  }

  lemma SharesFirst(a: Gram, b: Gram)
    requires Common(a, b) > 0
    ensures a != [] && b != [] && a[..1][0] == b[..1][0] && a[0] == b[0]
  {}

  lemma LastKnown(streams: seq<seq<Record>>, seen: map<Gram, real>, events: seq<Event>)
    requires |streams| > 0 && Rooted(events, seen) && forall g :: g in seen ==> KnownFirst(streams, g)
    ensures Last(events) == [] || KnownFirst(streams, Last(events))
  {
    if events != [] && Last(events) != [] {
      var g :| g in seen && Prefix(Last(events), g);
      assert g[..|Last(events)|][0] == g[0];
    }
  }

  lemma UnigramFirst(streams: seq<seq<Record>>, at: seq<nat>, queue: set<nat>, seen: map<Gram, real>,
                     events: seq<Event>, o: nat)
    requires Merging(streams, at, queue, seen, events) && o in queue && IsTop(streams, at, queue, o) && o > 0
    requires var to := streams[o][at[o]].gram; |to| == o + 1 && to[0] < |streams[0]|
    ensures Common(Last(events), streams[o][at[o]].gram) > 0
  {
    hide Rooted, EventFor, Common, LexLess, Increasing;
    var to := streams[o][at[o]].gram;
    var u := [to[0]];
    assert Prefix(u, to);
    HeadUnigram(at[0], to);
    assert at[0] <= to[0] ==> 0 in queue;
    assert 0 in queue ==> streams[0][at[0]].gram == [at[0]];
    assert streams[0][to[0]].gram == u;
    UpToLast(events, u);
    Between(u, u, Last(events), to);
    CommonPrefix(u, Last(events), to);
  }

  lemma HeadUnigram(u: Word, to: Gram)
    requires |to| > 1
    ensures u <= to[0] ==> LexLess([u], to)
  {}

  /** The stream after `to` and the blanks before it. */
  lemma ListStep(events: seq<Event>, seen: map<Gram, real>, to: Gram, prob: real, c: nat)
    requires Listed(events, seen) && Rooted(events, seen) && LexLess(Last(events), to) && to != []
    requires c == if Common(Last(events), to) < |to| then Common(Last(events), to) else |to| - 1
    ensures var events' := events + Blanks(seen, to, c, |to| - 1) + [Real(to, prob)];
      Listed(events', seen[to := prob]) && Rooted(events', seen[to := prob]) && Last(events') == to
  {
    hide EventFor, LexLess, Listed, Rooted, Common, Blanks, Has;
    if c > 0 { SharedListed(events, seen, to, c); }
    ListBlanks(events, seen, to, c, |to| - 1);
    SeenMore(events + Blanks(seen, to, c, |to| - 1), seen, to, prob);
    RootedMore(events, seen, to, prob, c);
  }

  lemma SharedListed(events: seq<Event>, seen: map<Gram, real>, to: Gram, c: nat)
    requires Listed(events, seen) && 0 < c <= Common(Last(events), to)
    ensures c <= |to| && Has(events, to[..c])
  {
    hide EventFor, Increasing, Common;
    var k := Common(Last(events), to);
    CutAgain(Last(events), k, c);
    CutAgain(to, k, c);
    assert Has(events, events[|events|-1].gram[..c]);
  }

  lemma RootedMore(events: seq<Event>, seen: map<Gram, real>, to: Gram, prob: real, c: nat)
    requires Rooted(events, seen) && c < |to|
    ensures Rooted(events + Blanks(seen, to, c, |to| - 1) + [Real(to, prob)], seen[to := prob])
  {
    hide BlankFor;
    var blanks := Blanks(seen, to, c, |to| - 1);
    var events' := events + blanks + [Real(to, prob)];
    forall i | 0 <= i < |events'| ensures IsPrefix(events'[i].gram, seen[to := prob]) {
      if i < |events| {
        assert events'[i] == events[i];
        var g :| g in seen && Prefix(events[i].gram, g);
        assert g in seen[to := prob];
      } else {
        assert events'[i] == if i < |events| + |blanks| then blanks[i-|events|] else Real(to, prob);
        BlankForGram(seen, to[..if i < |events| + |blanks| then c + 1 + i - |events| else |to|]);
        assert to in seen[to := prob] && Prefix(events'[i].gram, to);
      }
    }
  }

  lemma BlankForGram(seen: map<Gram, real>, g: Gram)
    ensures BlankFor(seen, g).gram == g
  {}

  lemma MergeStep(streams: seq<seq<Record>>, at: seq<nat>, queue: set<nat>, seen: map<Gram, real>,
                  events: seq<Event>, o: nat, events': seq<Event>)
    requires Merging(streams, at, queue, seen, events) && o in queue && IsTop(streams, at, queue, o)
    requires var r := streams[o][at[o]];
      && KnownFirst(streams, r.gram) && Listed(events', seen[r.gram := r.prob])
      && Rooted(events', seen[r.gram := r.prob]) && Last(events') == r.gram
    ensures var r := streams[o][at[o]];
      var queue' := if at[o] + 1 < |streams[o]| then queue else queue - {o};
      Merging(streams, at[o := at[o] + 1], queue', seen[r.gram := r.prob], events')
  {
    hide Listed, Rooted, LexLess, KnownFirst, Read;
    ReadBounds(streams, at, seen);
    var r, at' := streams[o][at[o]], at[o := at[o] + 1];
    ReadMore(streams, at, seen, o, events);
    ReadBounds(streams, at', seen[r.gram := r.prob]);
    var queue' := if at[o] + 1 < |streams[o]| then queue else queue - {o};
    forall i | i in queue' ensures LexLess(r.gram, streams[i][at'[i]].gram) {
      if i != o { LexTotal(r.gram, streams[i][at[i]].gram); }
    }
  }

  lemma ReadBounds(streams: seq<seq<Record>>, at: seq<nat>, seen: map<Gram, real>)
    requires Read(streams, at, seen)
    ensures |at| == |streams| && forall o :: 0 <= o < |at| ==> at[o] <= |streams[o]|
  {}

  lemma ReadMore(streams: seq<seq<Record>>, at: seq<nat>, seen: map<Gram, real>, o: nat, events: seq<Event>)
    requires Read(streams, at, seen) && o < |at| && at[o] < |streams[o]|
    requires Listed(events, seen) && LexLess(Last(events), streams[o][at[o]].gram)
    ensures Read(streams, at[o := at[o] + 1], seen[streams[o][at[o]].gram := streams[o][at[o]].prob])
  {
    hide Listed, LexLess;
    var r := streams[o][at[o]];
    UnseenAfter(events, seen, r.gram);
    var at', seen' := at[o := at[o] + 1], seen[r.gram := r.prob];
    forall g | g in seen' ensures exists i, j :: 0 <= i < |at'| && 0 <= j < at'[i] && streams[i][j].gram == g {
      if g == r.gram {
        assert at[o] < at'[o];
      } else {
        var i, j :| 0 <= i < |at| && 0 <= j < at[i] && streams[i][j].gram == g;
        assert j < at'[i];
      }
    }
  }

  /** The n-grams of the streams that are still to come. */
  ghost function Left(streams: seq<seq<Record>>, seen: map<Gram, real>): (remaining: set<Gram>) {
    set o, j | 0 <= o < |streams| && 0 <= j < |streams[o]| && streams[o][j].gram !in seen :: streams[o][j].gram
  }

  /** Hand on the blanks before the head of stream `o`, and then that. */
  method VisitHead(blank: BlankManager, streams: seq<seq<Record>>, at: seq<nat>, ghost queue: set<nat>,
                   ghost seen: map<Gram, real>, events: seq<Event>, o: nat)
    returns (ok: bool, events': seq<Event>)
    requires blank.Valid() && blank.seen == seen && blank.Been() == Last(events) && blank.maxOrder == |streams|
    requires Merging(streams, at, queue, seen, events) && o in queue && IsTop(streams, at, queue, o)
    modifies blank, blank.been, blank.basis
    ensures ok <==> KnownFirst(streams, streams[o][at[o]].gram)
    ensures ok ==> blank.Valid() && blank.Been() == Last(events')
    ensures ok ==> var r := streams[o][at[o]];
      var queue' := if at[o] + 1 < |streams[o]| then queue else queue - {o};
      blank.seen == seen[r.gram := r.prob] &&
      Merging(streams, at[o := at[o] + 1], queue', seen[r.gram := r.prob], events')
  {
    hide Merging, Listed, Rooted, SortedStreams, LexLess, KnownFirst, Common, Blanks, IsTop, BasisFor, Last;
    MergingBounds(streams, at, queue, seen, events);
    VisitReady(streams, at, queue, seen, events, o);
    var r := streams[o][at[o]];
    var blanks;
    ok, blanks := blank.Visit(r.gram, r.prob);
    events' := events;
    if ok {
      Advance(streams, at, queue, seen, events, o, blanks);
      events' := events + blanks + [Real(r.gram, r.prob)];
    }
  }

  /** Merge the streams, handing on blanks and n-grams in order.  It fails exactly if some n-gram starts with a word
      that is no unigram; otherwise `seen` is the whole input, the events are sorted, and they are what `EventFor`
      says for the non-empty prefixes of the input n-grams and for nothing else. */
  method RecursiveInsert(streams: seq<seq<Record>>) returns (ok: bool, events: seq<Event>, ghost seen: map<Gram, real>)
    requires SortedStreams(streams)
    ensures ok <==> AllKnown(streams)
    ensures ok ==> Read(streams, Ends(streams), seen) && Listed(events, seen) && Rooted(events, seen)
  {
    assert |streams| > 0 && Last([]) == [];
    hide Merging, Listed, Rooted, LexLess, Read, KnownFirst, Common, Blanks, IsTop, Left, SortedStreams, Last, BasisFor;
    var at: seq<nat> := seq(|streams|, _ => 0);
    var queue: set<nat> := set o: nat | o < |streams| && streams[o] != [];
    MergeStart(streams, at, queue);
    var blank := new BlankManager(|streams|);
    events, seen := [], map[];
    while queue != {}
      invariant blank.Valid() && blank.seen == seen && blank.Been() == Last(events) && blank.maxOrder == |streams|
      invariant fresh(blank) && fresh(blank.been) && fresh(blank.basis)
      invariant Merging(streams, at, queue, seen, events)
      decreases Left(streams, seen)
    {
      MergingBounds(streams, at, queue, seen, events);
      TopExists(streams, at, queue);
      var o :| o in queue && IsTop(streams, at, queue, o);
      var r := streams[o][at[o]];
      VisitReady(streams, at, queue, seen, events, o);
      ok, events := VisitHead(blank, streams, at, queue, seen, events, o);
      if !ok { return; }
      queue := if at[o] + 1 < |streams[o]| then queue else queue - {o};
      at := at[o := at[o] + 1];
      seen := seen[r.gram := r.prob];
    }
    ok := true;
    MergeEnd(streams, at, seen, events);
  }

  lemma VisitReady(streams: seq<seq<Record>>, at: seq<nat>, queue: set<nat>, seen: map<Gram, real>,
                   events: seq<Event>, o: nat)
    requires Merging(streams, at, queue, seen, events) && o in queue && IsTop(streams, at, queue, o)
    ensures var to := streams[o][at[o]].gram;
      && |to| == o + 1 && to !in seen && Left(streams, seen[to := streams[o][at[o]].prob]) < Left(streams, seen)
      && (forall k :: Common(Last(events), to) < k <= |to| ==> to[..k] !in seen)
      && (KnownFirst(streams, to) <==> |to| == 1 || Common(Last(events), to) > 0)
  {
    hide Listed, Rooted, LexLess, Read, KnownFirst, Common, IsTop;
    MergingBounds(streams, at, queue, seen, events);
    var to := streams[o][at[o]].gram;
    FirstShared(streams, at, queue, seen, events, o);
    forall k | Common(Last(events), to) < k <= |to| ensures to[..k] !in seen { Unseen(events, seen, to, k); }
    UnseenAfter(events, seen, to);
    assert to in Left(streams, seen);
  }

  lemma Advance(streams: seq<seq<Record>>, at: seq<nat>, queue: set<nat>, seen: map<Gram, real>,
                events: seq<Event>, o: nat, blanks: seq<Event>)
    requires Merging(streams, at, queue, seen, events) && o in queue && IsTop(streams, at, queue, o)
    requires var to := streams[o][at[o]].gram;
      && KnownFirst(streams, to)
      && var c := if Common(Last(events), to) < |to| then Common(Last(events), to) else |to| - 1;
         blanks == Blanks(seen, to, c, |to| - 1)
    ensures var r := streams[o][at[o]];
      var events' := events + blanks + [Real(r.gram, r.prob)];
      var queue' := if at[o] + 1 < |streams[o]| then queue else queue - {o};
      && Merging(streams, at[o := at[o] + 1], queue', seen[r.gram := r.prob], events') && Last(events') == r.gram
  {
    hide Merging, Listed, Rooted, LexLess, Read, Common, Blanks, IsTop;
    MergingBounds(streams, at, queue, seen, events);
    var r := streams[o][at[o]];
    var c := if Common(Last(events), r.gram) < |r.gram| then Common(Last(events), r.gram) else |r.gram| - 1;
    ListStep(events, seen, r.gram, r.prob, c);
    MergeStep(streams, at, queue, seen, events, o, events + blanks + [Real(r.gram, r.prob)]);
  }

  lemma MergingBounds(streams: seq<seq<Record>>, at: seq<nat>, queue: set<nat>, seen: map<Gram, real>,
                      events: seq<Event>)
    requires Merging(streams, at, queue, seen, events)
    ensures SortedStreams(streams) && |at| == |streams| > 0 && Listed(events, seen) && Rooted(events, seen)
    ensures forall o :: o in queue ==> o < |at| && at[o] < |streams[o]| && LexLess(Last(events), streams[o][at[o]].gram)
  {}

  lemma MergeStart(streams: seq<seq<Record>>, at: seq<nat>, queue: set<nat>)
    requires SortedStreams(streams) && at == seq(|streams|, _ => 0)
    requires queue == set o: nat | o < |streams| && streams[o] != []
    ensures Merging(streams, at, queue, map[], [])
  {}

  lemma MergeEnd(streams: seq<seq<Record>>, at: seq<nat>, seen: map<Gram, real>, events: seq<Event>)
    requires Merging(streams, at, {}, seen, events)
    ensures Read(streams, Ends(streams), seen) && Listed(events, seen) && Rooted(events, seen)
    ensures AllKnown(streams)
  {
    hide Listed, Rooted, KnownFirst;
    assert at == Ends(streams);
    forall o, j | 0 <= o < |streams| && 0 <= j < |streams[o]| ensures KnownFirst(streams, streams[o][j].gram) {
      assert j < at[o] && streams[o][j].gram in seen;
    }
  }

  /** Every blank has a basis: the longest of its prefixes in the input, which at least has its unigram. */
  lemma BlanksHaveBasis(streams: seq<seq<Record>>, events: seq<Event>, seen: map<Gram, real>, i: nat)
    requires SortedStreams(streams) && Read(streams, Ends(streams), seen) && Listed(events, seen) &&
      Rooted(events, seen)
    requires forall g :: g in seen ==> KnownFirst(streams, g)
    requires i < |events| && events[i].Blank?
    ensures var b := events[i];
      && 1 <= b.basedOn < |b.gram| && b.gram[..b.basedOn] in seen && b.basis == seen[b.gram[..b.basedOn]]
      && forall k :: b.basedOn < k <= |b.gram| ==> b.gram[..k] !in seen
  {
    hide Has, Increasing, LongestReal;
    var g := events[i].gram;
    var r :| r in seen && Prefix(g, r);
    assert r[..|g|][0] == r[0] && g[..1] == [g[0]] && g[..|g|] == g;
    assert streams[0][g[0]].gram == [g[0]];
    assert g[0] < Ends(streams)[0];
    assert events[i] == EventFor(seen, g);
  }
}
