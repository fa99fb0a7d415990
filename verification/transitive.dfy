/**
 Making word alignments transitive: closing each word's alignments and telling every word of a closure about all
 the others, unless the closure has two words of one engine.
 */
module Transitive {

  datatype Location = Location(engine: nat, offset: nat)

  datatype AlignType =
    | UnknownType | Exact | SnowballStem | WordNetStem | WordNetSynonymy | Paraphrase | Artificial | Self
    | TransitiveType | Boundary

  /** The word of another engine that a word is aligned to, and how; not at all if `kinds` is empty. */
  datatype AlignmentInfo = AlignmentInfo(offset: nat, kinds: set<AlignType>)

  /** For each engine and offset, the word's alignments to each engine. */
  type Text = seq<seq<seq<AlignmentInfo>>>

  predicate IsWord(t: Text, l: Location) {
    l.engine < |t| && l.offset < |t[l.engine]|
  }

  function Row(t: Text, l: Location): (row: seq<AlignmentInfo>)
    requires IsWord(t, l)
  {
    t[l.engine][l.offset]
  }

  ghost predicate Shaped(t: Text) {
    forall l :: IsWord(t, l) ==> |Row(t, l)| == |t|
  }

  /** `a` is aligned to `b`. */
  predicate Edge(t: Text, a: Location, b: Location) {
    IsWord(t, a) && b.engine < |Row(t, a)| && Row(t, a)[b.engine].kinds != {} && Row(t, a)[b.engine].offset == b.offset
  }

  /** Alignments are to words. */
  ghost predicate InRange(t: Text) {
    Shaped(t) && forall a, b :: Edge(t, a, b) ==> IsWord(t, b)
  }

  /** Alignments go both ways, and each word is aligned to itself. */
  ghost predicate Symmetric(t: Text) {
    && InRange(t)
    && (forall a, b :: Edge(t, a, b) ==> Edge(t, b, a))
    && (forall a :: IsWord(t, a) ==> Edge(t, a, a))
  }

  ghost predicate Closed(t: Text, s: set<Location>) {
    forall a, b :: a in s && Edge(t, a, b) ==> b in s
  }

  /** The least closed set with this word. */
  ghost predicate IsClosure(t: Text, start: Location, s: set<Location>) {
    start in s && Closed(t, s) && forall c: set<Location> :: start in c && Closed(t, c) ==> s <= c
  }

  ghost function Words(t: Text): (w: set<Location>)
    ensures forall l :: l in w <==> IsWord(t, l)
  {
    set e, o | 0 <= e < |t| && 0 <= o < |t[e]| :: Location(e, o)
  }

  /** Add the words aligned to `pos` that are new to those seen and to those left to investigate. */
  method Investigate(t: Text, pos: Location, seen: set<Location>, open: seq<Location>)
    returns (seen': set<Location>, open': seq<Location>)
    requires InRange(t) && IsWord(t, pos)
    ensures seen <= seen' && forall b :: b in seen' <==> b in seen || Edge(t, pos, b)
    ensures forall l :: l in open' <==> l in open || (l in seen' && l !in seen)
    ensures seen' == seen ==> open' == open
  {
    seen', open' := seen, open;
    assert |Row(t, pos)| == |t|;
    for other := 0 to |t|
      invariant forall b :: b in seen' <==> b in seen || (Edge(t, pos, b) && b.engine < other)
      invariant forall l :: l in open' <==> l in open || (l in seen' && l !in seen)
      invariant seen' == seen ==> open' == open
    {
      var info := Row(t, pos)[other];
      var next := Location(other, info.offset);
      assert forall b :: Edge(t, pos, b) && b.engine == other ==> b == next;
      if info.kinds != {} && next !in seen' {
        seen' := seen' + {next};
        open' := open' + [next];
      }
    }
  }

  /** What has been seen is in every closed set with the start; only words still open may have unseen alignments. */
  ghost predicate Exploring(t: Text, start: Location, seen: set<Location>, open: seq<Location>) {
    && start in seen && (forall l :: l in open ==> l in seen) && (forall l :: l in seen ==> IsWord(t, l))
    && (forall a, b :: a in seen && a !in open && Edge(t, a, b) ==> b in seen)
    && (forall c: set<Location> :: start in c && Closed(t, c) ==> seen <= c)
  }

  lemma ExploreMore(t: Text, start: Location, seen: set<Location>, open: seq<Location>, pos: Location,
                    seen': set<Location>, open': seq<Location>)
    requires InRange(t) && Exploring(t, start, seen, open + [pos])
    requires seen <= seen' && forall b :: b in seen' <==> b in seen || Edge(t, pos, b)
    requires forall l :: l in open' <==> l in open || (l in seen' && l !in seen)
    ensures Exploring(t, start, seen', open')
  {
    assert pos in open + [pos];
    forall a, b | a in seen' && a !in open' && Edge(t, a, b) ensures b in seen' {
      if a != pos { assert a !in open + [pos]; }
    }
    forall c: set<Location> | start in c && Closed(t, c) ensures seen' <= c {
      assert seen <= c;
    }
  }

  /** All words found from the start by following alignments. */
  method CloseAlignment(t: Text, start: Location) returns (seen: set<Location>)
    requires InRange(t) && IsWord(t, start)
    ensures IsClosure(t, start, seen) && forall l :: l in seen ==> IsWord(t, l)
  {
    hide InRange, Edge, IsWord;
    var open := [start];
    seen := {start};
    while open != []
      invariant Exploring(t, start, seen, open)
      decreases Words(t) - seen, |open|
    {
      var pos := open[|open|-1];
      var rest := open[..|open|-1];
      assert open == rest + [pos];
      assert pos in open;
      var more, open' := Investigate(t, pos, seen, rest);
      ExploreMore(t, start, seen, rest, pos, more, open');
      if more != seen { assert Words(t) - more < Words(t) - seen by { Fewer(Words(t), seen, more); } }
      seen, open := more, open';
    }
  }

  lemma Fewer(all: set<Location>, a: set<Location>, b: set<Location>)
    requires a < b <= all
    ensures all - b < all - a
  {
    var x :| x in b && x !in a;
    assert x in all - a && x !in all - b;
  }

  // ----- closures are classes

  lemma ClosureUnique(t: Text, start: Location, s: set<Location>, s': set<Location>)
    requires IsClosure(t, start, s) && IsClosure(t, start, s')
    ensures s == s'
  {}

  /** With alignments both ways, all words of a closure have that closure. */
  lemma SameClosure(t: Text, start: Location, s: set<Location>, a: Location)
    requires Symmetric(t) && IsClosure(t, start, s) && a in s
    ensures IsClosure(t, a, s)
  {
    hide Edge, InRange;
    forall c: set<Location> | a in c && Closed(t, c) ensures s <= c {
      Difference(t, s, c);
      assert start !in c ==> start in s - c;
    }
  }

  lemma Difference(t: Text, s: set<Location>, c: set<Location>)
    requires Symmetric(t) && Closed(t, s) && Closed(t, c)
    ensures Closed(t, s - c)
  {}

  /** Two different words of one engine. */
  ghost predicate Conflict(s: set<Location>) {
    exists a, b :: a in s && b in s && a.engine == b.engine && a != b
  }

  /** What a word's alignments become when it is told about all of `s`. */
  ghost predicate Told(before: seq<AlignmentInfo>, after: seq<AlignmentInfo>, s: set<Location>) {
    |after| == |before| &&
    forall e :: 0 <= e < |before| ==>
      && (forall o :: Location(e, o) in s ==> after[e] == AlignmentInfo(o, before[e].kinds + {TransitiveType}))
      && ((forall o :: Location(e, o) !in s) ==> after[e] == before[e])
  }

  /** The words of `done` have been treated right; the others are as they were. */
  ghost predicate Treated(before: Text, after: Text, done: set<Location>) {
    && |after| == |before| && (forall l :: IsWord(after, l) <==> IsWord(before, l)) && Shaped(after)
    && (forall l :: IsWord(before, l) && l !in done ==> Row(after, l) == Row(before, l))
    && (forall l, s :: IsWord(before, l) && l in done && IsClosure(before, l, s) ==>
         if Conflict(s) then Row(after, l) == Row(before, l) else Told(Row(before, l), Row(after, l), s))
  }

  /** A closure found after some words have been treated is a closure of the original text. */
  lemma ClosureStill(before: Text, now: Text, done: set<Location>, start: Location, s: set<Location>)
    requires Symmetric(before) && Treated(before, now, done) && Closed(before, done)
    requires IsWord(before, start) && start !in done && IsClosure(now, start, s)
    requires forall l :: l in s ==> IsWord(before, l)
    ensures IsClosure(before, start, s) && s !! done
  {
    var untouched := Words(before) - done;
    forall a, b | a in untouched ensures Edge(now, a, b) <==> Edge(before, a, b) {
      assert Row(now, a) == Row(before, a);
    }
    assert Closed(before, untouched);
    assert Closed(now, untouched) && start in untouched && s <= untouched;
    forall c: set<Location> | start in c && Closed(before, c) ensures s <= c {
      assert Closed(now, c * untouched);
    }
  }

  /** Of the text's words, those of an engine that are not done. */
  ghost predicate Unused(t: Text, unused: seq<set<nat>>, done: set<Location>) {
    && |unused| == |t|
    && forall e, o :: 0 <= e < |t| ==>
         (o in unused[e] <==> IsWord(t, Location(e, o)) && Location(e, o) !in done)
  }

  class Input {
    var text: Text

    constructor (text: Text)
      ensures this.text == text
    {
      this.text := text;
    }

    /** The assertion is that the word is not aligned to another word of that engine. */
    method Add(at: Location, engine: nat, offset: nat, kind: AlignType)
      requires IsWord(text, at) && engine < |Row(text, at)|
      requires Row(text, at)[engine].kinds == {} || Row(text, at)[engine].offset == offset
      modifies this
      ensures |text| == |old(text)| && forall l :: IsWord(text, l) <==> IsWord(old(text), l)
      ensures forall l :: IsWord(text, l) && l != at ==> Row(text, l) == Row(old(text), l)
      ensures Row(text, at) == Row(old(text), at)[engine :=
        AlignmentInfo(offset, Row(old(text), at)[engine].kinds + {kind})]
    {
      var row := text[at.engine][at.offset];
      row := row[engine := AlignmentInfo(offset, row[engine].kinds + {kind})];
      text := text[at.engine := text[at.engine][at.offset := row]];
    }

    /** Tell one word about all words of its closure. */
    method Tell(telling: Location, closure: set<Location>)
      requires IsWord(text, telling) && Shaped(text) && !Conflict(closure)
      requires forall l :: l in closure ==> l.engine < |text|
      requires forall b :: Edge(text, telling, b) ==> b in closure
      modifies this
      ensures |text| == |old(text)| && forall l :: IsWord(text, l) <==> IsWord(old(text), l)
      ensures Shaped(text)
      ensures forall l :: IsWord(text, l) && l != telling ==> Row(text, l) == Row(old(text), l)
      ensures Told(Row(old(text), telling), Row(text, telling), closure)
    {
      var rest := closure;
      ghost var before := Row(text, telling);
      while rest != {}
        invariant rest <= closure
        invariant |text| == |old(text)| && forall l :: IsWord(text, l) <==> IsWord(old(text), l)
        invariant Shaped(text)
        invariant forall l :: IsWord(text, l) && l != telling ==> Row(text, l) == Row(old(text), l)
        invariant Told(before, Row(text, telling), closure - rest)
        decreases rest
      {
        var about :| about in rest;
        NoClash(before, Row(text, telling), telling, closure, rest, about);
        ghost var row := Row(text, telling);
        Add(telling, about.engine, about.offset, TransitiveType);
        ToldMore(before, row, closure, rest, about);
        rest := rest - {about};
      }
      assert closure - rest == closure;
    }

    /** Tell all words of a closure about each other. */
    method TellAll(ghost before: Text, closure: set<Location>, ghost done: set<Location>, ghost start: Location)
      requires Symmetric(before) && Treated(before, text, done) && !Conflict(closure) && closure !! done
      requires IsClosure(before, start, closure) && forall l :: l in closure ==> IsWord(before, l)
      modifies this
      ensures Treated(before, text, done + closure)
    {
      var rest := closure;
      while rest != {}
        invariant rest <= closure && Treated(before, text, done + (closure - rest))
        decreases rest
      {
        var telling :| telling in rest;
        ghost var was := text;
        assert Row(text, telling) == Row(before, telling);
        EdgesWithin(before, text, start, closure, telling);
        Tell(telling, closure);
        TreatMore(before, was, text, done + (closure - rest), start, closure, telling);
        rest := rest - {telling};
        assert done + (closure - rest) == done + (closure - (rest + {telling})) + {telling};
      }
      assert done + (closure - rest) == done + closure;
    }

    /** The offsets of each engine's words. */
    method AllWords() returns (unused: seq<set<nat>>)
      ensures Unused(text, unused, {})
    {
      unused := [];
      for e := 0 to |text|
        invariant |unused| == e
        invariant forall i, o: nat :: 0 <= i < e ==> (o in unused[i] <==> o < |text[i]|)
      {
        var offsets: set<nat> := {};
        for offset := 0 to |text[e]|
          invariant forall o: nat :: o in offsets <==> o < offset
        {
          offsets := offsets + {offset};
        }
        unused := unused + [offsets];
      }
    }

    /** Every word's closure is one complete class afterwards, or unchanged if it has two words of an engine.  It
        returns true, conflict or not. */
    method MakeAlignmentsTransitive() returns (always: bool)
      requires Symmetric(text)
      modifies this
      ensures Treated(old(text), text, Words(old(text))) && always
    {
      hide Symmetric, Treated, IsClosure, Conflict, Closed;
      ghost var before, done: set<Location> := text, {};
      NothingTreated(text);
      var unused := AllWords();
      for e := 0 to |unused|
        invariant Treated(before, text, done) && Closed(before, done) && done <= Words(before)
        invariant Unused(before, unused, done) && forall i :: 0 <= i < e ==> unused[i] == {}
      {
        while unused[e] != {}
          invariant Treated(before, text, done) && Closed(before, done) && done <= Words(before)
          invariant Unused(before, unused, done) && forall i :: 0 <= i < e ==> unused[i] == {}
          decreases Words(before) - done
        {
          var o :| o in unused[e];
          var start := Location(e, o);
          StillInRange(before, text, done);
          var closure := CloseAlignment(text, start);
          ClosureStill(before, text, done, start, closure);
          var conflict;
          unused, conflict := Erase(unused, closure, before, done);
          if conflict {
            TreatConflict(before, text, done, start, closure);
          } else {
            TellAll(before, closure, done, start);
          }
          ClosedUnion(before, done, start, closure);
          assert start in Words(before) - done && start in done + closure;
          done := done + closure;
        }
      }
      assert done == Words(before);
      always := true;
    }
  }

  /** The word is not aligned to another word of the engine it is to be told about. */
  lemma NoClash(before: seq<AlignmentInfo>, row: seq<AlignmentInfo>, telling: Location, closure: set<Location>,
                rest: set<Location>, about: Location)
    requires Told(before, row, closure - rest) && rest <= closure && about in rest && !Conflict(closure)
    requires about.engine < |before|
    requires forall e :: 0 <= e < |before| && before[e].kinds != {} ==> Location(e, before[e].offset) in closure
    ensures row[about.engine].kinds == {} || row[about.engine].offset == about.offset
  {
    OnlyOne(closure, rest, about);
  }

  lemma OnlyOne(closure: set<Location>, rest: set<Location>, about: Location)
    requires !Conflict(closure) && rest <= closure && about in rest
    ensures forall o :: Location(about.engine, o) !in closure - rest
    ensures forall o :: Location(about.engine, o) in closure ==> o == about.offset
  {
    assert forall o :: Location(about.engine, o) in closure ==> Location(about.engine, o) == about;
  }

  lemma ToldMore(before: seq<AlignmentInfo>, row: seq<AlignmentInfo>, closure: set<Location>, rest: set<Location>,
                 about: Location)
    requires Told(before, row, closure - rest) && rest <= closure && about in rest && !Conflict(closure)
    requires about.engine < |before|
    ensures Told(before, row[about.engine := AlignmentInfo(about.offset, row[about.engine].kinds + {TransitiveType})],
                 closure - (rest - {about}))
  {
    var done := closure - rest;
    var e := about.engine;
    assert closure - (rest - {about}) == done + {about};
    OnlyOne(closure, rest, about);
    assert row[e] == before[e];
    assert about == Location(e, about.offset);
  }

  /** Take a closure's words out of those left, and count them by engine. */
  method Erase(unused: seq<set<nat>>, closure: set<Location>, ghost before: Text, ghost done: set<Location>)
    returns (unused': seq<set<nat>>, conflict: bool)
    requires Unused(before, unused, done) && forall l :: l in closure ==> IsWord(before, l)
    ensures Unused(before, unused', done + closure) && (conflict <==> Conflict(closure))
    ensures forall e :: 0 <= e < |unused| ==> unused'[e] <= unused[e]
  {
    unused' := unused;
    var count: seq<nat> := seq(|unused|, _ => 0);
    var rest := closure;
    while rest != {}
      invariant rest <= closure && |count| == |unused| == |unused'|
      invariant Unused(before, unused', done + (closure - rest))
      invariant forall e :: 0 <= e < |unused| ==> unused'[e] <= unused[e]
      invariant Counts(count, closure - rest)
      decreases rest
    {
      var l :| l in rest;
      CountOne(count, closure - rest, l);
      assert closure - (rest - {l}) == (closure - rest) + {l};
      assert done + (closure - (rest - {l})) == done + (closure - rest) + {l};
      unused' := unused'[l.engine := unused'[l.engine] - {l.offset}];
      count := count[l.engine := count[l.engine] + 1];
      rest := rest - {l};
    }
    assert closure - rest == closure;
    conflict := exists e :: 0 <= e < |count| && count[e] > 1;
    CountsConflict(count, closure);
  }

  ghost predicate Counts(count: seq<nat>, s: set<Location>) {
    forall e :: 0 <= e < |count| ==>
      && (count[e] > 0 <==> exists a :: a in s && a.engine == e)
      && (count[e] > 1 <==> exists a, b :: a in s && b in s && a != b && a.engine == b.engine == e)
  }

  lemma CountOne(count: seq<nat>, s: set<Location>, l: Location)
    requires Counts(count, s) && l !in s && l.engine < |count|
    ensures Counts(count[l.engine := count[l.engine] + 1], s + {l})
  {
    var count' := count[l.engine := count[l.engine] + 1];
    forall e | 0 <= e < |count|
      ensures count'[e] > 0 <==> exists a :: a in s + {l} && a.engine == e
      ensures count'[e] > 1 <==> exists a, b :: a in s + {l} && b in s + {l} && a != b && a.engine == b.engine == e
    {
      CountAt(count, s, l, e);
    }
  }

  lemma CountAt(count: seq<nat>, s: set<Location>, l: Location, e: nat)
    requires Counts(count, s) && l !in s && l.engine < |count| && e < |count|
    ensures var n := if e == l.engine then count[e] + 1 else count[e];
      && (n > 0 <==> exists a :: a in s + {l} && a.engine == e)
      && (n > 1 <==> exists a, b :: a in s + {l} && b in s + {l} && a != b && a.engine == b.engine == e)
  {
    if e == l.engine {
      assert l in s + {l};
      if count[e] > 0 {
        var a :| a in s && a.engine == e;
        assert a in s + {l} && a != l;
      }
    } else {
      if count[e] > 0 {
        var a :| a in s && a.engine == e;
        assert a in s + {l};
      }
      if count[e] > 1 {
        var a, b :| a in s && b in s && a != b && a.engine == b.engine == e;
        assert a in s + {l} && b in s + {l};
      }
    }
  }

  lemma CountsConflict(count: seq<nat>, s: set<Location>)
    requires Counts(count, s) && forall l :: l in s ==> l.engine < |count|
    ensures Conflict(s) <==> exists e :: 0 <= e < |count| && count[e] > 1
  {
    if Conflict(s) {
      var a, b :| a in s && b in s && a.engine == b.engine && a != b;
      assert count[a.engine] > 1;
    }
  }

  // ----- treating words

  lemma NothingTreated(t: Text)
    requires Symmetric(t)
    ensures Treated(t, t, {}) && Closed(t, {})
  {}

  /** Treated words are aligned within their closures, so all alignments still are to words. */
  lemma StillInRange(before: Text, now: Text, done: set<Location>)
    requires Symmetric(before) && Treated(before, now, done) && done <= Words(before)
    ensures InRange(now) && forall l :: IsWord(now, l) <==> IsWord(before, l)
  {
    forall a, b | Edge(now, a, b) ensures IsWord(now, b) {
      if a !in done {
        assert Edge(before, a, b);
      } else {
        var s := CloseAlignmentOf(before, a);
        if Conflict(s) {
          assert Edge(before, a, b);
        } else {
          assert Told(Row(before, a), Row(now, a), s);
          ToldEdge(before, now, a, s, b);
        }
      }
    }
  }

  /** Every word has a closure. */
  lemma CloseAlignmentOf(t: Text, start: Location) returns (s: set<Location>)
    requires InRange(t) && IsWord(t, start)
    ensures IsClosure(t, start, s) && s <= Words(t)
  {
    s := ClosureOf(t, start, Words(t));
  }

  /** Shrinking a closed set until it is the least. */
  lemma {:induction false} ClosureOf(t: Text, start: Location, c: set<Location>) returns (s: set<Location>)
    requires start in c && Closed(t, c)
    ensures IsClosure(t, start, s) && s <= c
    decreases c
  {
    if d: set<Location> :| start in d && Closed(t, d) && !(c <= d) {
      assert Closed(t, c * d);
      assert c * d < c;
      s := ClosureOf(t, start, c * d);
    } else {
      s := c;
    }
  }

  lemma EdgesWithin(before: Text, now: Text, start: Location, closure: set<Location>, telling: Location)
    requires IsClosure(before, start, closure) && telling in closure && IsWord(before, telling) && IsWord(now, telling)
    requires Row(now, telling) == Row(before, telling)
    ensures forall b :: Edge(now, telling, b) ==> b in closure
  {
    assert forall b :: Edge(now, telling, b) ==> Edge(before, telling, b);
  }

  lemma TreatMore(before: Text, was: Text, now: Text, done: set<Location>, start: Location, closure: set<Location>,
                  telling: Location)
    requires Symmetric(before) && Treated(before, was, done) && IsClosure(before, start, closure) && !Conflict(closure)
    requires telling in closure && telling !in done && IsWord(before, telling)
    requires |now| == |was| && (forall l :: IsWord(now, l) <==> IsWord(was, l)) && Shaped(now)
    requires forall l :: IsWord(now, l) && l != telling ==> Row(now, l) == Row(was, l)
    requires Told(Row(was, telling), Row(now, telling), closure)
    ensures Treated(before, now, done + {telling})
  {
    hide Told, Conflict, Edge;
    SameClosure(before, start, closure, telling);
    forall l, s | IsWord(before, l) && l in done + {telling} && IsClosure(before, l, s)
      ensures if Conflict(s) then Row(now, l) == Row(before, l) else Told(Row(before, l), Row(now, l), s)
    {
      if l == telling { ClosureUnique(before, l, s, closure); }
    }
  }

  lemma TreatConflict(before: Text, now: Text, done: set<Location>, start: Location, closure: set<Location>)
    requires Symmetric(before) && Treated(before, now, done) && IsClosure(before, start, closure) && Conflict(closure)
    requires closure !! done
    ensures Treated(before, now, done + closure)
  {
    hide Told, Conflict, Edge;
    forall l, s | IsWord(before, l) && l in done + closure && IsClosure(before, l, s)
      ensures if Conflict(s) then Row(now, l) == Row(before, l) else Told(Row(before, l), Row(now, l), s)
    {
      if l in closure {
        SameClosure(before, start, closure, l);
        ClosureUnique(before, l, s, closure);
      }
    }
  }

  lemma ClosedUnion(t: Text, done: set<Location>, start: Location, closure: set<Location>)
    requires Closed(t, done) && IsClosure(t, start, closure)
    ensures start in closure && Closed(t, done + closure)
  {}

  // ----- what that means

  /** Afterwards, in a closure without a conflict each word is aligned to exactly the words of the closure. */
  lemma CompleteClass(before: Text, after: Text, a: Location, s: set<Location>, b: Location)
    requires Symmetric(before) && Treated(before, after, Words(before))
    requires IsWord(before, a) && IsClosure(before, a, s) && !Conflict(s) && (forall l :: l in s ==> IsWord(before, l))
    ensures Edge(after, a, b) <==> b in s
  {
    assert Told(Row(before, a), Row(after, a), s);
    assert b == Location(b.engine, b.offset);
    ToldEdge(before, after, a, s, b);
  }

  lemma ToldEdge(before: Text, after: Text, a: Location, s: set<Location>, b: Location)
    requires IsWord(before, a) && IsWord(after, a) && Told(Row(before, a), Row(after, a), s)
    ensures Edge(after, a, b) ==> b in s || Edge(before, a, b)
  {
    if o: nat :| Location(b.engine, o) in s {
      assert Edge(after, a, b) ==> b == Location(b.engine, o);
    }
  }

  /** Afterwards alignments still go both ways, and what can be reached is what could be before. */
  lemma StillSymmetric(before: Text, after: Text)
    requires Symmetric(before) && Treated(before, after, Words(before))
    ensures Symmetric(after)
    ensures forall l, s :: IsWord(before, l) && IsClosure(before, l, s) ==> IsClosure(after, l, s)
  {
    StillInRange(before, after, Words(before));
    forall a, b | Edge(after, a, b) ensures Edge(after, b, a) { EdgeBack(before, after, a, b); }
    forall a | IsWord(after, a) ensures Edge(after, a, a) {
      var s := CloseAlignmentOf(before, a);
      if Conflict(s) { assert Edge(before, a, a); } else { CompleteClass(before, after, a, s, a); }
    }
    forall l, s | IsWord(before, l) && IsClosure(before, l, s) ensures IsClosure(after, l, s) {
      ClosureAfter(before, after, l, s);
    }
  }

  lemma EdgeBack(before: Text, after: Text, a: Location, b: Location)
    requires Symmetric(before) && Treated(before, after, Words(before)) && Edge(after, a, b)
    ensures Edge(after, b, a)
  {
    var s := CloseAlignmentOf(before, a);
    if Conflict(s) {
      assert Edge(before, a, b) && Edge(before, b, a);
      SameClosure(before, a, s, b);
    } else {
      CompleteClass(before, after, a, s, b);
      SameClosure(before, a, s, b);
      CompleteClass(before, after, b, s, a);
    }
  }

  lemma ClosureAfter(before: Text, after: Text, l: Location, s: set<Location>)
    requires Symmetric(before) && Treated(before, after, Words(before)) && IsWord(before, l) && IsClosure(before, l, s)
    ensures IsClosure(after, l, s)
  {
    assert Closed(before, Words(before));
    forall a | a in s ensures forall b :: Edge(before, a, b) ==> Edge(after, a, b) {
      SameClosure(before, l, s, a);
      if !Conflict(s) {
        forall b | Edge(before, a, b) ensures Edge(after, a, b) { CompleteClass(before, after, a, s, b); }
      }
    }
    forall a, b | a in s && Edge(after, a, b) ensures b in s {
      SameClosure(before, l, s, a);
      if Conflict(s) { assert Edge(before, a, b); } else { CompleteClass(before, after, a, s, b); }
    }
    forall c: set<Location> | l in c && Closed(after, c) ensures s <= c {
      assert Closed(before, c * s);
    }
  }
}
