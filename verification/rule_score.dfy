/**
 Scoring a sentence through any bracketing.  `RuleScore` joins words and already
 scored fragments; each method says which fragment the object then describes, and
 `Fragments.Scored` says what the description is worth.
 */
module RuleScoring {
  import opened NGrams
  import opened Scoring
  import opened Fragments

  datatype Left = Left(pointers: seq<Gram>, full: bool)

  datatype ChartState = ChartState(left: Left, right: State)

  /** A finished fragment. */
  ghost predicate Chart(m: Model, h: seq<Word>, c: ChartState, prob: real) {
    && Scored(m, [], h, c.left.pointers, c.left.full, c.right, prob)
    && (|c.left.pointers| == m.order - 1 ==> c.left.full)
  }

  // ----- adding one word

  lemma ClosedGrows(m: Model, h: seq<Word>, s: seq<Word>, n: nat)
    requires WellFormed(m) && Closed(m, h, n) && s != []
    ensures n < |s + h| && Closed(m, s + h, n)
  {
    var g := s + h;
    if n < |h| {
      assert Oldest(g, n + 1) == Oldest(h, n + 1);
    } else {
      var a := s[|s|-1];
      assert Oldest(g, n + 1) == [a] + h;
    }
  }

  lemma TerminalTotal(m: Model, ctx: seq<Word>, h: seq<Word>, right: State, prob: real, w: Word, out: State)
    requires WellFormed(m) && Known(m, h) && Known(m, ctx) && [w] in m.table
    requires StateFor(m, h + ctx, right) && prob == TotalAfter(m, h, ctx) + BackoffSum(m, h + ctx, |right.words|)
    requires MinimalFor(m, [w] + right.words, out)
    ensures Known(m, [w] + h) && StateFor(m, [w] + h + ctx, out)
    ensures |out.words| == KeepLength(m, [w] + h + ctx) && BackoffSum(m, [w] + h + ctx, |out.words|) == 0.0
    ensures prob + Score(m, right.words, w) == TotalAfter(m, [w] + h, ctx)
  {
    hide WellFormed, Score, BackoffSum, KeepLength, Adequate, ValidState;
    KnownPieces(m, [w], h);
    ScoreFromState(m, h + ctx, right, w, out);
    assert [w] + h + ctx == [w] + (h + ctx);
    MinimalIsAdequate(m, [w] + (h + ctx), out);
    MinimalLength(m, [w] + (h + ctx), out);
    assert ([w] + h)[1..] == h;
  }

  lemma MinimalLength(m: Model, h: seq<Word>, s: State)
    requires MinimalFor(m, h, s)
    ensures |s.words| == KeepLength(m, h)
  {}

  /** A longer n-gram on the left would make this one extend left. */
  lemma NotIndependent(m: Model, g: Gram, x: Word)
    requires WellFormed(m) && g != []
    ensures g + [x] in m.table ==> MatchLength(m, g) == |g| < m.order && m.table[g].extendsLeft
  {
    assert (g + [x])[..|g|] == g && g[..|g|] == g;
  }

  lemma NotExtended(m: Model, g: Gram, v: Word, x: Word)
    requires WellFormed(m) && g != []
    ensures [v] + g + [x] in m.table ==> Extends(m, g)
  {
    assert ([v] + g + [x])[..|g|+1] == [v] + g;
    ContextExtends(m, v, g);
  }

  // ----- joining a scored fragment

  /** The words `q` have been joined to the words `older`; joining none of them scored `base`. */
  ghost predicate Joined(m: Model, older: seq<Word>, base: real, q: seq<Word>,
                         next: nat, back: seq<Backoff>, prob: real)
  {
    && Known(m, q)
    && Joining(m, q + older, |q|, next, back)
    && (q != [] ==> next == Across(m, q + older, |q|))
    && prob == base + TotalAfter(m, q, older) - TotalAfter(m, q, []) + BackoffSum(m, q + older, |q| + next)
  }

  lemma ConsSlices(a: Word, q: seq<Word>, older: seq<Word>)
    ensures (q + older)[..|q|] == q && [a] + (q + older) == [a] + q + older && q + [] == q
  {}

  lemma JoinedIs(m: Model, older: seq<Word>, base: real, q: seq<Word>, h: seq<Word>, n: nat,
                 next: nat, back: seq<Backoff>, prob: real, before: real, a: Word)
    requires h == q + older && n == |q| && Known(m, q) && [a] in m.table
    requires Known(m, [a] + q)
    requires Joining(m, [a] + h, n + 1, next, back) && next == Across(m, [a] + h, n + 1)
    requires BackoffSum(m, [a] + h, n + 1 + next) == 0.0
    requires before == base + TotalAfter(m, q, older) - TotalAfter(m, q, [])
    requires prob == before + Score(m, h, a) - Score(m, q, a)
    ensures Joined(m, older, base, [a] + q, next, back, prob)
  {
    ConsSlices(a, q, older);
    TotalCons(m, a, q, older);
    TotalCons(m, a, q, []);
  }

  /** One more word of the fragment, walked from its left pointer. */
  lemma JoinWord(m: Model, older: seq<Word>, base: real, q: seq<Word>, h: seq<Word>, next: nat, back: seq<Backoff>,
                 prob: real, a: Word, backoffOut: seq<Backoff>, nextUse: nat, ret: FullScoreReturn)
    requires WellFormed(m) && Joined(m, older, base, q, next, back, prob) && [a] in m.table && h == q + older
    requires Extended(m, [a] + h[..|q|+next], |q| + 1, back[..next], backoffOut, nextUse, ret)
    ensures Joined(m, older, base, [a] + q, nextUse, backoffOut, prob + ret.prob) && nextUse <= next
  {
    hide Score, BackoffSum, MatchLength, KeepLength, TotalAfter, SumValues, WellFormed;
    KnownPieces(m, [a], q);
    ConsSlices(a, q, older);
    JoinScore(m, h, |q|, next, back, a, backoffOut, nextUse, ret);
    JoinStep(m, h, |q|, next, back, a, backoffOut, nextUse);
    JoinedIs(m, older, base, q, h, |q|, nextUse, backoffOut, prob + ret.prob,
             prob - BackoffSum(m, h, |q| + next), a);
  }

  lemma TotalCons(m: Model, a: Word, q: seq<Word>, older: seq<Word>)
    requires Known(m, q) && [a] in m.table && Known(m, [a] + q)
    ensures TotalAfter(m, [a] + q, older) == TotalAfter(m, q, older) + Score(m, q + older, a)
  {
    assert ([a] + q)[1..] == q;
  }

  // ----- the left state while joining

  /** The oldest `e` words of `s` have been joined to `h` (with nothing before `h`). */
  ghost predicate LeftSoFar(m: Model, h: seq<Word>, s: seq<Word>, e: nat, pointers: seq<Gram>, done: bool) {
    && e <= |s| && s != []
    && Pointers(m, Oldest(s, e) + h, pointers)
    && (done ==> Closed(m, s + h, |pointers|))
    && (!done ==> |pointers| == |h| + e)
  }

  lemma OldestOfConcat<T>(s: seq<T>, h: seq<T>, e: nat)
    requires e <= |s|
    ensures (s + h)[|s|-e..] == s[|s|-e..] + h
  {}

  lemma OldestStep(s: seq<Word>, e: nat)
    requires e < |s|
    ensures Oldest(s, e + 1) == [s[|s|-e-1]] + Oldest(s, e)
  {}

  lemma OldestOfCons(g: seq<Word>, a: Word, k: nat)
    requires k <= |g|
    ensures Oldest([a] + g, k) == Oldest(g, k)
  {}

  lemma PointersGrow(m: Model, g: seq<Word>, pointers: seq<Gram>, a: Word)
    requires Pointers(m, g, pointers)
    ensures Pointers(m, [a] + g, pointers)
  {
    forall i {:trigger pointers[i]} | 0 <= i < |pointers|
      ensures pointers[i] == Oldest([a] + g, i + 1) && pointers[i] in m.table && m.table[pointers[i]].extendsLeft
    {
      OldestOfCons(g, a, i + 1);
    }
  }

  lemma PointersPush(m: Model, g: seq<Word>, pointers: seq<Gram>)
    requires Pointers(m, g, pointers) && |pointers| + 1 == |g| < m.order
    requires g in m.table && m.table[g].extendsLeft
    ensures Pointers(m, g, pointers + [g])
  {
    var p := pointers + [g];
    forall i {:trigger p[i]} | 0 <= i < |p|
      ensures p[i] == Oldest(g, i + 1) && p[i] in m.table && m.table[p[i]].extendsLeft
    {
      if i < |pointers| { assert p[i] == pointers[i]; } else { assert Oldest(g, |g|) == g; }
    }
  }

  /** `ProcessRet` for the word after the oldest `e` of `s`, whose n-gram back to the start of
      `h` is `g`: either its score no longer depends on the left, or its pointer is kept. */
  lemma LeftStep(m: Model, h: seq<Word>, s: seq<Word>, e: nat, pointers: seq<Gram>, g: Gram,
                 independent: bool, goesOn: bool)
    requires WellFormed(m) && LeftSoFar(m, h, s, e, pointers, false) && e < |s|
    requires g == Oldest(s, e + 1) + h
    requires independent <==> !(MatchLength(m, g) == |g| < m.order && m.table[g].extendsLeft)
    requires !goesOn ==> !Extends(m, g)
    ensures independent ==> LeftSoFar(m, h, s, e + 1, pointers, true)
    ensures !independent ==> LeftSoFar(m, h, s, e + 1, pointers + [g], false)
    ensures !independent && !goesOn ==> LeftSoFar(m, h, s, e + 1, pointers + [g], true)
  {
    hide WellFormed, MatchLength, Pointers, LeftSoFar, Closed, Oldest;
    LeftStepFacts(m, h, s, e, pointers, g);
    LeftStepIs(m, h, s, e, pointers, g);
    assert g[..|g|] == g;
    if independent {
      forall x: Word ensures g + [x] !in m.table { NotIndependent(m, g, x); }
      ClosedBefore(m, s + h, |pointers|, g);
    } else {
      PointersPush(m, g, pointers);
      if !goesOn { ClosedAt(m, s + h, |h| + e + 1, g); }
    }
  }

  /** The n-gram of the oldest words so far, whose pointers are collected. */
  lemma LeftStepFacts(m: Model, h: seq<Word>, s: seq<Word>, e: nat, pointers: seq<Gram>, g: Gram)
    requires LeftSoFar(m, h, s, e, pointers, false) && e < |s| && g == Oldest(s, e + 1) + h
    ensures |pointers| == |h| + e < |s + h| && |g| == |h| + e + 1
    ensures g == Oldest(s + h, |h| + e + 1) && Pointers(m, g, pointers)
  {
    var a := s[|s|-e-1];
    OldestStep(s, e);
    assert g == [a] + (Oldest(s, e) + h);
    OldestOfConcat(s, h, e + 1);
    PointersGrow(m, Oldest(s, e) + h, pointers, a);
  }

  lemma LeftStepIs(m: Model, h: seq<Word>, s: seq<Word>, e: nat, pointers: seq<Gram>, g: Gram)
    requires e < |s| && g == Oldest(s, e + 1) + h && |pointers| == |h| + e && |g| == |h| + e + 1
    ensures Pointers(m, g, pointers) && Closed(m, s + h, |pointers|) ==> LeftSoFar(m, h, s, e + 1, pointers, true)
    ensures Pointers(m, g, pointers + [g]) ==> LeftSoFar(m, h, s, e + 1, pointers + [g], false)
    ensures Pointers(m, g, pointers + [g]) && Closed(m, s + h, |h| + e + 1) ==>
      LeftSoFar(m, h, s, e + 1, pointers + [g], true)
  {
    hide Pointers, Closed;
  }

  lemma ClosedBefore(m: Model, t: seq<Word>, n: nat, g: Gram)
    requires n < |t| && g == Oldest(t, n + 1) && forall x: Word :: g + [x] !in m.table
    ensures Closed(m, t, n)
  {}

  /** If the n-gram of the oldest `n` words does not extend right, older words cannot matter
      beyond it. */
  lemma ClosedAt(m: Model, t: seq<Word>, n: nat, g: Gram)
    requires WellFormed(m) && 1 <= n <= |t| && g == Oldest(t, n) && !Extends(m, g)
    ensures Closed(m, t, n)
  {
    forall v: Word, x: Word ensures [v] + g + [x] !in m.table { NotExtended(m, g, v, x); }
    if n < |t| {
      OldestStep(t, n);
    } else {
      assert g == t;
    }
  }

  lemma LeftDoneStep(m: Model, h: seq<Word>, s: seq<Word>, e: nat, pointers: seq<Gram>)
    requires LeftSoFar(m, h, s, e, pointers, true) && e < |s|
    ensures LeftSoFar(m, h, s, e + 1, pointers, true)
  {
    OldestStep(s, e);
    assert Oldest(s, e + 1) + h == [s[|s|-e-1]] + (Oldest(s, e) + h);
    PointersGrow(m, Oldest(s, e) + h, pointers, s[|s|-e-1]);
  }

  // ----- finishing a join

  /** Where the rest of the fragment takes no notice of `older`, its own right state serves. */
  lemma CutScoreTotal(m: Model, s: seq<Word>, older: seq<Word>, e: nat, r: nat)
    requires WellFormed(m) && Known(m, s) && CutOff(m, s, e, older) && r <= |s|
    ensures Known(m, Oldest(s, e))
    ensures TotalAfter(m, s, older) + BackoffSum(m, s + older, r)
         == TotalAfter(m, s, []) + BackoffSum(m, s, r)
            + TotalAfter(m, Oldest(s, e), older) - TotalAfter(m, Oldest(s, e), [])
            + BackoffSum(m, Oldest(s, e) + older, e)
  {
    hide WellFormed, CutOff;
    BeyondCut(m, s, e, older);
    BackoffSumSplit(m, s + older, r, |s|);
    assert (s + older)[..|s|] == s;
  }

  lemma CutState(m: Model, s: seq<Word>, older: seq<Word>, e: nat, right: State)
    requires WellFormed(m) && CutOff(m, s, e, older) && StateFor(m, s, right)
    ensures StateFor(m, s + older, right)
  {
    CutPersists(m, s, e, older);
    var r, h := |right.words|, s + older;
    forall w: Word, j: nat {:trigger [w] + h[..j]} | r < j <= |h| ensures [w] + h[..j] !in m.table {
      if j <= |s| {
        assert h[..j] == s[..j];
      } else {
        SliceAcross(s, older, j - |s|);
        assert [w] + (s + older[..j-|s|]) == [w] + s + older[..j-|s|];
      }
    }
  }

  /** The longest extendable context lies within `s`. */
  lemma CutKeep(m: Model, s: seq<Word>, older: seq<Word>, e: nat)
    requires WellFormed(m) && CutOff(m, s, e, older)
    requires e == |s| ==> KeepLength(m, s + older) <= |s|
    ensures KeepLength(m, s + older) == KeepLength(m, s)
  {
    CutPersists(m, s, e, older);
    var h, k := s + older, KeepLength(m, s + older);
    if k > |s| {
      SliceAcross(s, older, k - |s|);
      assert false;
    }
    KeepWithin(m, s, older);
  }

  lemma KeepWithin(m: Model, s: seq<Word>, older: seq<Word>)
    requires KeepLength(m, s + older) <= |s|
    ensures KeepLength(m, s + older) == KeepLength(m, s)
  {
    var h := s + older;
    assert forall j {:trigger s[..j]} :: 0 <= j <= |s| ==> h[..j] == s[..j];
    KeepIs(m, s, KeepLength(m, h));
  }

  /** The pieces of `Scored` after a join that ends with the fragment's own right state. */
  lemma FinishCut(m: Model, ctx: seq<Word>, h: seq<Word>, s: seq<Word>, c: ChartState, childProb: real, e: nat,
                  pointers: seq<Gram>, prob: real)
    requires WellFormed(m) && Known(m, ctx) && Known(m, h) && s != [] && Chart(m, s, c, childProb)
    requires CutOff(m, s, e, h + ctx) && Known(m, Oldest(s, e))
    requires prob == TotalAfter(m, h, ctx) + childProb + TotalAfter(m, Oldest(s, e), h + ctx)
                     - TotalAfter(m, Oldest(s, e), []) + BackoffSum(m, Oldest(s, e) + (h + ctx), e)
    requires e == |s| && !EndedAlone(m, s, c) ==> KeepLength(m, s + (h + ctx)) <= |s|
    requires if ctx != [] then pointers == [] else Pointers(m, s + h, pointers) && Closed(m, s + h, |pointers|)
    requires h + ctx == [] && |pointers| == |s| ==> |c.left.pointers| == |s| && c.left.full
    ensures Scored(m, ctx, s + h, pointers, true, c.right, prob)
  {
    hide WellFormed, Score, BackoffSum, KeepLength, TotalAfter, CutOff, ValidState, Adequate, Kept;
    var older := h + ctx;
    assert s + h + ctx == s + older && s + [] == s;
    TotalConcat(m, s, h, ctx);
    CutScoreTotal(m, s, older, e, |c.right.words|);
    CutState(m, s, older, e, c.right);
    var was, ended := EndedAlone(m, s, c), ctx == [] && Ended(true, |pointers|, |s + h|, m.order);
    if !was { CutKeep(m, s, older, e); }
    KeptLonger(m, s, older, |c.right.words|, was, ended);
  }

  predicate EndedAlone(m: Model, s: seq<Word>, c: ChartState) {
    Ended(c.left.full, |c.left.pointers|, |s|, m.order)
  }

  lemma CutByNext(m: Model, s: seq<Word>, e: nat, older: seq<Word>)
    requires WellFormed(m) && e <= |s| && Adequate(m, Oldest(s, e) + older, e)
    ensures CutOff(m, s, e, older)
  {
    var q := Oldest(s, e);
    forall w: Word, j | 1 <= j <= |older| ensures [w] + q + older[..j] !in m.table {
      SliceAcross(q, older, j);
      assert [w] + (q + older)[..e+j] == [w] + q + older[..j];
    }
    if e < |s| { OldestStep(s, e); } else { assert q == s; }
  }

  lemma CutByClosed(m: Model, s: seq<Word>, e: nat, older: seq<Word>)
    requires WellFormed(m) && Closed(m, s, e)
    ensures CutOff(m, s, e, older)
  {
    forall j {:trigger older[..j]} | 1 <= j <= |older|
      ensures e < |s| ==> Oldest(s, e + 1) + older[..j] !in m.table
      ensures e == |s| ==> forall w: Word :: [w] + s + older[..j] !in m.table
    {
      var x := older[0];
      if e < |s| {
        assert (Oldest(s, e + 1) + older[..j])[..e+2] == Oldest(s, e + 1) + [x];
        PrefixAbsent(m, Oldest(s, e + 1) + older[..j], e + 2);
      } else {
        forall w: Word ensures [w] + s + older[..j] !in m.table {
          assert ([w] + s + older[..j])[..e+2] == [w] + s + [x];
          PrefixAbsent(m, [w] + s + older[..j], e + 2);
        }
      }
    }
  }

  /** A fragment that is still open on the left is its own right state. */
  lemma OpenChild(m: Model, s: seq<Word>, c: ChartState, childProb: real)
    requires Chart(m, s, c, childProb) && !c.left.full
    ensures c.right.words == s && childProb == TotalAfter(m, s, [])
  {
    assert s + [] == s;
    BackoffSumAll(m, s);
  }

  lemma OpenTotal(m: Model, ctx: seq<Word>, h: seq<Word>, s: seq<Word>, n: nat, prob: real)
    requires Known(m, h) && Known(m, s) && n <= |s + (h + ctx)|
    requires prob == TotalAfter(m, h, ctx) + TotalAfter(m, s, h + ctx) + BackoffSum(m, s + (h + ctx), n)
    ensures Known(m, s + h) && s + h + ctx == s + (h + ctx)
    ensures prob == TotalAfter(m, s + h, ctx) + BackoffSum(m, s + h + ctx, n)
  {
    hide TotalAfter, BackoffSum;
    TotalConcat(m, s, h, ctx);
    assert s + h + ctx == s + (h + ctx);
  }

  /** The joined right state holds the whole fragment and what of the older words still matters. */
  lemma FinishOpen(m: Model, older: seq<Word>, s: seq<Word>, sRight: State, right: State, next: nat,
                   back: seq<Backoff>, out: State, t: seq<Word>)
    requires WellFormed(m) && Known(m, older) && Known(m, s) && ValidState(m, sRight) && sRight.words == s
    requires StateFor(m, older, right) && 0 < next <= |right.words| && t == s + older
    requires Joining(m, t, |s|, next, back) && next == Across(m, t, |s|)
    requires out.words == sRight.words + right.words[..next] && out.backoff == sRight.backoff + back[..next]
    ensures StateFor(m, t, out) && |out.words| == |s| + next == KeepLength(m, t)
  {
    hide WellFormed, KeepLength, Adequate, ValidState, BackoffsBeyond;
    assert right.words[..next] == older[..next];
    SliceAcross(s, older, next);
    OpenState(m, s, older, sRight, next, back, out);
  }

  lemma BackoffSumAll(m: Model, s: seq<Word>)
    ensures BackoffSum(m, s, |s|) == 0.0
  {}

  lemma OpenState(m: Model, s: seq<Word>, older: seq<Word>, sRight: State, next: nat, back: seq<Backoff>, out: State)
    requires WellFormed(m) && Known(m, s) && Known(m, older) && ValidState(m, sRight) && sRight.words == s
    requires Joining(m, s + older, |s|, next, back) && 0 < next == Across(m, s + older, |s|)
    requires out.words == (s + older)[..|s|+next] && out.backoff == sRight.backoff + back[..next]
    ensures ValidState(m, out)
  {
    var h := s + older;
    KeepLeMatch(m, h);
    KnownPieces(m, s, older);
    forall w | w in out.words ensures [w] in m.table { assert w in h; }
    forall j {:trigger out.words[..j]} | 1 <= j <= |out.words|
      ensures out.words[..j] in m.table && out.backoff[j-1] == m.table[out.words[..j]].backoff
    {
      assert out.words[..j] == h[..j];
      if j <= |s| { assert h[..j] == s[..j]; }
    }
  }

  /** While the left edge is open the whole fragment is in the right state. */
  lemma TerminalOpen(m: Model, h: seq<Word>, pointers: seq<Gram>, w: Word, ret: FullScoreReturn, kept: nat)
    requires WellFormed(m) && Pointers(m, h, pointers) && |pointers| == |h|
    requires [w] in m.table && WalkResult(m, [w] + h, 1, ret) && kept == KeepLength(m, [w] + h)
    ensures ret.independentLeft ==> Closed(m, [w] + h, |h|)
    ensures !ret.independentLeft ==> Pointers(m, [w] + h, pointers + [ret.extendLeft]) && ret.rest == Score(m, h, w)
    ensures !ret.independentLeft && kept != |h| + 1 ==> Closed(m, [w] + h, |h| + 1)
  {
    var g := [w] + h;
    assert Oldest(g, |h| + 1) == g && g[..|g|] == g;
    assert kept != |g| ==> !Extends(m, g);
    hide WellFormed, Score, MatchLength, KeepLength, Pointers;
    if ret.independentLeft {
      forall x: Word ensures g + [x] !in m.table {
        NotIndependent(m, g, x);
      }
    } else {
      PointersGrow(m, h, pointers, w);
      PointersPush(m, g, pointers);
      StoredScore(m, h, w);
      if kept != |g| {
        ClosedAt(m, g, |g|, g);
      }
    }
  }

  // ----- how a join can end

  lemma PointersOfTail(m: Model, g: seq<Word>, t: seq<Word>, pointers: seq<Gram>)
    requires Pointers(m, g, pointers) && |g| <= |t| && Oldest(t, |g|) == g
    ensures Pointers(m, t, pointers)
  {
    forall i {:trigger pointers[i]} | 0 <= i < |pointers|
      ensures pointers[i] == Oldest(t, i + 1) && pointers[i] in m.table && m.table[pointers[i]].extendsLeft
    {
      assert Oldest(Oldest(t, |g|), i + 1) == Oldest(t, i + 1);
    }
  }

  lemma LeftFinish(m: Model, h: seq<Word>, s: seq<Word>, e: nat, pointers: seq<Gram>, done: bool)
    requires LeftSoFar(m, h, s, e, pointers, done)
    ensures Pointers(m, s + h, pointers)
    ensures done ==> Closed(m, s + h, |pointers|)
  {
    OldestOfConcat(s, h, e);
    PointersOfTail(m, Oldest(s, e) + h, s + h, pointers);
  }

  lemma AbsentThrough(m: Model, g: Gram, h: seq<Word>, x: Word)
    requires WellFormed(m) && g != [] && h != [] && g + [h[0]] !in m.table
    ensures g + h + [x] !in m.table
  {
    assert (g + h + [x])[..|g|+1] == g + [h[0]];
    PrefixAbsent(m, g + h + [x], |g| + 1);
  }

  lemma FullClosesMiddle(m: Model, h: seq<Word>, s: seq<Word>, e: nat)
    requires WellFormed(m) && Closed(m, s, e) && e < |s| && h != []
    ensures Closed(m, s + h, |h| + e)
  {
    var g := Oldest(s, e + 1);
    OldestOfConcat(s, h, e + 1);
    forall x: Word ensures g + h + [x] !in m.table {
      AbsentThrough(m, g, h, x);
    }
  }

  lemma FullClosesEnd(m: Model, h: seq<Word>, s: seq<Word>)
    requires WellFormed(m) && Closed(m, s, |s|) && h != []
    ensures Closed(m, s + h, |h| + |s|)
  {
    var t := s + h;
    forall w: Word, x: Word ensures [w] + t + [x] !in m.table {
      AbsentThrough(m, [w] + s, h, x);
      assert [w] + s + h + [x] == [w] + t + [x];
    }
  }

  /** A fragment closed after its oldest `e` words stays closed with `h` on its left. */
  lemma FullCloses(m: Model, h: seq<Word>, s: seq<Word>, e: nat)
    requires WellFormed(m) && Closed(m, s, e)
    ensures Closed(m, s + h, |h| + e)
  {
    if h == [] {
      assert s + h == s;
    } else if e < |s| {
      FullClosesMiddle(m, h, s, e);
    } else {
      FullClosesEnd(m, h, s);
    }
  }

  lemma FullLeft(m: Model, h: seq<Word>, s: seq<Word>, e: nat, pointers: seq<Gram>, done: bool)
    requires WellFormed(m) && LeftSoFar(m, h, s, e, pointers, done) && Closed(m, s, e)
    ensures Pointers(m, s + h, pointers) && Closed(m, s + h, |pointers|)
  {
    hide WellFormed, Closed;
    LeftFinish(m, h, s, e, pointers, done);
    FullCloses(m, h, s, e);
  }

  /** No context is longer than the order allows. */
  lemma LongestKeep(m: Model, h: seq<Word>)
    requires WellFormed(m)
    ensures KeepLength(m, h) <= m.order - 1
  {}

  // ----- one whole join, step by step

  /** The oldest `e` words of the fragment `c` have been joined to what has been scored. */
  ghost predicate Mid(m: Model, ctx: seq<Word>, h: seq<Word>, s: seq<Word>, c: ChartState, childProb: real,
                      e: nat, next: nat, back: seq<Backoff>,
                      pointers: seq<Gram>, done: bool, right: State, prob: real)
  {
    && WellFormed(m) && Known(m, ctx) && Known(m, h) && s != [] && Chart(m, s, c, childProb)
    && e <= |c.left.pointers| && e <= |s| && StateFor(m, h + ctx, right)
    && next <= |right.words|
    && Joined(m, h + ctx, TotalAfter(m, h, ctx) + childProb, Oldest(s, e), next, back, prob)
    && (if ctx != [] then done && pointers == [] else LeftSoFar(m, h, s, e, pointers, done))
    && (!done ==> next == |right.words| == |h|)
    && (e > 0 && ctx == [] && done && |pointers| == |h| + e ==> next < |right.words|)
  }

  lemma MidFacts(m: Model, ctx: seq<Word>, h: seq<Word>, s: seq<Word>, c: ChartState, childProb: real,
                 e: nat, next: nat, back: seq<Backoff>, pointers: seq<Gram>, done: bool, right: State, prob: real)
    requires Mid(m, ctx, h, s, c, childProb, e, next, back, pointers, done, right, prob)
    ensures WellFormed(m) && Chart(m, s, c, childProb) && s != [] && e <= |c.left.pointers| <= |s|
    ensures StateFor(m, h + ctx, right) && right.words <= h + ctx
    ensures next <= |right.words| && next <= |back|
    ensures !c.left.full ==> |c.right.words| == |c.left.pointers|
    ensures ctx != [] ==> done && pointers == []
    ensures !done ==> ctx == [] && |right.words| == |h|
    ensures ctx == [] ==> |pointers| <= |h| + e
    ensures !done ==> next == |right.words| && |pointers| == |h| + e
    ensures Known(m, ctx) && Known(m, h)
  {}

  lemma MidIs(m: Model, ctx: seq<Word>, h: seq<Word>, s: seq<Word>, c: ChartState, childProb: real,
              e: nat, next: nat, back: seq<Backoff>, pointers: seq<Gram>, done: bool, right: State, prob: real)
    requires WellFormed(m) && Known(m, ctx) && Known(m, h) && s != [] && Chart(m, s, c, childProb)
    requires e <= |c.left.pointers| <= |s| && StateFor(m, h + ctx, right) && next <= |right.words|
    requires Joined(m, h + ctx, TotalAfter(m, h, ctx) + childProb, Oldest(s, e), next, back, prob)
    requires if ctx != [] then done && pointers == [] else LeftSoFar(m, h, s, e, pointers, done)
    requires !done ==> next == |right.words| == |h|
    requires e > 0 && ctx == [] && done && |pointers| == |h| + e ==> next < |right.words|
    ensures Mid(m, ctx, h, s, c, childProb, e, next, back, pointers, done, right, prob)
  {}

  lemma JoinedStart(m: Model, older: seq<Word>, base: real, right: State)
    requires StateFor(m, older, right)
    ensures Joined(m, older, base, [], |right.words|, right.backoff, base + BackoffSum(m, older, |right.words|))
  {
    assert [] + older == older;
    assert right.words == older[..|right.words|];
    BackoffsOfPrefix(m, older, 0, right.backoff, |right.words|);
  }

  lemma LeftStart(m: Model, h: seq<Word>, s: seq<Word>, pointers: seq<Gram>, done: bool)
    requires WellFormed(m) && Pointers(m, h, pointers) && s != []
    requires if done then Closed(m, h, |pointers|) else |pointers| == |h|
    ensures LeftSoFar(m, h, s, 0, pointers, done)
  {
    assert Oldest(s, 0) == [] && [] + h == h;
    if done { ClosedGrows(m, h, s, |pointers|); }
  }

  lemma MidStart(m: Model, ctx: seq<Word>, h: seq<Word>, s: seq<Word>, c: ChartState, childProb: real,
                 pointers: seq<Gram>, done: bool, right: State, prob: real)
    requires WellFormed(m) && Scored(m, ctx, h, pointers, done, right, prob) && Chart(m, s, c, childProb) && s != []
    ensures Mid(m, ctx, h, s, c, childProb, 0, |right.words|, right.backoff, pointers, done, right, prob + childProb)
  {
    hide WellFormed, Score, BackoffSum, KeepLength, TotalAfter, Closed, Joined, LeftSoFar, ValidState;
    assert Oldest(s, 0) == [];
    JoinedStart(m, h + ctx, TotalAfter(m, h, ctx) + childProb, right);
    if ctx == [] {
      LeftStart(m, h, s, pointers, done);
    }
  }

  /** The n-gram walked for the next word: its pointer, then the words of the right state. */
  lemma MidGram(m: Model, ctx: seq<Word>, h: seq<Word>, s: seq<Word>, c: ChartState, childProb: real,
                e: nat, next: nat, right: State)
    requires Chart(m, s, c, childProb) && e < |c.left.pointers|
    requires right.words <= h + ctx && next <= |right.words|
    ensures Oldest(s, e + 1) == c.left.pointers[e] == [s[|s|-e-1]] + Oldest(s, e)
    ensures [s[|s|-e-1]] + (Oldest(s, e) + (h + ctx))[..e+next] == c.left.pointers[e] + right.words[..next]
    ensures c.left.pointers[e] in m.table && m.table[c.left.pointers[e]].extendsLeft
    ensures |c.left.pointers[e]| == e + 1 < m.order && [s[|s|-e-1]] in m.table
  {
    hide Score, BackoffSum, KeepLength, TotalAfter, Closed;
    OldestStep(s, e);
    SliceAcross(Oldest(s, e), h + ctx, next);
    assert right.words[..next] == (h + ctx)[..next];
    assert s[|s|-e-1] in s;
  }

  lemma MidStepScore(m: Model, ctx: seq<Word>, h: seq<Word>, s: seq<Word>, c: ChartState, childProb: real,
                     e: nat, next: nat, back: seq<Backoff>, pointers: seq<Gram>, done: bool, right: State, prob: real,
                     backoffOut: seq<Backoff>, nextUse: nat, ret: FullScoreReturn)
    requires Mid(m, ctx, h, s, c, childProb, e, next, back, pointers, done, right, prob) && e < |c.left.pointers|
    requires Extended(m, c.left.pointers[e] + right.words[..next], e + 1, back[..next], backoffOut, nextUse, ret)
    ensures Joined(m, h + ctx, TotalAfter(m, h, ctx) + childProb, Oldest(s, e + 1), nextUse, backoffOut,
      prob + ret.prob)
    ensures nextUse <= next
  {
    hide WellFormed, Score, BackoffSum, KeepLength, TotalAfter, LeftSoFar, Extended, Joined, Chart, StateFor, Known;
    MidFacts(m, ctx, h, s, c, childProb, e, next, back, pointers, done, right, prob);
    MidGram(m, ctx, h, s, c, childProb, e, next, right);
    JoinWord(m, h + ctx, TotalAfter(m, h, ctx) + childProb, Oldest(s, e), Oldest(s, e) + (h + ctx), next, back, prob,
             s[|s|-e-1], backoffOut, nextUse, ret);
  }

  /** Nothing was charged for older words if they may still extend the match. */
  lemma NothingCharged(m: Model, full: Gram, e: nat, charge: seq<Backoff>,
                       backoffOut: seq<Backoff>, nextUse: nat, ret: FullScoreReturn)
    requires Extended(m, full, e, charge, backoffOut, nextUse, ret) && |full| == e + |charge|
    ensures !ret.independentLeft ==> ret.rest == ret.prob && ret.extendLeft == full
  {
    assert full[..|full|] == full;
  }

  lemma MidStepLeft(m: Model, ctx: seq<Word>, h: seq<Word>, s: seq<Word>, c: ChartState, childProb: real,
                    e: nat, next: nat, back: seq<Backoff>, pointers: seq<Gram>, done: bool, right: State, prob: real,
                    backoffOut: seq<Backoff>, nextUse: nat, ret: FullScoreReturn)
    requires Mid(m, ctx, h, s, c, childProb, e, next, back, pointers, done, right, prob) && e < |c.left.pointers|
    requires Extended(m, c.left.pointers[e] + right.words[..next], e + 1, back[..next], backoffOut, nextUse, ret)
    requires 1 <= |right.words|
    ensures ctx == [] && done ==> LeftSoFar(m, h, s, e + 1, pointers, true)
    ensures !done && ret.independentLeft ==> LeftSoFar(m, h, s, e + 1, pointers, true)
    ensures !done && !ret.independentLeft && nextUse == |right.words| ==>
              LeftSoFar(m, h, s, e + 1, pointers + [ret.extendLeft], false)
    ensures !done && !ret.independentLeft && nextUse != |right.words| ==>
              LeftSoFar(m, h, s, e + 1, pointers + [ret.extendLeft], true)
    ensures !done && !ret.independentLeft ==> ret.rest == ret.prob
  {
    assert next <= |back|;
    hide WellFormed, Score, BackoffSum, TotalAfter, Closed, LeftSoFar, Joined;
    MidGram(m, ctx, h, s, c, childProb, e, next, right);
    var g := c.left.pointers[e] + right.words[..next];
    if done {
      if ctx == [] { LeftDoneStep(m, h, s, e, pointers); }
    } else {
      assert ctx == [] && h + ctx == h && right.words == h && right.words[..next] == h;
      assert g == Oldest(s, e + 1) + h;
      assert ret.independentLeft <==> !(MatchLength(m, g) == |g| < m.order && m.table[g].extendsLeft);
      NothingCharged(m, g, e + 1, back[..next], backoffOut, nextUse, ret);
      UseAll(m, g, e + 1, nextUse);
      LeftStep(m, h, s, e, pointers, g, ret.independentLeft, nextUse == |right.words|);
    }
  }

  function PointersAfter(pointers: seq<Gram>, done: bool, ret: FullScoreReturn): (after: seq<Gram>) {
    if done || ret.independentLeft then pointers else pointers + [ret.extendLeft]
  }

  function ProbAfter(prob: real, done: bool, ret: FullScoreReturn): (after: real) {
    prob + if done || ret.independentLeft then ret.prob else ret.rest
  }

  lemma MidStep(m: Model, ctx: seq<Word>, h: seq<Word>, s: seq<Word>, c: ChartState, childProb: real,
                e: nat, next: nat, back: seq<Backoff>, pointers: seq<Gram>, done: bool, right: State, prob: real,
                backoffOut: seq<Backoff>, nextUse: nat, ret: FullScoreReturn)
    requires Mid(m, ctx, h, s, c, childProb, e, next, back, pointers, done, right, prob) && e < |c.left.pointers|
    requires Extended(m, c.left.pointers[e] + right.words[..next], e + 1, back[..next], backoffOut, nextUse, ret)
    requires 1 <= |right.words|
    ensures Mid(m, ctx, h, s, c, childProb, e + 1, nextUse, backoffOut, PointersAfter(pointers, done, ret),
                done || ret.independentLeft || nextUse != |right.words|, right, ProbAfter(prob, done, ret))
  {
    hide WellFormed, Joined, LeftSoFar, Extended, Scored, Chart, StateFor, Known, TotalAfter, Mid;
    MidFacts(m, ctx, h, s, c, childProb, e, next, back, pointers, done, right, prob);
    MidStepScore(m, ctx, h, s, c, childProb, e, next, back, pointers, done, right, prob, backoffOut, nextUse, ret);
    MidStepLeft(m, ctx, h, s, c, childProb, e, next, back, pointers, done, right, prob, backoffOut, nextUse, ret);
    if done || ret.independentLeft {
      MidIs(m, ctx, h, s, c, childProb, e + 1, nextUse, backoffOut, pointers, true, right, prob + ret.prob);
    } else {
      MidIs(m, ctx, h, s, c, childProb, e + 1, nextUse, backoffOut, pointers + [ret.extendLeft],
            nextUse != |right.words|, right, prob + ret.rest);
    }
  }

  lemma UseAll(m: Model, g: Gram, e: nat, nextUse: nat)
    requires nextUse == UseAfter(m, g, e, e) - e && e < |g|
    ensures nextUse != |g| - e ==> !Extends(m, g)
  {
    assert g[..|g|] == g;
  }

  /** No word of the right state matters any more. */
  lemma MidFinishNone(m: Model, ctx: seq<Word>, h: seq<Word>, s: seq<Word>, c: ChartState, childProb: real,
                      e: nat, back: seq<Backoff>, pointers: seq<Gram>, right: State, prob: real)
    requires Mid(m, ctx, h, s, c, childProb, e, 0, back, pointers, true, right, prob) && h + ctx != []
    ensures Scored(m, ctx, s + h, pointers, true, c.right, prob)
  {
    hide WellFormed, Score, BackoffSum, KeepLength, TotalAfter, Scored, Adequate;
    CutByNext(m, s, e, h + ctx);
    if e == |s| { assert Oldest(s, e) == s; }
    if ctx == [] { LeftFinish(m, h, s, e, pointers, true); }
    FinishCut(m, ctx, h, s, c, childProb, e, pointers, prob);
  }

  lemma ChargeAll(m: Model, t: seq<Word>, e: nat, next: nat, back: seq<Backoff>)
    requires Joining(m, t, e, next, back)
    ensures SumValues(back[..next], 0) + BackoffSum(m, t, e + next) == BackoffSum(m, t, e)
  {
    SumUpTo(m, t, e, back, e + next, 0);
    BackoffSumSplit(m, t, e, e + next);
  }

  /** The fragment was complete on the left: the next word charges all backoffs. */
  lemma MidFinishFull(m: Model, ctx: seq<Word>, h: seq<Word>, s: seq<Word>, c: ChartState, childProb: real,
                      next: nat, back: seq<Backoff>, pointers: seq<Gram>, done: bool, right: State, prob: real)
    requires Mid(m, ctx, h, s, c, childProb, |c.left.pointers|, next, back, pointers, done, right, prob) && c.left.full
    ensures next <= |back|
    ensures Scored(m, ctx, s + h, pointers, true, c.right, prob + SumValues(back[..next], 0))
  {
    hide WellFormed, Score, BackoffSum, KeepLength, TotalAfter, Adequate, Closed, SumValues,
         CutOff, LeftSoFar, Scored, Chart, Joining, Pointers, ValidState, BackoffsBeyond, Across;
    var e := |c.left.pointers|;
    MidFacts(m, ctx, h, s, c, childProb, e, next, back, pointers, done, right, prob);
    FullCut(m, s, c, childProb, h + ctx);
    ChargeAll(m, Oldest(s, e) + (h + ctx), e, next, back);
    if ctx == [] { FullLeft(m, h, s, e, pointers, done); }
    FinishCut(m, ctx, h, s, c, childProb, e, pointers, prob + SumValues(back[..next], 0));
  }

  lemma FullCut(m: Model, s: seq<Word>, c: ChartState, childProb: real, older: seq<Word>)
    requires WellFormed(m) && Chart(m, s, c, childProb) && c.left.full
    ensures Closed(m, s, |c.left.pointers|) && CutOff(m, s, |c.left.pointers|, older)
    ensures |c.left.pointers| == |s| && !EndedAlone(m, s, c) ==> KeepLength(m, s + older) <= |s|
  {
    CutByClosed(m, s, |c.left.pointers|, older);
    LongestKeep(m, s + older);
  }

  /** The fragment was open on the left, so all of it joins the right state. */
  lemma MidFinishOpen(m: Model, ctx: seq<Word>, h: seq<Word>, s: seq<Word>, c: ChartState, childProb: real,
                      next: nat, back: seq<Backoff>, pointers: seq<Gram>, done: bool, right: State,
                      prob: real, out: State)
    requires Mid(m, ctx, h, s, c, childProb, |c.left.pointers|, next, back, pointers, done, right, prob)
    requires !c.left.full && 0 < next <= |back|
    requires out.words == c.right.words + right.words[..next] && out.backoff == c.right.backoff + back[..next]
    ensures Scored(m, ctx, s + h, pointers, done, out, prob)
  {
    hide WellFormed, Score, BackoffSum, KeepLength, TotalAfter, Adequate, Closed, ValidState, Kept,
         Pointers, BackoffsBeyond, Mid, Chart, LeftSoFar, Joining, Across, StateFor;
    var e := |c.left.pointers|;
    MidFacts(m, ctx, h, s, c, childProb, e, next, back, pointers, done, right, prob);
    OpenChild(m, s, c, childProb);
    MidOpenJoined(m, ctx, h, s, c, childProb, next, back, pointers, done, right, prob);
    OpenTotal(m, ctx, h, s, |s| + next, prob);
    KnownPieces(m, h, ctx);
    FinishOpen(m, h + ctx, s, c.right, right, next, back, out, s + (h + ctx));
    KeptAll(m, s + h + ctx, ctx == [] && Ended(done, |pointers|, |s + h|, m.order));
    if ctx == [] { LeftFinish(m, h, s, e, pointers, done); }
  }

  lemma MidOpenJoined(m: Model, ctx: seq<Word>, h: seq<Word>, s: seq<Word>, c: ChartState, childProb: real,
                      next: nat, back: seq<Backoff>, pointers: seq<Gram>, done: bool, right: State, prob: real)
    requires Mid(m, ctx, h, s, c, childProb, |s|, next, back, pointers, done, right, prob)
    requires childProb == TotalAfter(m, s, []) && !c.left.full
    ensures Joining(m, s + (h + ctx), |s|, next, back) && next == Across(m, s + (h + ctx), |s|)
    ensures prob == TotalAfter(m, h, ctx) + TotalAfter(m, s, h + ctx) + BackoffSum(m, s + (h + ctx), |s| + next)
    ensures ctx == [] ==> LeftSoFar(m, h, s, |s|, pointers, done)
    ensures Known(m, s) && ValidState(m, c.right)
    ensures !done ==> |pointers| == |h| + |s| && next == |h|
    ensures s != [] && ctx == [] && done && |pointers| == |h| + |s| ==> next < |h|
  {
    hide TotalAfter, BackoffSum, WellFormed, KeepLength, Score, Joining, Closed, Pointers;
    assert Oldest(s, |s|) == s;
  }

  // ----- the object

  class RuleScore {
    const m: Model
    var out: ChartState
    var leftDone: bool
    var prob: real
    // The words scored so far, newest first, and the beginning of sentence before them if any.
    ghost var h: seq<Word>
    ghost var ctx: seq<Word>

    ghost predicate Valid()
      reads this
    {
      WellFormed(m) && Scored(m, ctx, h, out.left.pointers, leftDone, out.right, prob)
    }

    constructor (m: Model)
      requires WellFormed(m)
      ensures Valid() && this.m == m && h == [] && ctx == [] && prob == 0.0
    {
      this.m := m;
      out := ChartState(Left([], false), State([], []));
      leftDone, prob := false, 0.0;
      h, ctx := [], [];
      new;
      assert [] + h == h;
    }

    method BeginSentence(bos: Word)
      requires Valid() && h == [] && ctx == [] && [bos] in m.table
      modifies this
      ensures Valid() && h == [] && ctx == [bos] && prob == old(prob)
    {
      BeginSentenceFor(m, bos);
      out := out.(right := Scoring.BeginSentence(m, bos));
      leftDone := true;
      ctx := [bos];
      assert h + ctx == [bos];
    }

    method Terminal(w: Word)
      requires Valid() && [w] in m.table
      modifies this
      ensures Valid() && h == [w] + old(h) && ctx == old(ctx)
      ensures MinimalFor(m, h + ctx, out.right)
      ensures prob == TotalAfter(m, h, ctx)
    {
      hide WellFormed, Score, BackoffSum, KeepLength, TotalAfter, Adequate, Pointers, Closed, WalkResult, Known, Kept;
      var copy := out.right;
      var ret, right := FullScore(m, copy, w);
      TerminalTotal(m, ctx, h, out.right, prob, w, right);
      if !leftDone {
        assert out.right.words == h && h + ctx == h;
        TerminalOpen(m, h, out.left.pointers, w, ret.(prob := ret.rest), |right.words|);
      } else if ctx == [] {
        ClosedGrows(m, h, [w], |out.left.pointers|);
        PointersGrow(m, h, out.left.pointers, w);
      }
      out := out.(right := right);
      if leftDone {
        prob := prob + ret.prob;
      } else if ret.independentLeft {
        prob := prob + ret.prob;
        leftDone := true;
        PointersGrow(m, h, out.left.pointers, w);
      } else {
        out := out.(left := out.left.(pointers := out.left.pointers + [ret.extendLeft]));
        prob := prob + ret.rest;
        if |right.words| != |copy.words| + 1 {
          leftDone := true;
        }
      }
      KeptAll(m, [w] + h + ctx, ctx == [] && Ended(leftDone, |out.left.pointers|, |h| + 1, m.order));
      h := [w] + h;
    }

    /** Start with an already scored fragment. */
    method BeginNonTerminal(c: ChartState, childProb: real, ghost s: seq<Word>)
      requires Valid() && h == [] && ctx == [] && Chart(m, s, c, childProb)
      modifies this
      ensures Valid() && h == s && ctx == []
      ensures out == c && prob == childProb
    {
      prob := childProb;
      out := c;
      leftDone := c.left.full;
      h := s;
    }

    /** The oldest `e` words of `c` have been joined; older words beyond `next` do not matter. */
    ghost predicate Joining(s: seq<Word>, c: ChartState, childProb: real, e: nat, next: nat, back: seq<Backoff>)
      reads this
    {
      && Mid(m, ctx, h, s, c, childProb, e, next, back, out.left.pointers, leftDone, out.right, prob)
      && out.right.words != []
    }

    /** Add the fragment `c`, which scored `childProb`, on the right. */
    method NonTerminal(c: ChartState, childProb: real, ghost s: seq<Word>)
      requires Valid() && Chart(m, s, c, childProb)
      modifies this
      ensures Valid() && h == s + old(h) && ctx == old(ctx)
      ensures c.left.full ==> out.right == c.right
    {
      hide WellFormed, Scored, Chart, Mid, SumValues;
      ChartFacts(m, s, c, childProb);
      ScoredFacts(m, ctx, h, out.left.pointers, leftDone, out.right, prob);
      if |c.left.pointers| == 0 {
        AddWithoutLeft(c, childProb, s);
        return;
      }
      MidStart(m, ctx, h, s, c, childProb, out.left.pointers, leftDone, out.right, prob);
      if |out.right.words| == 0 {
        AddToNothing(c, childProb, s);
        return;
      }
      prob := prob + childProb;
      var next: nat := |out.right.words|;
      var exit, back;
      exit, next, back := ExtendLeft(c, next, 1, out.right.backoff, childProb, s);
      if exit { return; }
      var joined: nat := 1;
      while joined < |c.left.pointers|
        invariant 1 <= joined <= |c.left.pointers|
        invariant Joining(s, c, childProb, joined, next, back) && 0 < next
        invariant h == old(h) && ctx == old(ctx)
      {
        exit, next, back := ExtendLeft(c, next, joined + 1, back, childProb, s);
        if exit { return; }
        joined := joined + 1;
      }
      FinishJoin(c, next, back, childProb, s);
    }

    /** The fragment's words do not depend on the left, or there are none. */
    method AddWithoutLeft(c: ChartState, childProb: real, ghost s: seq<Word>)
      requires Valid() && Chart(m, s, c, childProb) && |c.left.pointers| == 0
      modifies this
      ensures Valid() && h == s + old(h) && ctx == old(ctx)
      ensures c.left.full ==> out.right == c.right
    {
      hide WellFormed, Scored, Chart, Mid, SumValues;
      ChartFacts(m, s, c, childProb);
      ScoredFacts(m, ctx, h, out.left.pointers, leftDone, out.right, prob);
      if c.left.full {
        MidStart(m, ctx, h, s, c, childProb, out.left.pointers, leftDone, out.right, prob);
        MidFinishFull(m, ctx, h, s, c, childProb, |out.right.words|, out.right.backoff, out.left.pointers,
            leftDone, out.right, prob + childProb);
        assert out.right.backoff[..|out.right.words|] == out.right.backoff;
        var charge := AddBackoffs(out.right.backoff, 0);
        prob := prob + childProb + charge;
        leftDone := true;
        out := out.(right := c.right);
      } else {
        prob := prob + childProb;
        assert s + h == h;
      }
      h := s + h;
    }

    /** No word scored so far matters to the fragment, or there is none. */
    method AddToNothing(c: ChartState, childProb: real, ghost s: seq<Word>)
      requires Valid() && Chart(m, s, c, childProb) && |out.right.words| == 0 && s != []
      modifies this
      ensures Valid() && h == s + old(h) && ctx == old(ctx)
      ensures c.left.full ==> out.right == c.right
    {
      hide WellFormed, Scored, Chart, Mid, SumValues;
      ChartFacts(m, s, c, childProb);
      ScoredFacts(m, ctx, h, out.left.pointers, leftDone, out.right, prob);
      MidStart(m, ctx, h, s, c, childProb, out.left.pointers, leftDone, out.right, prob);
      prob := prob + childProb;
      out := out.(right := c.right);
      if leftDone {
        MidFinishNone(m, ctx, h, s, c, childProb, 0, old(out.right.backoff), out.left.pointers, old(out.right), prob);
      } else {
        var nonEmpty := |out.left.pointers| != 0;
        out := if nonEmpty then out else out.(left := c.left);
        leftDone := nonEmpty || c.left.full;
        assert s + h == s;
      }
      h := s + h;
    }

    lemma JoiningFacts(s: seq<Word>, c: ChartState, childProb: real, e: nat, next: nat, back: seq<Backoff>)
      requires Joining(s, c, childProb, e, next, back)
      ensures WellFormed(m) && next <= |out.right.words| && next <= |back|
      ensures e < |c.left.pointers| ==>
        && c.left.pointers[e] in m.table && m.table[c.left.pointers[e]].extendsLeft
        && |c.left.pointers[e]| == e + 1 < m.order
    {
      MidFacts(m, ctx, h, s, c, childProb, e, next, back, out.left.pointers, leftDone, out.right, prob);
      if e < |c.left.pointers| {
        MidGram(m, ctx, h, s, c, childProb, e, next, out.right);
      }
    }

    /** What one more word makes of the object. */
    lemma JoiningStep(s: seq<Word>, c: ChartState, childProb: real, e: nat, next: nat, back: seq<Backoff>,
                      backoffOut: seq<Backoff>, nextUse: nat, ret: FullScoreReturn)
      requires Joining(s, c, childProb, e, next, back)
      requires e < |c.left.pointers| && next <= |out.right.words| && next <= |back|
      requires Extended(m, c.left.pointers[e] + out.right.words[..next], e + 1, back[..next], backoffOut, nextUse, ret)
      ensures
        var pointers := PointersAfter(out.left.pointers, leftDone, ret);
        var done := leftDone || ret.independentLeft || nextUse != |out.right.words|;
        var total := ProbAfter(prob, leftDone, ret);
        && out.right.words != []
        && Mid(m, ctx, h, s, c, childProb, e + 1, nextUse, backoffOut, pointers, done, out.right, total)
        && (nextUse == 0 ==> WellFormed(m) && Scored(m, ctx, s + h, pointers, true, c.right, total))
    {
      assert out.right.words != [];
      hide Mid, Extended, Scored;
      MidStep(m, ctx, h, s, c, childProb, e, next, back, out.left.pointers, leftDone, out.right, prob, backoffOut,
          nextUse, ret);
      var pointers := PointersAfter(out.left.pointers, leftDone, ret);
      var done := leftDone || ret.independentLeft || nextUse != |out.right.words|;
      var total := ProbAfter(prob, leftDone, ret);
      MidFacts(m, ctx, h, s, c, childProb, e + 1, nextUse, backoffOut, pointers, done, out.right, total);
      if nextUse == 0 {
        MidFinishNone(m, ctx, h, s, c, childProb, e + 1, backoffOut, pointers, out.right, total);
      }
    }

    /** Join one more word of `c`; if nothing to its left matters from there on, finish. */
    method ExtendLeft(c: ChartState, nextIn: nat, extendLength: nat, backIn: seq<Backoff>,
                      ghost childProb: real, ghost s: seq<Word>)
      returns (exit: bool, next: nat, back: seq<Backoff>)
      requires 1 <= extendLength <= |c.left.pointers|
      requires Joining(s, c, childProb, extendLength - 1, nextIn, backIn)
      modifies this
      ensures ctx == old(ctx)
      ensures exit ==> Valid() && h == s + old(h) && out.right == c.right
      ensures !exit ==> h == old(h) && Joining(s, c, childProb, extendLength, next, back) && 0 < next
    {
      hide WellFormed, Scored, Mid, Extended, Chart, PointersAfter, ProbAfter;
      ghost var e := extendLength - 1;
      var words, pointer := out.right.words, c.left.pointers[extendLength-1];
      JoiningFacts(s, c, childProb, e, nextIn, backIn);
      var ret;
      back, next, ret := Scoring.ExtendLeft(m, words[..nextIn], backIn, pointer, extendLength);
      JoiningStep(s, c, childProb, e, nextIn, backIn, back, next, ret);
      ProcessRet(ret);
      exit := false;
      if next != |words| {
        leftDone := true;
        if next == 0 {
          out := out.(right := c.right);
          h := s + h;
          exit := true;
        }
      }
    }

    method ProcessRet(ret: FullScoreReturn)
      modifies this`prob, this`leftDone, this`out
      ensures out == old(out).(left := old(out).left.(pointers :=
        PointersAfter(old(out).left.pointers, old(leftDone), ret)))
      ensures leftDone == (old(leftDone) || ret.independentLeft)
      ensures prob == ProbAfter(old(prob), old(leftDone), ret)
    {
      if leftDone {
        prob := prob + ret.prob;
        return;
      }
      if ret.independentLeft {
        prob := prob + ret.prob;
        leftDone := true;
        return;
      }
      out := out.(left := out.left.(pointers := out.left.pointers + [ret.extendLeft]));
      prob := prob + ret.rest;
    }

    /** All words with left pointers have been joined. */
    method FinishJoin(c: ChartState, next: nat, back: seq<Backoff>, ghost childProb: real, ghost s: seq<Word>)
      requires Joining(s, c, childProb, |c.left.pointers|, next, back) && 0 < next
      modifies this
      ensures Valid() && h == s + old(h) && ctx == old(ctx)
      ensures c.left.full ==> out.right == c.right
    {
      hide WellFormed, Scored, Chart, Mid, StateFor, Known, SumValues;
      MidFacts(m, ctx, h, s, c, childProb, |c.left.pointers|, next, back, out.left.pointers, leftDone, out.right, prob);
      if c.left.full {
        MidFinishFull(m, ctx, h, s, c, childProb, next, back, out.left.pointers, leftDone, out.right, prob);
        var charge := AddBackoffs(back[..next], 0);
        prob := prob + charge;
        leftDone := true;
        out := out.(right := c.right);
      } else {
        var minimized := |c.right.words| < |c.left.pointers|;
        var right := if minimized then c.right
                     else State(c.right.words + out.right.words[..next], c.right.backoff + back[..next]);
        MidFinishOpen(m, ctx, h, s, c, childProb, next, back, out.left.pointers, leftDone, out.right, prob, right);
        out := out.(right := right);
      }
      h := s + h;
    }

    /** Make the description complete. */
    method Finish() returns (total: real)
      requires Valid()
      modifies this`out
      ensures Valid() && total == prob && out.right == old(out.right) && out.left.pointers == old(out.left.pointers)
      ensures leftDone ==> out.left.full
      ensures ctx == [] ==> Chart(m, h, out, prob)
    {
      if !leftDone && |out.left.pointers| == m.order - 1 {
        LongestIsClosed(m, h);
      }
      out := out.(left := out.left.(full := leftDone || |out.left.pointers| == m.order - 1));
      total := prob;
    }
  }

  lemma LongestIsClosed(m: Model, h: seq<Word>)
    requires WellFormed(m) && |h| == m.order - 1
    ensures Closed(m, h, |h|)
  {
    forall w: Word, x: Word ensures [w] + h + [x] !in m.table {
      assert |[w] + h + [x]| > m.order;
    }
  }

  lemma ChartFacts(m: Model, s: seq<Word>, c: ChartState, childProb: real)
    requires Chart(m, s, c, childProb)
    ensures |c.left.pointers| <= |s| && (c.left.full ==> s != [])
    ensures !c.left.full ==> |c.left.pointers| == |s| == |c.right.words|
    ensures s == [] ==> childProb == 0.0
    ensures |c.right.words| == |c.right.backoff|
    ensures Scored(m, [], s, c.left.pointers, c.left.full, c.right, childProb)
  {
    assert s + [] == s;
  }

  lemma ScoredFacts(m: Model, ctx: seq<Word>, h: seq<Word>, pointers: seq<Gram>, done: bool, right: State, prob: real)
    requires Scored(m, ctx, h, pointers, done, right, prob)
    ensures |right.words| == |right.backoff|
    ensures !done ==> ctx == [] && |pointers| == |h| == |right.words|
    ensures ctx == [] && h == [] ==> prob == 0.0
    ensures done ==> h + ctx != []
  {
    assert h + ctx == [] ==> right.words == [];
  }
}
