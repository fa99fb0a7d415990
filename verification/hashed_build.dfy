/**
 Building the hash-table model from a listing of n-grams.

 A listing may contain an n-gram without the shorter n-grams it extends.  The
 builder inserts these as blanks, guesses their probabilities from the backoffs,
 and marks which entries extend left and right by setting and clearing signs.
 The theorems: a successful build gives a table the scorer may rely on, and it
 gives every context and word the probability of the listing itself exactly
 when no blank's backed-off log probability is positive.
 */
module HashedBuild {
  import opened NGrams

  /** A float whose sign bit carries information of its own. */
  datatype Signed = Signed(magnitude: real, negative: bool) {
    function SetSign(): (s: Signed) { Signed(magnitude, true) }
    function UnsetSign(): (s: Signed) { Signed(magnitude, false) }
  }

  function Abs(r: real): (a: real)
    ensures a >= 0.0
  {
    if r < 0.0 then -r else r
  }

  function ToSigned(r: real): (s: Signed)
    ensures s.magnitude >= 0.0 && r == if s.negative then -s.magnitude else s.magnitude
  {
    Signed(Abs(r), r < 0.0)
  }

  datatype Weights = Weights(prob: Signed, backoff: Backoff)

  const NO_EXTENSION := Backoff(0.0, false)

  /** Zero backoffs of n-grams that are contexts are marked by dropping the minus sign. */
  function SetExtension(b: Backoff): (marked: Backoff) {
    if b.value == 0.0 then Backoff(0.0, true) else b
  }

  type Table = map<Gram, Weights>

  /** How the scorer reads the table: the sign of a probability says whether it extends left. */
  function AsModel(order: nat, t: Table): (model: Model) {
    Model(order, map g | g in t :: Entry(-t[g].prob.magnitude, t[g].backoff, !t[g].prob.negative))
  }

  datatype Listed = Listed(prob: real, backoff: real)

  type Listing = map<Gram, Listed>

  /** The listing read as a model of its own. */
  function ListingModel(order: nat, l: Listing): (model: Model) {
    Model(order, map g | g in l :: Entry(l[g].prob, Backoff(l[g].backoff, false), false))
  }

  datatype Line = Line(gram: Gram, prob: real, backoff: real)

  datatype Outcome = Built | MissingContext | TableFull

  function UnigramTable(unigrams: seq<Weights>): (table: Table) {
    map w: nat | w < |unigrams| :: [w] := unigrams[w]
  }

  // ----- reading one n-gram

  /** The probability guessed for `g[..k]` from the entry `g[..b]` and the backoffs in `t`. */
  function Estimate(t: Table, g: Gram, b: nat, k: nat): (prob: real)
    requires 1 <= b <= k <= |g| && g[..b] in t
  {
    if k == b then -t[g[..b]].prob.magnitude else Estimate(t, g, b, k - 1) + Saved(t, g[1..k])
  }

  function Saved(t: Table, g: Gram): (backoff: real) {
    if g in t then t[g].backoff.value else 0.0
  }

  // ----- counting

  /** The n-grams of one length in `s`. */
  function OfLength(s: set<Gram>, n: nat): (o: set<Gram>) {
    set g | g in s && |g| == n
  }

  /** For each order, what is stored and what room is left make up the capacity. */
  ghost predicate Counted(capacity: seq<nat>, s: set<Gram>, room: seq<nat>) {
    && |room| == |capacity|
    && forall k :: 0 <= k < |room| ==> room[k] + |OfLength(s, k + 2)| == capacity[k]
  }

  lemma OneMore(s: set<Gram>, g: Gram, n: nat)
    requires g !in s
    ensures |OfLength(s + {g}, n)| == |OfLength(s, n)| + if n == |g| then 1 else 0
  {
    assert OfLength(s + {g}, n) == OfLength(s, n) + if n == |g| then {g} else {};
  }

  lemma CountedInsert(capacity: seq<nat>, s: set<Gram>, room: seq<nat>, g: Gram)
    requires Counted(capacity, s, room) && g !in s && 2 <= |g| <= |room| + 1 && room[|g|-2] > 0
    ensures Counted(capacity, s + {g}, room[|g|-2 := room[|g|-2] - 1])
  {
    hide OfLength;
    forall k: nat ensures |OfLength(s + {g}, k)| == |OfLength(s, k)| + if k == |g| then 1 else 0 {
      OneMore(s, g, k);
    }
  }

  /** No prefix of `g` from `g[..k]` on is stored, and there is no room for `g[..k]`. */
  ghost predicate Blocked(t: Table, room: seq<nat>, g: Gram, k: nat) {
    2 <= k < |g| <= |room| + 2 && room[k-2] == 0 && forall j :: k <= j < |g| ==> g[..j] !in t
  }

  class HashedSearch {
    const order: nat
    // How many n-grams the table of each order may take; capacity[n-2] is for n-grams.
    const capacity: seq<nat>
    var table: Table
    // How many more it may take.
    var room: seq<nat>

    ghost predicate Valid()
      reads this
    {
      Counted(capacity, table.Keys, room)
    }

    constructor (order: nat, unigrams: seq<Weights>, capacity: seq<nat>)
      ensures Valid() && this.order == order && this.capacity == capacity && table == UnigramTable(unigrams)
    {
      this.order, this.capacity, room, table := order, capacity, capacity, UnigramTable(unigrams);
      new;
      assert forall n: nat :: n >= 2 ==> OfLength(table.Keys, n) == {};
    }

    /** Insert without looking. */
    method Insert(g: Gram, value: Weights) returns (full: bool)
      requires 2 <= |g| <= |room| + 1
      modifies this
      ensures full <==> old(room)[|g|-2] == 0
      ensures full ==> table == old(table) && room == old(room)
      ensures !full ==> table == old(table)[g := value] && room == old(room)[|g|-2 := old(room)[|g|-2] - 1]
      ensures old(Valid()) && g !in old(table) ==> Valid()
    {
      full := room[|g|-2] == 0;
      if !full {
        if Valid() && g !in table { CountedInsert(capacity, table.Keys, room, g); }
        room := room[|g|-2 := room[|g|-2] - 1];
        table := table[g := value];
        assert table.Keys == old(table).Keys + {g};
      }
    }

    /** Insert unless it is there. */
    method FindOrInsert(g: Gram, value: Weights) returns (found: bool, full: bool)
      requires Valid() && 2 <= |g| <= |room| + 1
      modifies this
      ensures Valid() && (found <==> g in old(table))
      ensures full <==> !found && old(room)[|g|-2] == 0
      ensures found || full ==> table == old(table) && room == old(room)
      ensures !found && !full ==> table == old(table)[g := value]
      ensures !found && !full ==> room == old(room)[|g|-2 := old(room)[|g|-2] - 1]
    {
      found, full := g in table, false;
      if !found {
        if room[|g|-2] == 0 { return found, true; }
        CountedInsert(capacity, table.Keys, room, g);
        room := room[|g|-2 := room[|g|-2] - 1];
        table := table[g := value];
        assert table.Keys == old(table).Keys + {g};
      }
    }

    /** Find the longest entry that `g` extends to the left, inserting blanks on the way.  The blanks
        of one call go to different orders, so it fails where one of those had no room before. */
    method FindLower(g: Gram) returns (between: seq<Gram>, full: bool)
      requires Valid() && 2 <= |g| <= |room| + 2 && g[..1] in table
      modifies this
      ensures Valid()
      ensures full <==> exists k :: Blocked(old(table), old(room), g, k)
      ensures 1 <= |between| < |g| && BlanksAdded(old(table), table, g, |g| - |between|)
      ensures forall i :: 0 <= i < |between| ==> between[i] == g[..|g|-1-i]
      ensures full ==> Blocked(old(table), room, g, |g| - |between|)
      ensures !full ==> g[..|g|-|between|] in old(table)
    {
      hide BlanksAdded, Valid, Counted, Blocked;
      var junk: Signed := *;
      between, full := [], false;
      var lower: int := |g| - 1;
      BlanksNone(table, g);
      while true
        invariant Valid() && 1 <= lower < |g| && |between| == |g| - 1 - lower
        invariant |room| == |old(room)| && g[..1] in table && g[..1] in old(table)
        invariant forall i :: 0 <= i < |between| ==> between[i] == g[..|g|-1-i]
        invariant BlanksAdded(old(table), table, g, lower)
        invariant forall i :: 0 <= i <= lower - 2 ==> room[i] == old(room)[i]
        invariant forall i :: 0 <= lower - 1 <= i < |g| - 2 ==> old(room)[i] > 0
        decreases lower
      {
        between := between + [g[..lower]];
        if lower == 1 {
          NotBlocked(old(table), old(room), g, lower);
          return;
        }
        BlanksOne(old(table), table, g, lower, junk);
        var found;
        found, full := FindOrInsert(g[..lower], Weights(junk, NO_EXTENSION));
        if full {
          IsBlocked(old(table), table, room, g, lower);
          IsBlocked(old(table), table, old(room), g, lower);
          return;
        }
        if found {
          NotBlocked(old(table), old(room), g, lower);
          return;
        }
        lower := lower - 1;
      }
    }

    method SetBackoffExtension(g: Gram)
      requires g in table
      modifies this`table
      ensures table == WithExtension(old(table), g)
    {
      table := table[g := table[g].(backoff := SetExtension(table[g].backoff))];
    }

    method SetProb(g: Gram, prob: Signed)
      requires g in table
      modifies this`table
      ensures table == old(table)[g := old(table)[g].(prob := prob)]
    {
      table := table[g := table[g].(prob := prob)];
    }

    /** Give the blanks in `between` their probabilities and mark all of it as extending left. */
    method AdjustLower(g: Gram, between: seq<Gram>)
      requires 1 <= |between| < |g| && forall i :: 0 <= i < |between| ==> between[i] == g[..|g|-1-i]
      requires forall k :: |g| - |between| <= k < |g| ==> g[..k] in table
      requires [g[1]] in table
      modifies this`table
      ensures Adjusted(old(table), table, g, |g| - |between|)
    {
      hide Guessed, Marked, Adjusted, Estimate;
      ghost var b, t0 := |g| - |between|, table;
      assert g[..b] == between[|between|-1];
      if |between| == 1 {
        SetProb(between[0], table[between[0]].prob.UnsetSign());
        AdjustedOne(t0, g);
        return;
      }
      var prob := -table[between[|between|-1]].prob.magnitude;
      var basis := |g| - |between|;
      var change := |between| - 2;
      GuessStart(t0, g, b);
      if basis == 1 {
        // The context is one word, which is in the vocabulary.
        assert g[1..2] == [g[1]];
        GuessContext(t0, table, g, b, basis);
        SetBackoffExtension([g[1]]);
        prob := prob + table[[g[1]]].backoff.value;
        GuessProb(t0, table, g, b, basis);
        SetProb(between[change], ToSigned(prob));
        basis, change := 2, change - 1;
      }
      while basis < |g| - 1
        invariant b <= basis <= |g| - 1 && change == |g| - 2 - basis
        invariant Guessed(t0, table, g, b, basis, basis) && table.Keys == t0.Keys
        invariant b < |g| && g[..b] in t0 && prob == Estimate(t0, g, b, basis)
      {
        GuessContext(t0, table, g, b, basis);
        var context := g[1..basis+1];
        if context in table {
          SetBackoffExtension(context);
          prob := prob + table[context].backoff.value;
        }
        assert between[change] == g[..basis+1];
        GuessProb(t0, table, g, b, basis);
        SetProb(between[change], ToSigned(prob));
        basis, change := basis + 1, change - 1;
      }
      ghost var t1 := table;
      MarkAll(g, between);
      AdjustedAll(t0, t1, table, g, b);
    }

    /** Mark all of `between` as extending left. */
    method MarkAll(g: Gram, between: seq<Gram>)
      requires 1 <= |between| < |g| && forall i :: 0 <= i < |between| ==> between[i] == g[..|g|-1-i]
      requires forall k :: |g| - |between| <= k < |g| ==> g[..k] in table
      modifies this`table
      ensures Marked(old(table), table, g, |g| - |between|)
    {
      hide Marked;
      MarkStart(table, g);
      var i := 0;
      while i < |between|
        invariant 0 <= i <= |between|
        invariant Marked(old(table), table, g, |g| - i) && table.Keys == old(table).Keys
      {
        ghost var before := table;
        SetProb(between[i], table[between[i]].prob.UnsetSign());
        MarkStep(old(table), before, g, |g| - i, table);
        i := i + 1;
      }
    }
  }

  function WithExtension(t: Table, g: Gram): (marked: Table)
    requires g in t
  {
    t[g := t[g].(backoff := SetExtension(t[g].backoff))]
  }

  /** The blanks `g[..k]` with `b < k <= upto` have been given probabilities, and the contexts of
      those with `k <= marked` have been marked; nothing else has changed. */
  ghost predicate Guessed(t: Table, u: Table, g: Gram, b: nat, marked: nat, upto: nat) {
    && 1 <= b <= upto <= marked < |g| && g[..b] in t && t.Keys == u.Keys
    && (forall x :: x in t ==> BackoffKept(t, u, g, b, marked, x))
    && (forall k :: b < k <= upto ==> g[..k] in u && u[g[..k]].prob == ToSigned(Estimate(t, g, b, k)))
    && (forall x :: x in t && !(b < |x| <= upto && x == g[..|x|]) ==> u[x].prob == t[x].prob)
  }

  /** The entries `g[..k]` with `k >= from` have been marked as extending left. */
  ghost predicate Marked(t: Table, u: Table, g: Gram, from: nat) {
    && t.Keys == u.Keys
    && forall x :: x in t ==>
         u[x] == if from <= |x| < |g| && x == g[..|x|] then t[x].(prob := t[x].prob.UnsetSign()) else t[x]
  }

  /** All that `AdjustLower` does. */
  ghost predicate Adjusted(t: Table, u: Table, g: Gram, b: nat) {
    && 1 <= b < |g| && g[..b] in t && t.Keys == u.Keys
    && (forall x :: x in t ==> BackoffKept(t, u, g, b, |g| - 1, x))
    && (forall k :: b < k < |g| ==> g[..k] in u && u[g[..k]].prob == ToSigned(Estimate(t, g, b, k)).UnsetSign())
    && u[g[..b]].prob == t[g[..b]].prob.UnsetSign()
    && (forall x :: x in t && !(b <= |x| < |g| && x == g[..|x|]) ==> u[x].prob == t[x].prob)
  }

  lemma GuessStart(t: Table, g: Gram, b: nat)
    requires 1 <= b < |g| && g[..b] in t
    ensures Guessed(t, t, g, b, b, b) && Estimate(t, g, b, b) == -t[g[..b]].prob.magnitude
  {}

  lemma MarkContextAt(t: Table, u: Table, g: Gram, b: nat, basis: nat, x: Gram)
    requires basis + 1 < |g| && 1 <= b <= basis && t.Keys == u.Keys && x in t
    requires forall y :: y in t ==> BackoffKept(t, u, g, b, basis, y)
    ensures BackoffKept(t, if g[1..basis+1] in u then WithExtension(u, g[1..basis+1]) else u, g, b, basis + 1, x)
  {
    assert BackoffKept(t, u, g, b, basis, x);
    if |x| == basis && x == g[1..|x|+1] { assert x == g[1..basis+1]; }
  }

  lemma EstimateNext(t: Table, g: Gram, b: nat, k: nat)
    requires 1 <= b <= k < |g| && g[..b] in t
    ensures Estimate(t, g, b, k + 1) == Estimate(t, g, b, k) + Saved(t, g[1..k+1])
  {}

  lemma SavedSame(t: Table, u: Table, g: Gram, b: nat, marked: nat, x: Gram)
    requires t.Keys == u.Keys && marked < |g| && (x in t ==> BackoffKept(t, u, g, b, marked, x))
    ensures Saved(u, x) == Saved(t, x)
  {}

  lemma ContextSaved(t: Table, u: Table, g: Gram, b: nat, basis: nat)
    requires Guessed(t, u, g, b, basis, basis) && basis + 1 < |g|
    ensures Saved(u, g[1..basis+1]) == Saved(t, g[1..basis+1])
  {
    hide Estimate, Saved, BackoffKept;
    SavedSame(t, u, g, b, basis, g[1..basis+1]);
  }

  lemma GuessContext(t: Table, u: Table, g: Gram, b: nat, basis: nat)
    requires Guessed(t, u, g, b, basis, basis) && basis + 1 < |g|
    ensures var context := g[1..basis+1];
      && Guessed(t, if context in u then WithExtension(u, context) else u, g, b, basis + 1, basis)
      && Estimate(t, g, b, basis + 1) == Estimate(t, g, b, basis) + Saved(u, context)
  {
    var context := g[1..basis+1];
    ContextSaved(t, u, g, b, basis);
    EstimateNext(t, g, b, basis);
    hide BackoffKept, Estimate, Saved, SetExtension;
    forall x | x in t
      ensures BackoffKept(t, if context in u then WithExtension(u, context) else u, g, b, basis + 1, x)
    {
      MarkContextAt(t, u, g, b, basis, x);
    }
  }

  lemma KeptAlike(t: Table, u: Table, v: Table, g: Gram, b: nat, marked: nat, x: Gram)
    requires x in t && x in u && x in v && marked < |g|
    requires BackoffKept(t, u, g, b, marked, x) && v[x].backoff == u[x].backoff
    ensures BackoffKept(t, v, g, b, marked, x)
  {}

  lemma GuessProb(t: Table, u: Table, g: Gram, b: nat, basis: nat)
    requires Guessed(t, u, g, b, basis + 1, basis) && g[..basis+1] in u
    ensures Guessed(t, u[g[..basis+1] := u[g[..basis+1]].(prob := ToSigned(Estimate(t, g, b, basis + 1)))],
                    g, b, basis + 1, basis + 1)
  {
    hide Estimate, SetExtension, BackoffKept, ToSigned;
    var q := g[..basis+1];
    var v := u[q := u[q].(prob := ToSigned(Estimate(t, g, b, basis + 1)))];
    forall x | x in t ensures BackoffKept(t, v, g, b, basis + 1, x) {
      KeptAlike(t, u, v, g, b, basis + 1, x);
    }
    forall k | b < k <= basis + 1 ensures g[..k] in v && v[g[..k]].prob == ToSigned(Estimate(t, g, b, k)) {
      assert k <= basis ==> |g[..k]| != |q|;
    }
    forall x | x in t && !(b < |x| <= basis + 1 && x == g[..|x|]) ensures v[x].prob == t[x].prob {
      assert x != q;
    }
  }

  lemma MarkStart(t: Table, g: Gram)
    ensures Marked(t, t, g, |g|)
  {}

  lemma MarkStep(t: Table, u: Table, g: Gram, from: nat, v: Table)
    requires Marked(t, u, g, from) && 1 <= from <= |g| && g[..from-1] in u
    requires v == u[g[..from-1] := u[g[..from-1]].(prob := u[g[..from-1]].prob.UnsetSign())]
    ensures Marked(t, v, g, from - 1)
  {}

  lemma AdjustedOne(t: Table, g: Gram)
    requires 2 <= |g| && g[..|g|-1] in t
    ensures Adjusted(t, t[g[..|g|-1] := t[g[..|g|-1]].(prob := t[g[..|g|-1]].prob.UnsetSign())], g, |g| - 1)
  {}

  lemma AdjustedAll(t: Table, u: Table, v: Table, g: Gram, b: nat)
    requires 1 <= b < |g| && Guessed(t, u, g, b, |g| - 1, |g| - 1) && Marked(u, v, g, b)
    ensures Adjusted(t, v, g, b)
  {
    forall x | x in t ensures BackoffKept(t, v, g, b, |g| - 1, x) {
      assert BackoffKept(t, u, g, b, |g| - 1, x);
    }
  }

  /** Only contexts of blanks have been marked as extending right. */
  ghost predicate BackoffKept(t: Table, u: Table, g: Gram, b: nat, upto: nat, x: Gram)
    requires x in t && x in u && upto < |g|
  {
    u[x].backoff == if b <= |x| < upto && x == g[1..|x|+1] then SetExtension(t[x].backoff) else t[x].backoff
  }

  /** `u` is `t` with blanks for exactly the missing prefixes of `g` longer than `b`. */
  ghost predicate BlanksAdded(t: Table, u: Table, g: Gram, b: nat) {
    && 1 <= b < |g|
    && (forall k :: b < k < |g| ==> g[..k] !in t && g[..k] in u && u[g[..k]].backoff == NO_EXTENSION)
    && (forall x :: x in t ==> x in u && u[x] == t[x])
    && (forall x :: x in u ==> x in t || (b < |x| < |g| && x == g[..|x|]))
  }

  lemma BlanksNone(t: Table, g: Gram)
    requires 2 <= |g|
    ensures BlanksAdded(t, t, g, |g| - 1)
  {}

  lemma IsBlocked(t: Table, u: Table, room: seq<nat>, g: Gram, b: nat)
    requires BlanksAdded(t, u, g, b) && g[..b] !in t && 2 <= b && |g| <= |room| + 2 && room[b-2] == 0
    ensures Blocked(t, room, g, b)
  {}

  lemma NotBlocked(t: Table, room: seq<nat>, g: Gram, b: nat)
    requires 1 <= b < |g| <= |room| + 2 && (b == 1 || g[..b] in t)
    requires forall i :: 0 <= b - 1 <= i < |g| - 2 ==> room[i] > 0
    ensures forall k :: !Blocked(t, room, g, k)
  {}

  lemma BlanksOne(t: Table, u: Table, g: Gram, b: nat, junk: Signed)
    requires BlanksAdded(t, u, g, b) && 2 <= b
    ensures g[..b] in u <==> g[..b] in t
    ensures g[..b] !in t ==> BlanksAdded(t, u[g[..b] := Weights(junk, NO_EXTENSION)], g, b - 1)
    ensures g[..b] !in t && b == 2 ==> g[..b] != g[..1]
  {}
}
