/**
 The linear-probing hash table: what makes it consistent, lookup and insertion,
 and doubling within the same array.
 */
module Probing {
  import opened Arithmetic
  import opened FiniteSets

  type Key = nat
  type Value = int
  type Hash = Key -> nat

  datatype Entry = Entry(key: Key, value: Value)

  /** The slots seen when probing from `from` up to but not including `to`, wrapping at `n`. */
  predicate OnPath(n: nat, from: nat, to: nat, j: nat) {
    j < n && if from <= to then from <= j < to else from <= j || j < to
  }

  function Ideal(hash: Hash, key: Key, n: nat): (i: nat)
    requires n > 0
    ensures i < n
  {
    hash(key) % n
  }

  ghost predicate Used(s: seq<Entry>, invalid: Key, i: nat) {
    i < |s| && s[i].key != invalid
  }

  ghost predicate UniqueKeys(s: seq<Entry>, invalid: Key) {
    forall i: nat, j: nat :: Used(s, invalid, i) && Used(s, invalid, j) && s[i].key == s[j].key ==> i == j
  }

  /** No empty slot lies between an entry's ideal slot and its actual one. */
  ghost predicate Reachable(hash: Hash, s: seq<Entry>, invalid: Key, i: nat)
    requires Used(s, invalid, i)
  {
    forall j: nat :: OnPath(|s|, Ideal(hash, s[i].key, |s|), i, j) ==> Used(s, invalid, j)
  }

  ghost predicate Consistent(hash: Hash, s: seq<Entry>, invalid: Key) {
    UniqueKeys(s, invalid) && forall i: nat :: Used(s, invalid, i) ==> Reachable(hash, s, invalid, i)
  }

  ghost function Keys(s: seq<Entry>, invalid: Key): (keys: set<Key>) {
    set i: nat | i < |s| && Used(s, invalid, i) :: s[i].key
  }

  ghost function SlotOf(s: seq<Entry>, invalid: Key, key: Key): (i: nat)
    requires key in Keys(s, invalid)
    ensures Used(s, invalid, i) && s[i].key == key
  {
    var i: nat :| Used(s, invalid, i) && s[i].key == key;
    i
  }

  /** The finite map the slots stand for. */
  ghost function Contents(s: seq<Entry>, invalid: Key): (contents: map<Key, Value>) {
    map k | k in Keys(s, invalid) :: s[SlotOf(s, invalid, k)].value
  }

  ghost function UsedSlots(s: seq<Entry>, invalid: Key): (slots: set<nat>) {
    set i: nat | i < |s| && Used(s, invalid, i)
  }

  lemma ContentsAt(s: seq<Entry>, invalid: Key, i: nat)
    requires UniqueKeys(s, invalid) && Used(s, invalid, i)
    ensures s[i].key in Contents(s, invalid) && Contents(s, invalid)[s[i].key] == s[i].value
  {
    assert s[i].key in Keys(s, invalid);
  }

  lemma SlotFor(s: seq<Entry>, invalid: Key, k: Key) returns (i: nat)
    requires k in Contents(s, invalid)
    ensures Used(s, invalid, i) && s[i].key == k
  {
    i := SlotOf(s, invalid, k);
  }

  /** A slot is empty exactly when fewer slots are used than there are. */
  lemma EmptySlot(s: seq<Entry>, invalid: Key)
    ensures |UsedSlots(s, invalid)| <= |s|
    ensures (exists i: nat :: i < |s| && !Used(s, invalid, i)) <==> |UsedSlots(s, invalid)| < |s|
  {
    var used := UsedSlots(s, invalid);
    SubsetSize(used, Below(|s|));
    if i: nat :| i < |s| && !Used(s, invalid, i) {
      SubsetSize(used, Below(|s|) - {i});
    } else {
      assert used == Below(|s|);
    }
  }

  /** Filling an empty slot adds a binding. */
  lemma Put(s: seq<Entry>, invalid: Key, j: nat, e: Entry)
    requires UniqueKeys(s, invalid) && j < |s| && !Used(s, invalid, j)
    requires e.key != invalid && e.key !in Contents(s, invalid)
    ensures UniqueKeys(s[j := e], invalid)
    ensures Contents(s[j := e], invalid) == Contents(s, invalid)[e.key := e.value]
    ensures UsedSlots(s[j := e], invalid) == UsedSlots(s, invalid) + {j}
    ensures |UsedSlots(s[j := e], invalid)| == |UsedSlots(s, invalid)| + 1
  {
    var t := s[j := e];
    PutUnique(s, invalid, j, e);
    assert UsedSlots(t, invalid) == UsedSlots(s, invalid) + {j};
    hide Contents, UniqueKeys;
    ContentsAt(t, invalid, j);
    forall k ensures k in Contents(t, invalid) <==> k in Contents(s, invalid) || k == e.key
      ensures k in Contents(s, invalid) ==> Contents(t, invalid)[k] == Contents(s, invalid)[k]
    {
      if k in Contents(s, invalid) {
        var i := SlotFor(s, invalid, k);
        ContentsAt(t, invalid, i);
      } else if k in Contents(t, invalid) {
        var i := SlotFor(t, invalid, k);
        if i != j { ContentsAt(s, invalid, i); }
      }
    }
  }

  lemma PutUnique(s: seq<Entry>, invalid: Key, j: nat, e: Entry)
    requires UniqueKeys(s, invalid) && j < |s| && !Used(s, invalid, j)
    requires e.key != invalid && e.key !in Contents(s, invalid)
    ensures UniqueKeys(s[j := e], invalid)
    ensures forall i: nat :: Used(s[j := e], invalid, i) <==> Used(s, invalid, i) || i == j
  {
    hide Contents;
    forall i: nat | Used(s, invalid, i) ensures s[i].key != e.key {
      ContentsAt(s, invalid, i);
    }
  }

  /** Emptying a slot removes its binding. */
  lemma Take(s: seq<Entry>, invalid: Key, j: nat, e: Entry)
    requires UniqueKeys(s, invalid) && Used(s, invalid, j) && e.key == invalid
    ensures UniqueKeys(s[j := e], invalid)
    ensures Contents(s[j := e], invalid) == Contents(s, invalid) - {s[j].key}
    ensures UsedSlots(s[j := e], invalid) == UsedSlots(s, invalid) - {j}
    ensures |UsedSlots(s[j := e], invalid)| == |UsedSlots(s, invalid)| - 1
  {
    var t := s[j := e];
    TakeUnique(s, invalid, j, e);
    assert UsedSlots(t, invalid) == UsedSlots(s, invalid) - {j};
    ContentsAt(s, invalid, j);
    hide Contents, UniqueKeys;
    forall k ensures k in Contents(t, invalid) <==> k in Contents(s, invalid) && k != s[j].key
      ensures k in Contents(t, invalid) ==> Contents(t, invalid)[k] == Contents(s, invalid)[k]
    {
      if k in Contents(t, invalid) {
        var i := SlotFor(t, invalid, k);
        ContentsAt(s, invalid, i);
      } else if k in Contents(s, invalid) {
        var i := SlotFor(s, invalid, k);
        if i != j { ContentsAt(t, invalid, i); }
      }
    }
  }

  lemma TakeUnique(s: seq<Entry>, invalid: Key, j: nat, e: Entry)
    requires UniqueKeys(s, invalid) && Used(s, invalid, j) && e.key == invalid
    ensures UniqueKeys(s[j := e], invalid)
    ensures forall i: nat :: Used(s[j := e], invalid, i) <==> Used(s, invalid, i) && i != j
    ensures forall i: nat :: Used(s, invalid, i) && i != j ==> s[i].key != s[j].key
  {}

  // ----- probing

  function Next(n: nat, i: nat): (k: nat)
    requires i < n
    ensures k < n
  {
    if i + 1 == n then 0 else i + 1
  }

  function Distance(n: nat, from: nat, to: nat): (distance: nat)
    requires from < n && to < n
  {
    if from <= to then to - from else to - from + n
  }

  lemma PathStep(n: nat, from: nat, i: nat)
    requires from < n && i < n
    ensures Next(n, i) != from ==> forall j: nat :: OnPath(n, from, Next(n, i), j) <==> OnPath(n, from, i, j) || j == i
    ensures Next(n, i) == from ==> forall j: nat :: j < n ==> OnPath(n, from, i, j) || j == i
  {}

  /** All slots from `from` to before `i` are taken by other keys. */
  ghost predicate Passed(s: seq<Entry>, invalid: Key, from: nat, i: nat, key: Key) {
    forall j: nat :: OnPath(|s|, from, i, j) ==> Used(s, invalid, j) && s[j].key != key
  }

  /** Reaching an empty slot shows that the key is nowhere. */
  lemma Absent(hash: Hash, s: seq<Entry>, invalid: Key, key: Key, i: nat)
    requires Consistent(hash, s, invalid) && key != invalid && i < |s| && !Used(s, invalid, i)
    requires Passed(s, invalid, Ideal(hash, key, |s|), i, key)
    ensures key !in Contents(s, invalid)
  {
    if key in Keys(s, invalid) {
      NotHere(hash, s, invalid, key, i, SlotOf(s, invalid, key));
    }
  }

  lemma NotHere(hash: Hash, s: seq<Entry>, invalid: Key, key: Key, i: nat, k: nat)
    requires Consistent(hash, s, invalid) && i < |s| && !Used(s, invalid, i) && Used(s, invalid, k)
    requires Passed(s, invalid, Ideal(hash, key, |s|), i, key)
    ensures s[k].key != key
  {
    var from := Ideal(hash, key, |s|);
    assert Reachable(hash, s, invalid, k);
    assert !OnPath(|s|, Ideal(hash, s[k].key, |s|), k, i);
    assert OnPath(|s|, from, i, k) ==> s[k].key != key;
  }

  lemma PassOne(s: seq<Entry>, invalid: Key, from: nat, i: nat, key: Key, empty: nat)
    requires from < |s| && i < |s| && empty < |s| && !Used(s, invalid, empty)
    requires Passed(s, invalid, from, i, key) && Used(s, invalid, i) && s[i].key != key
    ensures Passed(s, invalid, from, Next(|s|, i), key)
    ensures Distance(|s|, Next(|s|, i), empty) < Distance(|s|, i, empty)
  {
    PathStep(|s|, from, i);
  }

  /** Putting an entry into the first empty slot from its ideal one keeps everything reachable. */
  lemma PutConsistent(hash: Hash, s: seq<Entry>, invalid: Key, j: nat, e: Entry)
    requires Consistent(hash, s, invalid) && j < |s| && !Used(s, invalid, j)
    requires e.key != invalid && Passed(s, invalid, Ideal(hash, e.key, |s|), j, e.key)
    ensures e.key !in Contents(s, invalid) && Consistent(hash, s[j := e], invalid)
  {
    Absent(hash, s, invalid, e.key, j);
    Put(s, invalid, j, e);
    var t := s[j := e];
    assert forall i: nat :: Used(s, invalid, i) ==> Used(t, invalid, i);
    forall i: nat | Used(t, invalid, i) ensures Reachable(hash, t, invalid, i) {
      if i != j { assert Used(s, invalid, i) && Reachable(hash, s, invalid, i); }
    }
  }

  // ----- the table

  class ProbingHashTable {
    var slots: array<Entry>
    const invalid: Key
    const hash: Hash
    var entries: nat

    ghost predicate Valid()
      reads this, slots
    {
      && slots.Length > 0
      && Consistent(hash, slots[..], invalid)
      && entries == |UsedSlots(slots[..], invalid)| < slots.Length
    }

    ghost function Map(): (contents: map<Key, Value>)
      reads this, slots
    {
      Contents(slots[..], invalid)
    }

    /** A table in memory that is full of invalid keys. */
    constructor (start: array<Entry>, invalid: Key, hash: Hash)
      requires start.Length > 0 && forall i :: 0 <= i < start.Length ==> start[i].key == invalid
      ensures Valid() && slots == start && this.invalid == invalid && this.hash == hash && Map() == map[] &&
        entries == 0
    {
      this.slots, this.invalid, this.hash, this.entries := start, invalid, hash, 0;
      new;
      assert forall i: nat :: !Used(slots[..], invalid, i);
      assert UsedSlots(slots[..], invalid) == {};
    }

    /** Probe from the ideal slot to the key or to an empty slot. */
    method Probe(key: Key) returns (at: nat)
      requires slots.Length > 0 && key != invalid
      requires exists empty: nat :: empty < slots.Length && !Used(slots[..], invalid, empty)
      ensures at < slots.Length
      ensures Passed(slots[..], invalid, Ideal(hash, key, slots.Length), at, key)
      ensures !Used(slots[..], invalid, at) || slots[at].key == key
    {
      ghost var empty: nat :| empty < slots.Length && !Used(slots[..], invalid, empty);
      ghost var from := Ideal(hash, key, slots.Length);
      at := hash(key) % slots.Length;
      while slots[at].key != key && slots[at].key != invalid
        invariant at < slots.Length && Passed(slots[..], invalid, from, at, key)
        decreases Distance(slots.Length, at, empty)
      {
        PassOne(slots[..], invalid, from, at, key, empty);
        at := at + 1;
        if at == slots.Length { at := 0; }
      }
    }

    /** Lookup agrees with the map. */
    method Find(key: Key) returns (found: bool, at: nat)
      requires Valid() && key != invalid
      ensures found <==> key in Map()
      ensures found ==> at < slots.Length && slots[at].key == key && slots[at].value == Map()[key]
    {
      EmptySlot(slots[..], invalid);
      at := Probe(key);
      found := slots[at].key == key;
      if found {
        ContentsAt(slots[..], invalid, at);
      } else {
        Absent(hash, slots[..], invalid, key, at);
      }
    }

    /** Fill the empty slot that probing for the entry's key has reached. */
    method Place(e: Entry, at: nat)
      requires Consistent(hash, slots[..], invalid) && at < slots.Length && slots[at].key == invalid != e.key
      requires Passed(slots[..], invalid, Ideal(hash, e.key, slots.Length), at, e.key)
      modifies slots
      ensures slots[..] == old(slots[..])[at := e]
      ensures Consistent(hash, slots[..], invalid) && Map() == old(Map())[e.key := e.value] && e.key !in old(Map())
      ensures |UsedSlots(slots[..], invalid)| == old(|UsedSlots(slots[..], invalid)|) + 1
    {
      hide Consistent, Passed, Contents, UsedSlots;
      PutConsistent(hash, slots[..], invalid, at, e);
      ConsistentUnique(hash, slots[..], invalid);
      Put(slots[..], invalid, at, e);
      slots[at] := e;
      assert slots[..] == old(slots[..])[at := e];
    }

    /** Insert a key that is not in the table into the first empty slot from its ideal one;
        there must be an empty slot. */
    method UncheckedInsert(e: Entry) returns (at: nat)
      requires slots.Length > 0 && UniqueKeys(slots[..], invalid)
      requires exists empty: nat :: empty < slots.Length && !Used(slots[..], invalid, empty)
      requires e.key != invalid && e.key !in Map()
      modifies slots
      ensures at < slots.Length && slots[..] == old(slots[..])[at := e]
      ensures !Used(old(slots[..]), invalid, at)
      ensures Passed(old(slots[..]), invalid, Ideal(hash, e.key, slots.Length), at, e.key)
      ensures UniqueKeys(slots[..], invalid) && Map() == old(Map())[e.key := e.value]
      ensures |UsedSlots(slots[..], invalid)| == old(|UsedSlots(slots[..], invalid)|) + 1
      ensures old(Consistent(hash, slots[..], invalid)) ==> Consistent(hash, slots[..], invalid)
    {
      hide Consistent, Contents, UsedSlots, UniqueKeys;
      ghost var empty: nat :| empty < slots.Length && !Used(slots[..], invalid, empty);
      ghost var from := Ideal(hash, e.key, slots.Length);
      at := hash(e.key) % slots.Length;
      while slots[at].key != invalid
        invariant slots[..] == old(slots[..])
        invariant at < slots.Length && Passed(slots[..], invalid, from, at, e.key)
        decreases Distance(slots.Length, at, empty)
      {
        ContentsAt(slots[..], invalid, at);
        PassOne(slots[..], invalid, from, at, e.key, empty);
        at := at + 1;
        if at == slots.Length { at := 0; }
      }
      if Consistent(hash, slots[..], invalid) { PutConsistent(hash, slots[..], invalid, at, e); }
      Put(slots[..], invalid, at, e);
      slots[at] := e;
      assert slots[..] == old(slots[..])[at := e];
    }

    /** Insert, failing if that would leave no slot empty. */
    method Insert(e: Entry) returns (full: bool, at: nat)
      requires Valid() && e.key != invalid && e.key !in Map()
      modifies this`entries, slots
      ensures full <==> old(entries) + 1 >= slots.Length
      ensures full ==> slots[..] == old(slots[..])
      ensures !full ==> Valid() && Map() == old(Map())[e.key := e.value] && at < slots.Length && slots[at] == e
    {
      EmptySlot(slots[..], invalid);
      entries := entries + 1;
      full, at := entries >= slots.Length, 0;
      if !full {
        at := UncheckedInsert(e);
      }
    }

    /** Return what is there, or insert, failing if that would leave no slot empty. */
    method FindOrInsert(e: Entry) returns (found: bool, full: bool, at: nat)
      requires Valid() && e.key != invalid
      modifies this`entries, slots
      ensures found <==> e.key in old(Map())
      ensures found ==> !full && Valid() && Map() == old(Map()) && entries == old(entries)
      ensures found ==> at < slots.Length && slots[at] == Entry(e.key, Map()[e.key])
      ensures !found ==> (full <==> old(entries) + 1 >= slots.Length)
      ensures full ==> slots[..] == old(slots[..])
      ensures !found && !full ==> Valid() && Map() == old(Map())[e.key := e.value] && entries == old(entries) + 1
      ensures !found && !full ==> at < slots.Length && slots[at] == e
    {
      hide Consistent, Passed, Contents, UsedSlots;
      EmptySlot(slots[..], invalid);
      at := Probe(e.key);
      found, full := slots[at].key == e.key, false;
      ConsistentUnique(hash, slots[..], invalid);
      if found {
        ContentsAt(slots[..], invalid, at);
      } else {
        Absent(hash, slots[..], invalid, e.key, at);
        entries := entries + 1;
        full := entries >= slots.Length;
        if !full {
          Place(e, at);
        }
      }
    }

    /** The memory has been doubled: `newBase` starts with the old slots.  Everything is put
        where its new ideal slot lets it be found, in place. */
    method Double(newBase: array<Entry>)
      requires slots.Length > 0 && Consistent(hash, slots[..], invalid) && entries == |UsedSlots(slots[..], invalid)|
      requires newBase.Length == 2 * slots.Length && newBase[..slots.Length] == slots[..]
      modifies this, newBase
      ensures slots == newBase && Valid() && Map() == old(Map()) && entries == old(entries)
    {
      ghost var before, all := slots[..], Map();
      var n := slots.Length;
      slots := newBase;
      ClearUpper(n);
      DoubledStart(hash, before, slots[..], invalid);
      EmptySlot(before, invalid);
      hide Consistent, Contents, UsedSlots, UniqueKeys, Rehashed, Pending, Together, Passed;
      var rolledOver := LiftFirstRun(n, before, all);
      Rehash(n, rolledOver, all);
      Return(rolledOver, all);
    }

    /** Give the new memory invalid keys. */
    method ClearUpper(n: nat)
      requires slots.Length == 2 * n
      modifies slots
      ensures slots[..n] == old(slots[..n]) && forall k :: n <= k < 2 * n ==> slots[k].key == invalid
    {
      var j := n;
      while j < 2 * n
        invariant n <= j <= 2 * n && slots[..n] == old(slots[..n])
        invariant forall k :: n <= k < j ==> slots[k].key == invalid
      {
        slots[j] := Entry(invalid, 0);
        j := j + 1;
      }
    }

    /** Move the entries before the first gap, which may have wrapped around, to a buffer. */
    method LiftFirstRun(n: nat, ghost before: seq<Entry>, ghost all: map<Key, Value>) returns (rolledOver: seq<Entry>)
      requires 0 < n && slots.Length == 2 * n && before == slots[..n] && Consistent(hash, before, invalid)
      requires forall k :: n <= k < 2 * n ==> slots[k].key == invalid
      requires Together(slots[..], [], invalid, all)
      modifies slots
      ensures Rehashed(hash, slots[..], invalid, n, 0) && Pending(hash, slots[..], invalid, n, 0)
      ensures Together(slots[..], rolledOver, invalid, all)
      ensures |UsedSlots(slots[..], invalid)| + |rolledOver| == old(|UsedSlots(slots[..], invalid)|)
    {
      hide Consistent, Contents, UsedSlots, UniqueKeys, Rehashed, Pending, Together, Passed;
      rolledOver := [];
      var i := 0;
      while i != n && slots[i].key != invalid
        invariant 0 <= i <= n && slots[i..n] == before[i..]
        invariant forall k: nat :: (k < i || n <= k < 2 * n) ==> slots[k].key == invalid
        invariant Together(slots[..], rolledOver, invalid, all)
        invariant |UsedSlots(slots[..], invalid)| + |rolledOver| == old(|UsedSlots(slots[..], invalid)|)
        decreases n - i
      {
        TakeOut(slots[..], rolledOver, invalid, all, i, Entry(invalid, slots[i].value));
        rolledOver := rolledOver + [slots[i]];
        ghost var s := slots[..];
        assert slots[i+1..n] == before[i+1..];
        slots[i] := Entry(invalid, slots[i].value);
        assert slots[..] == s[i := slots[i]];
        i := i + 1;
      }
      AllPending(hash, before, slots[..], invalid, i);
    }

    /** Re-insert the entries of the lower half from their new ideal slots. */
    method Rehash(n: nat, ghost rolledOver: seq<Entry>, ghost all: map<Key, Value>)
      requires Rehashed(hash, slots[..], invalid, n, 0) && Pending(hash, slots[..], invalid, n, 0)
      requires Together(slots[..], rolledOver, invalid, all)
      modifies slots
      ensures Consistent(hash, slots[..], invalid) && Together(slots[..], rolledOver, invalid, all)
      ensures |UsedSlots(slots[..], invalid)| == old(|UsedSlots(slots[..], invalid)|)
    {
      var i := 0;
      assert slots.Length == 2 * n;
      hide Consistent, Contents, UsedSlots, UniqueKeys, Rehashed, Pending, Together, Passed;
      while i < n
        invariant 0 <= i <= n
        invariant Rehashed(hash, slots[..], invalid, n, i) && Pending(hash, slots[..], invalid, n, i)
        invariant Together(slots[..], rolledOver, invalid, all)
        invariant |UsedSlots(slots[..], invalid)| == old(|UsedSlots(slots[..], invalid)|)
      {
        if slots[i].key != invalid {
          MoveOne(n, i, rolledOver, all);
        } else {
          SkipStep(hash, slots[..], invalid, n, i);
        }
        i := i + 1;
      }
      TogetherUnique(slots[..], rolledOver, invalid, all);
      RehashedConsistent(hash, slots[..], invalid, n);
    }

    method MoveOne(n: nat, i: nat, ghost rolledOver: seq<Entry>, ghost all: map<Key, Value>)
      requires i < n && slots.Length == 2 * n && slots[i].key != invalid
      requires Rehashed(hash, slots[..], invalid, n, i) && Pending(hash, slots[..], invalid, n, i)
      requires Together(slots[..], rolledOver, invalid, all)
      modifies slots
      ensures Rehashed(hash, slots[..], invalid, n, i + 1) && Pending(hash, slots[..], invalid, n, i + 1)
      ensures Together(slots[..], rolledOver, invalid, all)
      ensures |UsedSlots(slots[..], invalid)| == old(|UsedSlots(slots[..], invalid)|)
    {
      hide Consistent, Contents, UsedSlots, UniqueKeys, Rehashed, Pending, Together, Passed;
      ghost var s := slots[..];
      var temp := slots[i];
      var hole := Entry(invalid, temp.value);
      slots[i] := hole;
      ghost var s1 := slots[..];
      assert s1 == s[i := hole] && !Used(s1, invalid, i);
      Removed(s, rolledOver, invalid, all, i, hole);
      var at := UncheckedInsert(temp);
      Readded(s1, rolledOver, invalid, all, at, temp);
      MoveStep(hash, s, invalid, n, i, hole, at);
    }

    /** The lifted entries go back by ordinary insertion. */
    method Return(rolledOver: seq<Entry>, ghost all: map<Key, Value>)
      requires Consistent(hash, slots[..], invalid) && Together(slots[..], rolledOver, invalid, all)
      requires |UsedSlots(slots[..], invalid)| + |rolledOver| == entries < slots.Length
      modifies slots
      ensures Valid() && Map() == all
    {
      hide Consistent, Contents, UsedSlots, UniqueKeys, Together, Passed;
      var k := 0;
      while k < |rolledOver|
        invariant 0 <= k <= |rolledOver|
        invariant Consistent(hash, slots[..], invalid) && Together(slots[..], rolledOver[k..], invalid, all)
        invariant |UsedSlots(slots[..], invalid)| + |rolledOver| - k == entries
      {
        EmptySlot(slots[..], invalid);
        ReturnFirst(slots[..], rolledOver[k..], invalid, all);
        ghost var s := slots[..];
        var at := UncheckedInsert(rolledOver[k]);
        PutBack(s, rolledOver[k..], invalid, all, at);
        assert rolledOver[k..][1..] == rolledOver[k+1..];
        k := k + 1;
      }
      TogetherNone(slots[..], invalid, all);
    }
  }

  /** A table that owns its memory and doubles it before it gets too full. */
  class AutoProbing {
    const backend: ProbingHashTable
    var threshold: nat
    /** The number of buckets at the start. */
    ghost const initial: nat

    /** The threshold stays below the number of buckets. */
    ghost predicate Valid()
      reads this, backend, backend.slots
    {
      backend.Valid() && threshold < backend.slots.Length && (threshold > 0 ==> Proportionate())
    }

    /** At least half of the buckets may be used before the table grows, no more are used than that, and a table that
        has grown has used at least half of what it may. */
    ghost predicate Proportionate()
      reads this, backend
    {
      && backend.slots.Length <= 2 * threshold && backend.entries <= threshold
      && (backend.slots.Length == initial || threshold <= 2 * backend.entries)
    }

    /** There is room for what was asked for.  Only a table made for nothing has no threshold. */
    constructor (initialSize: nat, invalid: Key, hash: Hash)
      ensures Valid() && backend.Map() == map[] && backend.entries == 0 && backend.invalid == invalid
      ensures fresh(backend) && fresh(backend.slots)
      ensures backend.slots.Length == initial && initial > initialSize && initial >= initialSize * 3 / 2
      ensures initial == initialSize + 1 || initial == initialSize * 3 / 2
      ensures initialSize <= threshold && 5 * threshold <= 6 * initialSize < 5 * threshold + 5
    {
      var buckets := if initialSize + 1 > initialSize * 3 / 2 then initialSize + 1 else initialSize * 3 / 2;
      var memory := new Entry[buckets](_ => Entry(invalid, 0));
      backend := new ProbingHashTable(memory, invalid, hash);
      threshold, initial := initialSize * 6 / 5, buckets;
    }

    /** Afterwards there is room for another entry, whatever the initial size was. */
    method DoubleIfNeeded()
      requires Valid()
      modifies this`threshold, backend, backend.slots
      ensures Valid() && backend.Map() == old(backend.Map()) && backend.entries == old(backend.entries)
      ensures backend.entries + 1 < backend.slots.Length
      ensures if backend.entries < old(threshold)
              then backend.slots == old(backend.slots) && threshold == old(threshold)
              else fresh(backend.slots) && backend.slots.Length == 2 * old(backend.slots.Length) &&
                   threshold == 2 * old(threshold)
    {
      if backend.entries < threshold { return; }
      var n, before := backend.slots.Length, backend.slots[..];
      var memory := new Entry[2 * n](i requires 0 <= i < 2 * n => if i < n then before[i] else Entry(0, 0));
      assert memory[..n] == before;
      backend.Double(memory);
      threshold := threshold * 2;
    }

    /** Never fails for lack of an empty slot.  A table that has grown has at most four slots for each entry, unless it
        was made for nothing: then every call doubles it. */
    method FindOrInsert(e: Entry) returns (found: bool, at: nat)
      requires Valid() && e.key != backend.invalid
      modifies this`threshold, backend, backend.slots
      ensures threshold > 0 <==> old(threshold) > 0
      ensures threshold > 0 && backend.slots.Length != initial ==> backend.slots.Length <= 4 * backend.entries
      ensures old(threshold) == 0 ==> backend.slots.Length == 2 * old(backend.slots.Length)
      ensures Valid() && (found <==> e.key in old(backend.Map()))
      ensures backend.Map() == if found then old(backend.Map()) else old(backend.Map())[e.key := e.value]
      ensures backend.entries == old(backend.entries) + if found then 0 else 1
      ensures at < backend.slots.Length && backend.slots[at] == Entry(e.key, backend.Map()[e.key])
      ensures backend.slots == old(backend.slots) || fresh(backend.slots)
    {
      DoubleIfNeeded();
      var full;
      found, full, at := backend.FindOrInsert(e);
    }
  }

  // ----- doubling

  /** The bindings of a list of entries. */
  ghost function ToMap(r: seq<Entry>): (contents: map<Key, Value>) {
    if r == [] then map[] else ToMap(r[1..])[r[0].key := r[0].value]
  }

  ghost predicate DistinctKeys(r: seq<Entry>) {
    forall i, j :: 0 <= i < j < |r| ==> r[i].key != r[j].key
  }

  lemma {:induction false} ToMapKeys(r: seq<Entry>)
    ensures forall k :: k in ToMap(r) <==> exists i :: 0 <= i < |r| && r[i].key == k
  {
    if r != [] {
      ToMapKeys(r[1..]);
      forall k ensures k in ToMap(r) <==> exists i :: 0 <= i < |r| && r[i].key == k {
        if i :| 0 <= i < |r| && r[i].key == k {
          if i > 0 { assert r[1..][i-1].key == k; }
        }
        if k in ToMap(r[1..]) {
          var i :| 0 <= i < |r[1..]| && r[1..][i].key == k;
          assert r[i+1].key == k;
        }
      }
    }
  }

  lemma {:induction false} ToMapSnoc(r: seq<Entry>, e: Entry)
    requires e.key !in ToMap(r)
    ensures ToMap(r + [e]) == ToMap(r)[e.key := e.value]
  {
    if r == [] {
      assert r + [e] == [e];
    } else {
      assert (r + [e])[1..] == r[1..] + [e] && (r + [e])[0] == r[0];
      ToMapSnoc(r[1..], e);
    }
  }

  /** Together `s` and the entries `r`, which are not in it, hold the bindings `all`. */
  ghost predicate Together(s: seq<Entry>, r: seq<Entry>, invalid: Key, all: map<Key, Value>) {
    && UniqueKeys(s, invalid) && DistinctKeys(r)
    && (forall i :: 0 <= i < |r| ==> r[i].key != invalid)
    && Contents(s, invalid).Keys !! ToMap(r).Keys
    && all == Contents(s, invalid) + ToMap(r)
  }

  lemma TakeOut(s: seq<Entry>, r: seq<Entry>, invalid: Key, all: map<Key, Value>, i: nat, hole: Entry)
    requires Together(s, r, invalid, all) && Used(s, invalid, i) && hole.key == invalid
    ensures Together(s[i := hole], r + [s[i]], invalid, all)
    ensures |UsedSlots(s[i := hole], invalid)| == |UsedSlots(s, invalid)| - 1
  {
    hide UsedSlots, Contents, UniqueKeys;
    ContentsAt(s, invalid, i);
    Take(s, invalid, i, hole);
    ToMapKeys(r);
    ToMapSnoc(r, s[i]);
  }

  lemma PutBack(s: seq<Entry>, r: seq<Entry>, invalid: Key, all: map<Key, Value>, at: nat)
    requires Together(s, r, invalid, all) && r != [] && at < |s| && !Used(s, invalid, at)
    ensures r[0].key !in Contents(s, invalid)
    ensures Together(s[at := r[0]], r[1..], invalid, all)
  {
    hide UsedSlots, Contents, UniqueKeys;
    FirstOut(r);
    Put(s, invalid, at, r[0]);
    hide ToMap, DistinctKeys;
    assert forall i :: 0 <= i < |r[1..]| ==> r[1..][i] == r[i+1];
  }

  lemma FirstOut(r: seq<Entry>)
    requires DistinctKeys(r) && r != []
    ensures DistinctKeys(r[1..]) && r[0].key !in ToMap(r[1..]) && r[0].key in ToMap(r)
    ensures ToMap(r) == ToMap(r[1..])[r[0].key := r[0].value]
  {
    ToMapKeys(r[1..]);
    assert forall i :: 0 <= i < |r[1..]| ==> r[1..][i] == r[i+1] && r[i+1].key != r[0].key;
  }

  lemma TogetherUnique(s: seq<Entry>, r: seq<Entry>, invalid: Key, all: map<Key, Value>)
    requires Together(s, r, invalid, all)
    ensures UniqueKeys(s, invalid)
  {}

  lemma TogetherNone(s: seq<Entry>, invalid: Key, all: map<Key, Value>)
    requires Together(s, [], invalid, all)
    ensures Contents(s, invalid) == all
  {}

  lemma ReturnFirst(s: seq<Entry>, r: seq<Entry>, invalid: Key, all: map<Key, Value>)
    requires Together(s, r, invalid, all) && r != []
    ensures UniqueKeys(s, invalid) && r[0].key != invalid && r[0].key !in Contents(s, invalid)
  {
    ToMapKeys(r);
    assert r[0].key in ToMap(r);
  }

  /** Between taking an entry out and inserting it again. */
  lemma Removed(s: seq<Entry>, r: seq<Entry>, invalid: Key, all: map<Key, Value>, i: nat, hole: Entry)
    requires Together(s, r, invalid, all) && Used(s, invalid, i) && hole.key == invalid
    ensures UniqueKeys(s[i := hole], invalid) && s[i].key !in Contents(s[i := hole], invalid)
    ensures Together(s[i := hole], r, invalid, all - {s[i].key}) && s[i].key in all && all[s[i].key] == s[i].value
    ensures |UsedSlots(s[i := hole], invalid)| == |UsedSlots(s, invalid)| - 1
  {
    hide UsedSlots, Contents, UniqueKeys;
    ContentsAt(s, invalid, i);
    Take(s, invalid, i, hole);
  }

  lemma Readded(s: seq<Entry>, r: seq<Entry>, invalid: Key, all: map<Key, Value>, at: nat, e: Entry)
    requires e.key in all && all[e.key] == e.value && Together(s, r, invalid, all - {e.key})
    requires at < |s| && !Used(s, invalid, at) && e.key != invalid && e.key !in Contents(s, invalid)
    ensures Together(s[at := e], r, invalid, all)
  {
    hide UsedSlots, Contents, UniqueKeys;
    assert e.key !in all - {e.key};
    Put(s, invalid, at, e);
    assert Contents(s, invalid)[e.key := e.value] + ToMap(r) == (all - {e.key})[e.key := e.value] == all;
  }

  lemma DoubledStart(hash: Hash, before: seq<Entry>, s: seq<Entry>, invalid: Key)
    requires Consistent(hash, before, invalid) && |s| == 2 * |before| && s[..|before|] == before
    requires forall k :: |before| <= k < |s| ==> s[k].key == invalid
    ensures Together(s, [], invalid, Contents(before, invalid))
    ensures UsedSlots(s, invalid) == UsedSlots(before, invalid)
  {
    var n := |before|;
    assert forall i: nat :: i < n ==> s[..n][i] == before[i];
    forall i: nat ensures Used(s, invalid, i) <==> Used(before, invalid, i)
      ensures Used(s, invalid, i) ==> s[i] == before[i]
    {
      assert i < n ==> s[..n][i] == before[i];
    }
    ContentsSame(before, s, invalid);
  }

  lemma ContentsSame(s: seq<Entry>, t: seq<Entry>, invalid: Key)
    requires UniqueKeys(s, invalid) && forall i: nat :: Used(t, invalid, i) <==> Used(s, invalid, i)
    requires forall i: nat :: Used(t, invalid, i) ==> t[i] == s[i]
    ensures UniqueKeys(t, invalid) && Contents(t, invalid) == Contents(s, invalid)
    ensures UsedSlots(t, invalid) == UsedSlots(s, invalid)
  {
    hide Contents;
    forall k ensures k in Contents(t, invalid) <==> k in Contents(s, invalid)
      ensures k in Contents(t, invalid) ==> Contents(t, invalid)[k] == Contents(s, invalid)[k]
    {
      if k in Contents(s, invalid) {
        var i := SlotFor(s, invalid, k);
        ContentsAt(s, invalid, i);
        ContentsAt(t, invalid, i);
      } else if k in Contents(t, invalid) {
        var i := SlotFor(t, invalid, k);
        ContentsAt(s, invalid, i);
      }
    }
  }

  /** Once the first run has been lifted out, no remaining entry has wrapped around. */
  lemma AllPending(hash: Hash, before: seq<Entry>, s: seq<Entry>, invalid: Key, g: nat)
    requires Consistent(hash, before, invalid) && |before| > 0 && |s| == 2 * |before| && g <= |before|
    requires s[g..|before|] == before[g..] && (g < |before| ==> before[g].key == invalid)
    requires forall k: nat :: (k < g || |before| <= k < |s|) ==> s[k].key == invalid
    ensures Rehashed(hash, s, invalid, |before|, 0) && Pending(hash, s, invalid, |before|, 0)
  {
    var n := |before|;
    forall p: nat | Used(s, invalid, p) && p < n
      ensures Ideal(hash, s[p].key, |s|) <= p || n <= Ideal(hash, s[p].key, |s|)
    {
      assert g <= p && s[p] == s[g..n][p-g] && before[p] == before[g..][p-g];
      assert Used(before, invalid, p) && Reachable(hash, before, invalid, p);
      assert !OnPath(n, Ideal(hash, before[p].key, n), p, g);
      IdealDoubles(hash, before[p].key, n);
    }
  }

  /** The entries outside `[i, n)` can be reached, in a table of `2 * n` slots, without passing
      through `[i, n)`. */
  ghost predicate Rehashed(hash: Hash, s: seq<Entry>, invalid: Key, n: nat, i: nat) {
    |s| == 2 * n && n > 0 &&
    forall j: nat :: Used(s, invalid, j) && (j < i || n <= j) ==> RehashedAt(hash, s, invalid, n, i, j)
  }

  ghost predicate RehashedAt(hash: Hash, s: seq<Entry>, invalid: Key, n: nat, i: nat, j: nat)
    requires Used(s, invalid, j)
  {
    var d := Ideal(hash, s[j].key, |s|);
    && (d < i || n <= d)
    && forall p: nat :: OnPath(|s|, d, j, p) ==> Used(s, invalid, p) && (p < i || n <= p)
  }

  /** The entries in `[i, n)` either move to the upper half or have been passed already. */
  ghost predicate Pending(hash: Hash, s: seq<Entry>, invalid: Key, n: nat, i: nat) {
    |s| == 2 * n && n > 0 &&
    forall p: nat :: Used(s, invalid, p) && i <= p < n ==>
      Ideal(hash, s[p].key, |s|) <= p || n <= Ideal(hash, s[p].key, |s|)
  }

  /** Since slot `i` has just been emptied, its entry lands at `i` or before, or in the upper half. */
  lemma LandsSafely(hash: Hash, s: seq<Entry>, invalid: Key, n: nat, i: nat, d: nat, at: nat, key: Key)
    requires |s| == 2 * n && i < n && d < |s| && at < |s| && (d <= i || n <= d)
    requires !Used(s, invalid, i) && Passed(s, invalid, d, at, key)
    ensures at <= i || n <= at
    ensures forall p: nat :: OnPath(|s|, d, at, p) ==> Used(s, invalid, p) && (p < i || n <= p)
  {
    assert !OnPath(|s|, d, at, i);
  }

  lemma MoveStep(hash: Hash, s: seq<Entry>, invalid: Key, n: nat, i: nat, hole: Entry, at: nat)
    requires Rehashed(hash, s, invalid, n, i) && Pending(hash, s, invalid, n, i)
    requires i < n && Used(s, invalid, i) && hole.key == invalid && at < |s|
    requires !Used(s[i := hole], invalid, at)
    requires Passed(s[i := hole], invalid, Ideal(hash, s[i].key, |s|), at, s[i].key)
    ensures Rehashed(hash, s[i := hole][at := s[i]], invalid, n, i + 1)
    ensures Pending(hash, s[i := hole][at := s[i]], invalid, n, i + 1)
  {
    var s1 := s[i := hole];
    var s2 := s1[at := s[i]];
    LandsSafely(hash, s1, invalid, n, i, Ideal(hash, s[i].key, |s|), at, s[i].key);
    assert forall p: nat :: Used(s1, invalid, p) ==> Used(s2, invalid, p) && s2[p] == s1[p];
    assert forall p: nat :: Used(s, invalid, p) && p != i ==> Used(s2, invalid, p) && s2[p] == s[p];
    forall j: nat | Used(s2, invalid, j) && (j < i + 1 || n <= j) ensures RehashedAt(hash, s2, invalid, n, i + 1, j) {
      if j != at {
        assert Used(s, invalid, j) && j != i;
        assert RehashedAt(hash, s, invalid, n, i, j);
      }
    }
    forall p: nat | Used(s2, invalid, p) && i + 1 <= p < n
      ensures Ideal(hash, s2[p].key, |s2|) <= p || n <= Ideal(hash, s2[p].key, |s2|)
    {
      assert p != at && Used(s, invalid, p);
    }
  }

  lemma SkipStep(hash: Hash, s: seq<Entry>, invalid: Key, n: nat, i: nat)
    requires Rehashed(hash, s, invalid, n, i) && Pending(hash, s, invalid, n, i) && i < n && !Used(s, invalid, i)
    ensures Rehashed(hash, s, invalid, n, i + 1) && Pending(hash, s, invalid, n, i + 1)
  {
    forall j: nat | Used(s, invalid, j) && (j < i + 1 || n <= j) ensures RehashedAt(hash, s, invalid, n, i + 1, j) {
      assert RehashedAt(hash, s, invalid, n, i, j);
    }
  }

  lemma RehashedConsistent(hash: Hash, s: seq<Entry>, invalid: Key, n: nat)
    requires Rehashed(hash, s, invalid, n, n) && UniqueKeys(s, invalid)
    ensures Consistent(hash, s, invalid)
  {
    forall i: nat | Used(s, invalid, i) ensures Reachable(hash, s, invalid, i) {
      assert RehashedAt(hash, s, invalid, n, n, i);
    }
  }

  lemma IdealDoubles(hash: Hash, key: Key, n: nat)
    requires n > 0
    ensures Ideal(hash, key, 2 * n) == Ideal(hash, key, n) || Ideal(hash, key, 2 * n) == Ideal(hash, key, n) + n
  {
    ModDoubles(hash(key), n);
  }

  lemma ConsistentUnique(hash: Hash, s: seq<Entry>, invalid: Key)
    requires Consistent(hash, s, invalid)
    ensures UniqueKeys(s, invalid)
  {}
}
