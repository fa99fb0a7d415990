/**
 The bounded beam: slot storage with one spare slot, duplicate detection by group, merging by best score,
 and a dropper that yields the worst hypothesis.
 */
module NBest {
  import opened FiniteSets

  /** Values of the same group are duplicates; they may score differently. */
  datatype Value = Value(group: nat, score: real, payload: int)

  predicate Less(left: Value, right: Value) {
    left.score < right.score
  }

  // ----- what a beam should hold

  ghost predicate DistinctGroups(kept: set<Value>) {
    forall v, w :: v in kept && w in kept && v.group == w.group ==> v == w
  }

  ghost predicate HasGroup(kept: set<Value>, group: nat) {
    exists v :: v in kept && v.group == group
  }

  /** Of the values seen, one with the best score of each group kept; a group is left out only when `k`
      groups are kept, none of which scores below it. */
  ghost predicate BestGroups(kept: set<Value>, seen: set<Value>, k: nat) {
    && kept <= seen && |kept| <= k && DistinctGroups(kept)
    && (forall v, s :: v in kept && s in seen && s.group == v.group ==> s.score <= v.score)
    && (forall v, s :: v in kept && s in seen && !HasGroup(kept, s.group) ==> s.score <= v.score)
    && (forall s :: s in seen && !HasGroup(kept, s.group) ==> |kept| == k)
  }

  /** What inserting `v` may do to a beam. */
  ghost predicate Inserted(kept: set<Value>, v: Value, kept': set<Value>, k: nat) {
    if HasGroup(kept, v.group) then
      forall d :: d in kept && d.group == v.group ==> kept' == if Less(d, v) then kept - {d} + {v} else kept
    else if |kept| < k then
      kept' == kept + {v}
    else
      exists r :: r in kept + {v} && kept' == kept + {v} - {r} && forall w :: w in kept + {v} ==> !Less(w, r)
  }

  /** Inserting keeps the beam best for what has been seen. */
  lemma InsertKeepsBest(kept: set<Value>, seen: set<Value>, v: Value, kept': set<Value>, k: nat)
    requires k > 0 && BestGroups(kept, seen, k) && Inserted(kept, v, kept', k)
    ensures BestGroups(kept', seen + {v}, k)
  {
    if HasGroup(kept, v.group) {
      MergeKeepsBest(kept, seen, v, kept', k);
    } else if |kept| < k {
      AddKeepsBest(kept, seen, v, k);
    } else {
      var r :| r in kept + {v} && kept' == kept + {v} - {r} && forall w :: w in kept + {v} ==> !Less(w, r);
      EvictKeepsBest(kept, seen, v, r, k);
    }
  }

  lemma MergeKeepsBest(kept: set<Value>, seen: set<Value>, v: Value, kept': set<Value>, k: nat)
    requires BestGroups(kept, seen, k) && HasGroup(kept, v.group) && Inserted(kept, v, kept', k)
    ensures BestGroups(kept', seen + {v}, k)
  {
    hide HasGroup;
    var d := Member(kept, v.group);
    if Less(d, v) {
      NotAMember(kept, d, v);
      forall g ensures HasGroup(kept', g) <==> HasGroup(kept, g) {
        SameGroups(kept, d, v, g);
      }
      ReplaceKeepsBest(kept, seen, v, d, k);
    }
  }

  lemma ReplaceKeepsBest(kept: set<Value>, seen: set<Value>, v: Value, d: Value, k: nat)
    requires BestGroups(kept, seen, k) && d in kept && d.group == v.group && Less(d, v)
    requires forall g :: HasGroup(kept - {d} + {v}, g) <==> HasGroup(kept, g)
    requires v !in kept && |kept - {d} + {v}| == |kept| && DistinctGroups(kept - {d} + {v})
    ensures BestGroups(kept - {d} + {v}, seen + {v}, k)
  {
    hide HasGroup, DistinctGroups;
    var kept' := kept - {d} + {v};
    InGroup(kept', v);
    forall w, s | w in kept' && s in seen + {v} && (s.group == w.group || !HasGroup(kept', s.group))
      ensures s.score <= w.score
    {
      if s == v && s.group == w.group { DistinctAt(kept', v, w); }
    }
  }

  lemma Member(kept: set<Value>, g: nat) returns (d: Value)
    requires HasGroup(kept, g)
    ensures d in kept && d.group == g
  {
    d :| d in kept && d.group == g;
  }

  lemma NotAMember(kept: set<Value>, d: Value, v: Value)
    requires DistinctGroups(kept) && d in kept && d.group == v.group && d != v
    ensures v !in kept && |kept - {d} + {v}| == |kept| && DistinctGroups(kept - {d} + {v})
  {}

  lemma SameGroups(kept: set<Value>, d: Value, v: Value, g: nat)
    requires d in kept && d.group == v.group
    ensures HasGroup(kept - {d} + {v}, g) <==> HasGroup(kept, g)
  {
    if w :| w in kept && w.group == g {
      assert w != d ==> w in kept - {d} + {v};
      assert v in kept - {d} + {v};
    }
  }

  lemma AddKeepsBest(kept: set<Value>, seen: set<Value>, v: Value, k: nat)
    requires BestGroups(kept, seen, k) && !HasGroup(kept, v.group) && |kept| < k
    ensures BestGroups(kept + {v}, seen + {v}, k)
  {
    hide HasGroup;
    forall s ensures HasGroup(kept + {v}, s) <==> HasGroup(kept, s) || s == v.group {
      MoreGroups(kept, v, s);
    }
    forall w | w in kept ensures w.group != v.group {
      InGroup(kept, w);
    }
  }

  lemma InGroup(kept: set<Value>, w: Value)
    requires w in kept
    ensures HasGroup(kept, w.group)
  {}

  lemma MoreGroups(kept: set<Value>, v: Value, g: nat)
    ensures HasGroup(kept + {v}, g) <==> HasGroup(kept, g) || g == v.group
  {
    if HasGroup(kept, g) {
      var w := Member(kept, g);
      InGroup(kept + {v}, w);
    }
    InGroup(kept + {v}, v);
  }

  lemma EvictKeepsBest(kept: set<Value>, seen: set<Value>, v: Value, r: Value, k: nat)
    requires k > 0 && BestGroups(kept, seen, k) && !HasGroup(kept, v.group) && |kept| == k
    requires r in kept + {v} && forall w :: w in kept + {v} ==> !Less(w, r)
    ensures BestGroups(kept + {v} - {r}, seen + {v}, k)
  {
    hide HasGroup, DistinctGroups;
    var kept' := kept + {v} - {r};
    EvictSize(kept, v, r);
    forall g ensures HasGroup(kept', g) ==> HasGroup(kept, g) || g == v.group {
      FewerGroups(kept, v, r, g);
    }
    forall s, w | s in seen + {v} && w in kept' && (s.group == w.group || !HasGroup(kept', s.group))
      ensures s.score <= w.score
    {
      if s != v && HasGroup(kept, s.group) {
        var d := Member(kept, s.group);
        if d != r { InGroup(kept', d); DistinctAt(kept', d, w); }
      } else if s != v && w == v {
        SeenBelowEvicted(kept, seen, v, r, k, s);
      } else if s == v && s != r {
        InGroup(kept', v);
        DistinctAt(kept', v, w);
      }
    }
  }

  lemma EvictSize(kept: set<Value>, v: Value, r: Value)
    requires DistinctGroups(kept) && !HasGroup(kept, v.group) && r in kept + {v}
    ensures v !in kept && |kept + {v} - {r}| == |kept| && DistinctGroups(kept + {v} - {r})
  {
    assert v !in kept;
    assert |kept + {v}| == |kept| + 1;
  }

  lemma DistinctAt(kept: set<Value>, v: Value, w: Value)
    requires DistinctGroups(kept) && v in kept && w in kept && v.group == w.group
    ensures v == w
  {}

  lemma FewerGroups(kept: set<Value>, v: Value, r: Value, g: nat)
    ensures HasGroup(kept + {v} - {r}, g) ==> HasGroup(kept, g) || g == v.group
  {
    MoreGroups(kept, v, g);
    if HasGroup(kept + {v} - {r}, g) {
      var w := Member(kept + {v} - {r}, g);
      InGroup(kept + {v}, w);
    }
  }

  /** A group left out earlier scores no more than what is evicted now, unless that is the new value. */
  lemma SeenBelowEvicted(kept: set<Value>, seen: set<Value>, v: Value, r: Value, k: nat, s: Value)
    requires BestGroups(kept, seen, k) && r in kept + {v} && s in seen && !HasGroup(kept, s.group)
    ensures r != v ==> s.score <= r.score
  {}

  /** Skipping what cannot score above the worst of a full beam loses nothing. */
  lemma SkipKeepsBest(kept: set<Value>, seen: set<Value>, v: Value, k: nat)
    requires BestGroups(kept, seen, k) && |kept| == k && forall w :: w in kept ==> !Less(w, v)
    ensures BestGroups(kept, seen + {v}, k)
  {}

  // ----- order does not matter

  ghost function GroupsAbove(values: set<Value>, t: real): (groups: set<nat>) {
    set v | v in values && v.score > t :: v.group
  }

  /** However the values seen arrived, the beam keeps as many above any score. */
  lemma KeptAbove(kept: set<Value>, seen: set<Value>, k: nat, t: real)
    requires BestGroups(kept, seen, k)
    ensures |GroupsAbove(kept, t)| == if |GroupsAbove(seen, t)| <= k then |GroupsAbove(seen, t)| else k
  {
    var mine, all := GroupsAbove(kept, t), GroupsAbove(seen, t);
    assert mine <= all;
    if mine == all {
      GroupCount(kept, t);
    } else {
      SubsetSize(mine, all);
      assert all - mine != {} by { assert mine + (all - mine) == all; }
      var g :| g in all - mine;
      var s :| s in seen && s.score > t && s.group == g;
      AboveKept(kept, seen, k, t, s);
      assert forall w :: w in kept ==> w.score > t;
      AllGroups(kept, t);
    }
  }

  lemma AboveKept(kept: set<Value>, seen: set<Value>, k: nat, t: real, s: Value)
    requires BestGroups(kept, seen, k) && s in seen && s.score > t
    ensures HasGroup(kept, s.group) ==> s.group in GroupsAbove(kept, t)
  {
    if HasGroup(kept, s.group) {
      var w := Member(kept, s.group);
      assert w.score > t && w.group in GroupsAbove(kept, t);
    }
  }

  lemma GroupCount(kept: set<Value>, t: real)
    ensures |GroupsAbove(kept, t)| <= |kept|
    decreases kept
  {
    if v :| v in kept {
      GroupCount(kept - {v}, t);
      assert GroupsAbove(kept, t) == GroupsAbove(kept - {v}, t) + if v.score > t then {v.group} else {};
    }
  }

  lemma AllGroups(kept: set<Value>, t: real)
    requires DistinctGroups(kept) && forall w :: w in kept ==> w.score > t
    ensures |GroupsAbove(kept, t)| == |kept|
    decreases kept
  {
    if v :| v in kept {
      AllGroups(kept - {v}, t);
      assert GroupsAbove(kept, t) == GroupsAbove(kept - {v}, t) + {v.group};
      assert v.group !in GroupsAbove(kept - {v}, t);
    }
  }

  // ----- storage, duplicates and dropping

  /** Owns the values; one slot more than can be used is always available. */
  class ArrayStorage {
    const maxSize: nat
    const owner: array<Value>
    var size: nat
    var available: nat

    ghost predicate Valid()
      reads this
    {
      && owner.Length == maxSize + 1 && maxSize > 0 && size <= maxSize && available <= size
      && (size < maxSize ==> available == size)
    }

    /** The slots an iteration visits: all that have been used, skipping the available one. */
    ghost function Slots(): (slots: set<nat>)
      reads this
    {
      Below(size + 1) - {available}
    }

    constructor (memory: array<Value>)
      requires memory.Length > 1
      ensures Valid() && owner == memory && maxSize == memory.Length - 1 && size == 0 && Slots() == {}
    {
      maxSize, owner, size, available := memory.Length - 1, memory, 0, 0;
    }

    method UseAvailable()
      requires Valid() && size < maxSize
      modifies this
      ensures Valid() && size == old(size) + 1 && Slots() == old(Slots()) + {old(available)}
      ensures available !in Slots() && available <= maxSize
    {
      size := size + 1;
      available := available + 1;
    }

    method ReplaceAvailable(with: nat)
      requires Valid() && size == maxSize && with <= size
      modifies this`available
      ensures Valid() && available == with && Slots() == old(Slots()) + {old(available)} - {with}
    {
      available := with;
    }
  }

  /** The heap remembers each value's score as of when it was put in. */
  class HeapDropper {
    var heap: map<nat, Value>

    constructor ()
      ensures heap == map[]
    {
      heap := map[];
    }

    method Insert(slot: nat, value: Value)
      modifies this
      ensures heap == old(heap)[slot := value]
    {
      heap := heap[slot := value];
    }

    /** Some slot of least score. */
    method PeekBottom() returns (slot: nat)
      requires heap != map[]
      ensures IsLeast(heap, heap.Keys, slot)
    {
      LeastExists(heap, heap.Keys);
      slot :| slot in heap && IsLeast(heap, heap.Keys, slot);
    }

    method PopBottom() returns (slot: nat)
      requires heap != map[]
      modifies this
      ensures IsLeast(old(heap), old(heap).Keys, slot)
      ensures heap == old(heap) - {slot}
    {
      slot := PeekBottom();
      heap := heap - {slot};
    }

    /** Put one more value in and take some worst value out. */
    method DropWorst(ghost vals: seq<Value>, ghost slots: set<nat>, slot: nat, value: Value) returns (removing: nat)
      requires InHeap(heap, vals, slots) && slot < |vals| && vals[slot] == value
      modifies this
      ensures removing in slots + {slot} && removing < |vals| && InHeap(heap, vals, slots + {slot} - {removing})
      ensures NoneBelow(vals, slots + {slot}, vals[removing])
    {
      hide InHeap, IsLeast;
      InHeapMore(heap, vals, slots, slot);
      Insert(slot, value);
      assert slot in heap;
      ghost var before := heap;
      removing := PopBottom();
      InHeapLeast(before, vals, slots + {slot}, removing);
    }

    /** Take everything out, worst first. */
    method Drain(ghost vals: seq<Value>, ghost slots: set<nat>, size: nat) returns (out: seq<nat>)
      requires InHeap(heap, vals, slots) && |slots| == size
      modifies this
      ensures |out| == size && Increasing(vals, out, {}, slots)
    {
      hide InHeap, IsLeast, Increasing;
      ghost var left := slots;
      IncreasingStart(vals, left);
      out := [];
      for n := 0 to size
        invariant InHeap(heap, vals, left) && |left| == size - n
        invariant |out| == n && Increasing(vals, out, left, slots)
      {
        HeapNotEmpty(heap, vals, left);
        ghost var before := heap;
        var slot := PopBottom();
        InHeapLeast(before, vals, left, slot);
        IncreasingStep(vals, out, left, slots, slot);
        left := left - {slot};
        out := out + [slot];
      }
      IncreasingEnd(vals, out, left, slots);
    }

    /** Before a value's score changes, it leaves the heap. */
    method PrepareUpdate(slot: nat)
      modifies this
      ensures heap == old(heap) - {slot}
    {
      heap := heap - {slot};
    }
  }

  predicate IsLeast(heap: map<nat, Value>, keys: set<nat>, slot: nat)
    requires keys <= heap.Keys
  {
    slot in keys && forall j :: j in keys ==> !Less(heap[j], heap[slot])
  }

  lemma LeastExists(heap: map<nat, Value>, keys: set<nat>)
    requires keys != {} && keys <= heap.Keys
    ensures exists slot :: slot in keys && IsLeast(heap, keys, slot)
    decreases keys
  {
    var i :| i in keys;
    if keys == {i} {
      assert IsLeast(heap, keys, i);
    } else {
      assert keys - {i} != {};
      LeastExists(heap, keys - {i});
      var m :| m in keys - {i} && IsLeast(heap, keys - {i}, m);
      var least := if Less(heap[i], heap[m]) then i else m;
      forall j | j in keys ensures !Less(heap[j], heap[least]) {
        assert j != i ==> j in keys - {i};
      }
      assert IsLeast(heap, keys, least);
    }
  }

  // ----- the values in a set of slots

  ghost predicate UniqueGroups(vals: seq<Value>, slots: set<nat>) {
    && (forall i :: i in slots ==> i < |vals|)
    && (forall i, j :: i in slots && j in slots && vals[i].group == vals[j].group ==> i == j)
  }

  ghost function ValuesAt(vals: seq<Value>, slots: set<nat>): (values: set<Value>)
    requires UniqueGroups(vals, slots)
  {
    set i | i in slots :: vals[i]
  }

  lemma ValuesCount(vals: seq<Value>, slots: set<nat>)
    requires UniqueGroups(vals, slots)
    ensures |ValuesAt(vals, slots)| == |slots| && DistinctGroups(ValuesAt(vals, slots))
    decreases slots
  {
    if i :| i in slots {
      ValuesCount(vals, slots - {i});
      assert ValuesAt(vals, slots) == ValuesAt(vals, slots - {i}) + {vals[i]};
      assert vals[i] !in ValuesAt(vals, slots - {i});
    }
  }

  lemma GroupAt(vals: seq<Value>, slots: set<nat>, g: nat)
    requires UniqueGroups(vals, slots)
    ensures HasGroup(ValuesAt(vals, slots), g) <==> exists i :: i in slots && vals[i].group == g
  {
    if i :| i in slots && vals[i].group == g {
      assert vals[i] in ValuesAt(vals, slots);
    }
  }

  lemma MergeSlot(vals: seq<Value>, slots: set<nat>, d: nat, v: Value, k: nat)
    requires UniqueGroups(vals, slots) && d in slots && vals[d].group == v.group
    ensures var vals' := if Less(vals[d], v) then vals[d := v] else vals;
      UniqueGroups(vals', slots) && Inserted(ValuesAt(vals, slots), v, ValuesAt(vals', slots), k)
  {
    var kept := ValuesAt(vals, slots);
    GroupAt(vals, slots, v.group);
    if Less(vals[d], v) {
      assert ValuesAt(vals[d := v], slots) == kept - {vals[d]} + {v};
    }
  }

  lemma SlotIn(vals: seq<Value>, slots: set<nat>, i: nat)
    requires UniqueGroups(vals, slots) && i in slots
    ensures i < |vals|
  {}

  lemma HeapMerged(heap: map<nat, Value>, vals: seq<Value>, slots: set<nat>, at: nat, vals': seq<Value>)
    requires InHeap(heap, vals, slots) && at in slots && |vals'| == |vals|
    requires forall i :: 0 <= i < |vals| && i != at ==> vals'[i] == vals[i]
    ensures InHeap((heap - {at})[at := vals'[at]], vals', slots)
  {}

  lemma UseSlot(vals: seq<Value>, slots: set<nat>, a: nat, k: nat)
    requires UniqueGroups(vals, slots) && a < |vals| && a !in slots && |slots| < k
    requires forall i :: i in slots ==> vals[i].group != vals[a].group
    ensures UniqueGroups(vals, slots + {a})
    ensures Inserted(ValuesAt(vals, slots), vals[a], ValuesAt(vals, slots + {a}), k)
  {
    ValuesCount(vals, slots);
    GroupAt(vals, slots, vals[a].group);
    assert ValuesAt(vals, slots + {a}) == ValuesAt(vals, slots) + {vals[a]};
  }

  lemma EvictSlot(vals: seq<Value>, slots: set<nat>, a: nat, r: nat, k: nat)
    requires UniqueGroups(vals, slots) && a < |vals| && a !in slots && |slots| == k
    requires forall i :: i in slots ==> vals[i].group != vals[a].group
    requires r in slots + {a} && forall i :: i in slots + {a} ==> !Less(vals[i], vals[r])
    ensures UniqueGroups(vals, slots + {a} - {r})
    ensures Inserted(ValuesAt(vals, slots), vals[a], ValuesAt(vals, slots + {a} - {r}), k)
  {
    var kept := ValuesAt(vals, slots);
    ValuesCount(vals, slots);
    GroupAt(vals, slots, vals[a].group);
    assert UniqueGroups(vals, slots + {a});
    assert ValuesAt(vals, slots + {a}) == kept + {vals[a]};
    ValuesWithout(vals, slots + {a}, r);
  }

  lemma ValuesWithout(vals: seq<Value>, slots: set<nat>, r: nat)
    requires UniqueGroups(vals, slots) && r in slots
    ensures UniqueGroups(vals, slots - {r}) && ValuesAt(vals, slots - {r}) == ValuesAt(vals, slots) - {vals[r]}
  {}

  /** The slots of values found so far, at most one of each group. */
  class HashDupe {
    const owner: array<Value>
    var slots: set<nat>

    ghost predicate Valid()
      reads this, owner
    {
      UniqueGroups(owner[..], slots)
    }

    constructor (owner: array<Value>)
      ensures Valid() && this.owner == owner && slots == {}
    {
      this.owner, slots := owner, {};
    }

    method FindOrInsert(slot: nat) returns (found: bool, at: nat)
      requires Valid() && slot < owner.Length
      modifies this
      ensures found ==> slots == old(slots) && at in slots && owner[at].group == owner[slot].group
      ensures !found ==> slots == old(slots) + {slot}
      ensures !found ==> forall i :: i in old(slots) ==> owner[i].group != owner[slot].group
      ensures Valid()
    {
      found, at := exists i :: i in slots && owner[i].group == owner[slot].group, slot;
      if found {
        at :| at in slots && owner[at].group == owner[slot].group;
      } else {
        slots := slots + {slot};
      }
    }

    /** Erases whatever equals the value. */
    method Remove(slot: nat)
      requires Valid() && slot in slots
      modifies this
      ensures Valid() && slots == old(slots) - {slot}
    {
      slots := set i | i in slots && owner[i].group != owner[slot].group;
    }
  }

  /** Copies the better value; says whether the score may have changed. */
  method OneBestMerge(owner: array<Value>, to: nat, with: nat) returns (changed: bool)
    requires to < owner.Length && with < owner.Length
    modifies owner
    ensures changed == Less(old(owner[to]), old(owner[with]))
    ensures owner[..] == if changed then old(owner[..])[to := old(owner[with])] else old(owner[..])
  {
    changed := Less(owner[to], owner[with]);
    if changed {
      owner[to] := owner[with];
    }
  }

  class OpenNBest {
    const storage: ArrayStorage
    const dupe: HashDupe
    var dropper: HeapDropper?

    /** Found duplicates, used slots and, in a full beam, the heap agree; the heap's scores are current. */
    ghost predicate Valid()
      reads this, storage, storage.owner, dupe, dropper
    {
      && storage.Valid() && dupe.owner == storage.owner && dupe.Valid() && dupe.slots == storage.Slots()
      && (dropper == null <==> storage.size < storage.maxSize)
      && (dropper != null ==> InHeap(dropper.heap, storage.owner[..], storage.Slots()))
    }

    ghost function Kept(): (values: set<Value>)
      reads this, storage, storage.owner, dupe, dropper
      requires Valid()
    {
      ValuesAt(storage.owner[..], storage.Slots())
    }

    ghost function Heaps(): (objects: set<object>)
      reads this
    {
      if dropper == null then {} else {dropper}
    }

    constructor (memory: array<Value>)
      requires memory.Length > 1
      ensures Valid() && Kept() == {} && storage.owner == memory && storage.maxSize == memory.Length - 1
      ensures fresh(storage) && fresh(dupe) && fresh(Heaps())
    {
      storage := new ArrayStorage(memory);
      dupe := new HashDupe(memory);
      dropper := null;
    }

    /** Whether inserting a value of this score could change what is kept, duplicates aside. */
    method MayMakeIt(score: Value) returns (may: bool)
      requires Valid()
      ensures may <==> |Kept()| < storage.maxSize || exists w :: w in Kept() && Less(w, score)
    {
      ValuesCount(storage.owner[..], storage.Slots());
      if storage.size < storage.maxSize {
        return true;
      }
      assert 0 < |storage.Slots()|;
      var bottom := dropper.PeekBottom();
      may := Less(storage.owner[bottom], score);
    }

    method InsertAvailable()
      requires Valid()
      modifies this, storage, storage.owner, dupe, Heaps()
      ensures Valid() && Inserted(old(Kept()), old(storage.owner[storage.available]), Kept(), storage.maxSize)
      ensures dropper == old(dropper) || fresh(dropper)
    {
      hide UniqueGroups, ValuesAt, InHeap, Inserted;
      var found, at := dupe.FindOrInsert(storage.available);
      if found {
        Merge(at);
      } else if storage.size == storage.maxSize {
        Evict();
      } else {
        Use();
      }
    }

    /** The available value is a duplicate. */
    method Merge(at: nat)
      requires Valid() && at in storage.Slots() && storage.owner[at].group == storage.owner[storage.available].group
      modifies storage.owner, Heaps()
      ensures Valid() && Inserted(old(Kept()), old(storage.owner[storage.available]), Kept(), storage.maxSize)
    {
      hide ValuesAt, Inserted, Below, UniqueGroups, InHeap;
      ghost var vals := storage.owner[..];
      SlotIn(vals, storage.Slots(), at);
      MergeSlot(vals, storage.Slots(), at, storage.owner[storage.available], storage.maxSize);
      if storage.size == storage.maxSize {
        ghost var heap := dropper.heap;
        dropper.PrepareUpdate(at);
        var changed := OneBestMerge(storage.owner, at, storage.available);
        dropper.Insert(at, storage.owner[at]);
        HeapMerged(heap, vals, storage.Slots(), at, storage.owner[..]);
      } else {
        var changed := OneBestMerge(storage.owner, at, storage.available);
      }
    }

    /** All but the duplicate detection, which has the available slot already. */
    ghost predicate Found(slots: set<nat>)
      reads this, storage, storage.owner, dupe, dropper
    {
      && storage.Valid() && dupe.owner == storage.owner && dupe.Valid() && slots == storage.Slots()
      && dupe.slots == slots + {storage.available}
      && UniqueGroups(storage.owner[..], slots)
      && (dropper == null <==> storage.size < storage.maxSize)
      && (dropper != null ==> InHeap(dropper.heap, storage.owner[..], slots))
      && forall i :: i in slots ==> storage.owner[i].group != storage.owner[storage.available].group
    }

    method Evict()
      requires Found(storage.Slots()) && storage.size == storage.maxSize
      modifies storage, dupe, Heaps()
      ensures Valid()
      ensures Inserted(old(ValuesAt(storage.owner[..], storage.Slots())), old(storage.owner[storage.available]), Kept(),
                       storage.maxSize)
    {
      hide ValuesAt, Inserted, UniqueGroups, InHeap, IsLeast, Below;
      ghost var vals, slots := storage.owner[..], storage.Slots();
      var removing := dropper.DropWorst(vals, slots, storage.available, storage.owner[storage.available]);
      EvictSlot(vals, slots, storage.available, removing, storage.maxSize);
      dupe.Remove(removing);
      storage.ReplaceAvailable(removing);
    }

    method Use()
      requires Found(storage.Slots()) && storage.size < storage.maxSize
      modifies this`dropper, storage
      ensures Valid() && (dropper == old(dropper) || fresh(dropper))
      ensures Inserted(old(ValuesAt(storage.owner[..], storage.Slots())), old(storage.owner[storage.available]), Kept(),
                       storage.maxSize)
    {
      hide ValuesAt, Inserted, UniqueGroups, Below;
      UseSlot(storage.owner[..], storage.Slots(), storage.available, storage.maxSize);
      storage.UseAvailable();
      // The heap is made as soon as the last free slot goes.
      if storage.size == storage.maxSize {
        BuildDropper();
      }
    }

    /** Fill in the available value. */
    method SetAvailable(value: Value)
      requires Valid()
      modifies storage.owner
      ensures Valid() && Kept() == old(Kept()) && storage.owner[storage.available] == value
    {
      hide Below;
      storage.owner[storage.available] := value;
      SameValues(old(storage.owner[..]), storage.owner[..], storage.Slots());
    }

    /** Offer candidates one after another, asking first whether one may make it where `ask` says so.
        The beam ends up best for all of them, inserted or skipped. */
    method Offer(candidates: seq<Value>, ask: seq<bool>)
      requires Valid() && |ask| == |candidates| && Kept() == {}
      modifies this, storage, storage.owner, dupe, Heaps()
      ensures Valid() && BestGroups(Kept(), (set v | v in candidates), storage.maxSize)
    {
      hide BestGroups, Inserted, ValuesAt, UniqueGroups, InHeap, HasGroup;
      ghost var seen := {};
      NothingSeen(storage.maxSize);
      for n := 0 to |candidates|
        invariant Valid() && BestGroups(Kept(), seen, storage.maxSize)
        invariant seen == set v | v in candidates[..n]
        invariant dropper == old(dropper) || fresh(dropper)
      {
        var v := candidates[n];
        ghost var kept := Kept();
        BestSize(kept, seen, storage.maxSize);
        var may := true;
        if ask[n] { may := MayMakeIt(v); }
        if may {
          SetAvailable(v);
          InsertAvailable();
          InsertKeepsBest(kept, seen, v, Kept(), storage.maxSize);
        } else {
          SkipKeepsBest(kept, seen, v, storage.maxSize);
        }
        seen := seen + {v};
        assert candidates[..n+1] == candidates[..n] + [v];
      }
      assert candidates[..|candidates|] == candidates;
    }

    /** All used slots in increasing order of score.  Destroys the dropper. */
    method DestructiveIncreasingVector() returns (out: seq<nat>)
      requires Valid()
      modifies this`dropper, Heaps()
      ensures |out| == storage.size && Increasing(storage.owner[..], out, {}, storage.Slots())
    {
      hide InHeap, IsLeast, UniqueGroups, Below, Increasing;
      var d := MutableDropper();
      SlotCount(storage);
      out := d.Drain(storage.owner[..], storage.Slots(), storage.size);
    }

    method MutableDropper() returns (d: HeapDropper)
      requires Valid()
      modifies this`dropper
      ensures InHeap(d.heap, storage.owner[..], storage.Slots()) && d == dropper
      ensures d == old(dropper) || (old(dropper) == null && fresh(d))
    {
      if dropper == null { BuildDropper(); }
      d := dropper;
    }

    method BuildDropper()
      requires storage.Valid() && dropper == null
      modifies this`dropper
      ensures dropper != null && fresh(dropper) && InHeap(dropper.heap, storage.owner[..], storage.Slots())
    {
      hide InHeap, Below;
      var d := new HeapDropper();
      ghost var vals, done: set<nat> := storage.owner[..], {};
      InHeapNone(vals);
      var i := 0;
      while i <= storage.size
        invariant i <= storage.size + 1 && fresh(d)
        invariant forall x: nat :: x in done <==> x < i && x != storage.available
        invariant InHeap(d.heap, vals, done)
      {
        if i != storage.available {
          InHeapMore(d.heap, vals, done, i);
          d.Insert(i, storage.owner[i]);
          done := done + {i};
        }
        i := i + 1;
      }
      assert done == storage.Slots();
      dropper := d;
    }
  }

  lemma SameValues(vals: seq<Value>, vals': seq<Value>, slots: set<nat>)
    requires |vals| == |vals'| && forall i :: i in slots ==> i < |vals| && vals[i] == vals'[i]
    requires UniqueGroups(vals, slots)
    ensures UniqueGroups(vals', slots) && ValuesAt(vals', slots) == ValuesAt(vals, slots)
  {}

  lemma NothingSeen(k: nat)
    ensures BestGroups({}, {}, k)
  {}

  lemma BestSize(kept: set<Value>, seen: set<Value>, k: nat)
    requires BestGroups(kept, seen, k)
    ensures |kept| <= k
  {}

  /** `out` is in increasing order of score, below everything in `left`; together they are `all` the slots. */
  ghost predicate Increasing(vals: seq<Value>, out: seq<nat>, left: set<nat>, all: set<nat>) {
    && (set i | i in out) + left == all
    && (forall i :: i in out ==> i < |vals| && NoneBelow(vals, left, vals[i]))
    && (forall a, b :: 0 <= a < b < |out| ==>
         out[a] < |vals| && out[b] < |vals| && !Less(vals[out[b]], vals[out[a]]))
  }

  lemma IncreasingStart(vals: seq<Value>, all: set<nat>)
    ensures Increasing(vals, [], all, all)
  {}

  lemma IncreasingStep(vals: seq<Value>, out: seq<nat>, left: set<nat>, all: set<nat>, slot: nat)
    requires Increasing(vals, out, left, all) && slot in left && slot < |vals| && NoneBelow(vals, left, vals[slot])
    ensures Increasing(vals, out + [slot], left - {slot}, all)
  {
    assert forall i :: i in out + [slot] <==> i in out || i == slot;
  }

  lemma IncreasingEnd(vals: seq<Value>, out: seq<nat>, left: set<nat>, all: set<nat>)
    requires Increasing(vals, out, left, all) && |left| == 0
    ensures Increasing(vals, out, {}, all)
  {}

  ghost predicate NoneBelow(vals: seq<Value>, slots: set<nat>, v: Value) {
    forall i :: i in slots ==> i < |vals| && !Less(vals[i], v)
  }

  lemma SlotCount(storage: ArrayStorage)
    requires storage.Valid()
    ensures |storage.Slots()| == storage.size
  {}

  lemma HeapNotEmpty(heap: map<nat, Value>, vals: seq<Value>, slots: set<nat>)
    requires InHeap(heap, vals, slots) && |slots| > 0
    ensures heap != map[]
  {
    var i :| i in slots;
    assert i in heap;
  }

  lemma InHeapNone(vals: seq<Value>)
    ensures InHeap(map[], vals, {})
  {}

  lemma InHeapMore(heap: map<nat, Value>, vals: seq<Value>, slots: set<nat>, a: nat)
    requires InHeap(heap, vals, slots) && a < |vals|
    ensures InHeap(heap[a := vals[a]], vals, slots + {a})
  {}

  lemma InHeapLeast(heap: map<nat, Value>, vals: seq<Value>, slots: set<nat>, r: nat)
    requires InHeap(heap, vals, slots) && IsLeast(heap, heap.Keys, r)
    ensures r in slots && r < |vals| && NoneBelow(vals, slots, vals[r])
    ensures InHeap(heap - {r}, vals, slots - {r})
  {}

  ghost predicate InHeap(heap: map<nat, Value>, vals: seq<Value>, slots: set<nat>) {
    heap.Keys == slots && forall i :: i in slots ==> i < |vals| && heap[i] == vals[i]
  }
}
