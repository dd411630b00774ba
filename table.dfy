/**
 * put and get as functions of the decoded slots, the table invariant that
 * linear probing without deletion maintains, and the properties that follow.
 */
module Table {
  import opened Ints
  import opened Wrappers
  import opened Errors
  import opened MapNodes
  import opened Keys
  import opened Probing

  /** What `put` returns and the slots it leaves behind. */
  datatype PutOutcome = PutOutcome(result: Result<Option<Int64>, Error>, slots: seq<Entry>)

  /** put: validate, probe, then overwrite the found slot and return its previous value. */
  function PutSpec(slots: seq<Entry>, key: Int64, value: Int64): (o: PutOutcome)
    requires |slots| >= 1
    ensures |o.slots| == |slots|
  {
    match ValidateKey(key)
    case Some(e) => PutOutcome(Failure(e), slots)
    case None =>
      match Probe(slots, key)
      case None => PutOutcome(Failure(CapacityOver), slots)
      case Some(j) => PutOutcome(Ok(slots[j].Value()), slots[j := Entry(NormalizeKey(key), value)])
  }

  /**
   * get: validate, probe, and read the value of the found slot, if any. Only
   * a reserved key makes it fail; a full table answers "absent", not
   * CapacityOver, and a value it returns is stored under the key.
   */
  function GetSpec(slots: seq<Entry>, key: Int64): (r: Result<Option<Int64>, Error>)
    requires |slots| >= 1
    ensures r.Failure? <==> !ValidKey(key)
    ensures r.Ok? && r.value.Some? ==>
      ValidKey(key) && Probe(slots, key).Some? &&
      slots[Probe(slots, key).value] == Entry(NormalizeKey(key), r.value.value)
  {
    match ValidateKey(key)
    case Some(e) => Failure(e)
    case None =>
      match Probe(slots, key)
      case None => Ok(None)
      case Some(j) => Ok(slots[j].Value())
  }

  /** Slot `j` holds key `key` (in normalised form). */
  predicate HoldsKey(slots: seq<Entry>, j: int, key: Int64)
    requires key != INT_MAX
  {
    0 <= j < |slots| && slots[j].normalizedKey == NormalizeKey(key)
  }

  /**
   * The table invariant: every occupied slot holds the normalised form of a
   * valid key, and the probe for that key reaches it. Equivalently, no slot
   * on the probe path before it is empty and no earlier slot holds the same key.
   */
  ghost predicate WellFormed(slots: seq<Entry>) {
    && |slots| >= 1
    && forall j :: 0 <= j < |slots| ==> Reachable(slots, j)
  }

  /** Slot `j` is empty, or holds a valid key whose probe stops at `j`. */
  ghost predicate Reachable(slots: seq<Entry>, j: int)
    requires 0 <= j < |slots|
  {
    !slots[j].IsEmpty() ==>
      && slots[j].normalizedKey != INT_MIN
      && Probe(slots, DenormalizeKey(slots[j].normalizedKey)) == Some(j)
  }

  /** A block of empty slots is a well-formed table. */
  lemma {:induction false} EmptyIsWellFormed(slots: seq<Entry>)
    requires |slots| >= 1
    requires forall j :: 0 <= j < |slots| ==> slots[j].IsEmpty()
    ensures WellFormed(slots)
  {
  }

  /** In a well-formed table no key is held by two slots. */
  lemma {:induction false} KeysAreUnique(slots: seq<Entry>, key: Int64, i: int, j: int)
    requires WellFormed(slots) && ValidKey(key)
    requires HoldsKey(slots, i, key) && HoldsKey(slots, j, key)
    ensures i == j
  {
    DenormalizeNormalize(key);
    assert Reachable(slots, i) && Reachable(slots, j);
  }

  /** get finds a stored key and returns its value. */
  lemma {:induction false} GetStored(slots: seq<Entry>, key: Int64, j: int)
    requires WellFormed(slots) && ValidKey(key) && HoldsKey(slots, j, key)
    ensures GetSpec(slots, key) == Ok(Some(slots[j].value))
  {
    DenormalizeNormalize(key);
    assert Reachable(slots, j);
  }

  /** get of a key no slot holds is none, even when its probe passes occupied slots. */
  lemma {:induction false} GetAbsent(slots: seq<Entry>, key: Int64)
    requires |slots| >= 1 && ValidKey(key)
    requires forall j :: 0 <= j < |slots| ==> !HoldsKey(slots, j, key)
    ensures GetSpec(slots, key) == Ok(None)
  {
    match Probe(slots, key)
    case None =>
    case Some(j) =>
      assert !HoldsKey(slots, j, key);
  }

  /** In a well-formed table, get returns v for key exactly when some slot stores (key, v). */
  lemma {:induction false} GetMeansStored(slots: seq<Entry>, key: Int64, v: Int64)
    requires WellFormed(slots) && ValidKey(key)
    ensures GetSpec(slots, key) == Ok(Some(v)) <==>
      exists j :: 0 <= j < |slots| && slots[j] == Entry(NormalizeKey(key), v)
  {
    if j :| HoldsKey(slots, j, key) {
      GetStored(slots, key, j);
      forall j' | 0 <= j' < |slots| && slots[j'] == Entry(NormalizeKey(key), v)
        ensures j' == j
      {
        KeysAreUnique(slots, key, j, j');
      }
    } else {
      GetAbsent(slots, key);
      assert forall j' :: 0 <= j' < |slots| ==> slots[j'] != Entry(NormalizeKey(key), v) by {
        forall j' | 0 <= j' < |slots| ensures slots[j'] != Entry(NormalizeKey(key), v) {
          assert !HoldsKey(slots, j', key);
        }
      }
    }
  }

  /** The reserved keys fail both operations with the same error, and put then writes nothing. */
  lemma {:induction false} ReservedKeysRejected(slots: seq<Entry>, key: Int64, value: Int64)
    requires |slots| >= 1
    ensures !ValidKey(key) <==> GetSpec(slots, key).Failure?
    ensures !ValidKey(key) <==> PutSpec(slots, key, value).result.Failure? && PutSpec(slots, key, value).result.error != CapacityOver
    ensures !ValidKey(key) ==> PutSpec(slots, key, value).slots == slots
    ensures key == INT_MAX ==> GetSpec(slots, key) == Failure(MaxKeyExceeded(INT_MAX - 1))
    ensures key == INT_MAX ==> PutSpec(slots, key, value).result == Failure(MaxKeyExceeded(INT_MAX - 1))
    ensures key == INT_MIN ==> GetSpec(slots, key) == Failure(MinKeyExceeded(INT_MIN + 1))
    ensures key == INT_MIN ==> PutSpec(slots, key, value).result == Failure(MinKeyExceeded(INT_MIN + 1))
  {
  }

  /** put fails for lack of room exactly when every slot holds some other key, and then writes nothing. */
  lemma {:induction false} PutFullIff(slots: seq<Entry>, key: Int64, value: Int64)
    requires |slots| >= 1 && ValidKey(key)
    ensures PutSpec(slots, key, value).result == Failure(CapacityOver) <==>
      forall j :: 0 <= j < |slots| ==> !slots[j].IsEmpty() && !HoldsKey(slots, j, key)
    ensures PutSpec(slots, key, value).result.Failure? ==> PutSpec(slots, key, value).slots == slots
  {
    ProbeNoneIff(slots, key);
  }

  /** A successful put changes exactly one slot, the one the probe found, to (normalised key, value). */
  lemma {:induction false} PutWritesOneSlot(slots: seq<Entry>, key: Int64, value: Int64)
    requires |slots| >= 1
    requires PutSpec(slots, key, value).result.Ok?
    ensures ValidKey(key) && Probe(slots, key).Some?
    ensures PutSpec(slots, key, value).slots == slots[Probe(slots, key).value := Entry(NormalizeKey(key), value)]
  {
  }

  /** put returns none for a key not yet stored and the stored value for one already present. */
  lemma {:induction false} PutReturnsPrevious(slots: seq<Entry>, key: Int64, value: Int64)
    requires WellFormed(slots) && ValidKey(key)
    requires PutSpec(slots, key, value).result.Ok?
    ensures (forall j :: 0 <= j < |slots| ==> !HoldsKey(slots, j, key)) ==>
      PutSpec(slots, key, value).result == Ok(None)
    ensures forall j :: HoldsKey(slots, j, key) ==>
      PutSpec(slots, key, value).result == Ok(Some(slots[j].value))
  {
    forall j | HoldsKey(slots, j, key)
      ensures PutSpec(slots, key, value).result == Ok(Some(slots[j].value))
    {
      GetStored(slots, key, j);
    }
  }

  /** Round trip: after a successful put(key, v), get(key) is v, for every value and any table. */
  lemma {:induction false} PutThenGet(slots: seq<Entry>, key: Int64, value: Int64)
    requires |slots| >= 1
    requires PutSpec(slots, key, value).result.Ok?
    ensures GetSpec(PutSpec(slots, key, value).slots, key) == Ok(Some(value))
  {
    ProbeAfterWrite(slots, key, Entry(NormalizeKey(key), value));
  }

  /** put keeps the table well-formed. */
  lemma {:induction false} PutPreservesWellFormed(slots: seq<Entry>, key: Int64, value: Int64)
    requires WellFormed(slots)
    ensures WellFormed(PutSpec(slots, key, value).slots)
  {
    if PutSpec(slots, key, value).result.Ok? {
      var i := Probe(slots, key).value;
      var nk := NormalizeKey(key);
      var e := Entry(nk, value);
      var after := slots[i := e];
      assert PutSpec(slots, key, value).slots == after;
      forall j | 0 <= j < |after|
        ensures Reachable(after, j)
      {
        if after[j].IsEmpty() {
        } else if j == i {
          DenormalizeNormalize(key);
          ProbeAfterWrite(slots, key, e);
        } else {
          assert Reachable(slots, j);
          var other := DenormalizeKey(slots[j].normalizedKey);
          NormalizeDenormalize(slots[j].normalizedKey);
          if other == key {
            KeysAreUnique(slots, key, j, i);
          }
          NormalizeInjective(other, key);
          ProbeStable(slots, other, i, e);
        }
      }
    }
  }

  /** put of one key leaves get of every other key as it was. */
  lemma {:induction false} PutOtherKey(slots: seq<Entry>, key: Int64, value: Int64, other: Int64)
    requires WellFormed(slots) && ValidKey(other) && other != key
    ensures GetSpec(PutSpec(slots, key, value).slots, other) == GetSpec(slots, other)
  {
    if PutSpec(slots, key, value).result.Ok? {
      var i := Probe(slots, key).value;
      var after := slots[i := Entry(NormalizeKey(key), value)];
      assert PutSpec(slots, key, value).slots == after;
      PutPreservesWellFormed(slots, key, value);
      NormalizeInjective(other, key);
      if j :| HoldsKey(slots, j, other) {
        GetStored(slots, other, j);
        assert j != i by {
          assert Stops(slots[i], NormalizeKey(key));
        }
        assert HoldsKey(after, j, other);
        GetStored(after, other, j);
      } else {
        GetAbsent(slots, other);
        forall j | 0 <= j < |after|
          ensures !HoldsKey(after, j, other)
        {
          assert !HoldsKey(slots, j, other);
        }
        GetAbsent(after, other);
      }
    }
  }

  /** The number of occupied slots. */
  function Occupied(slots: seq<Entry>): (n: nat)
    ensures n <= |slots|
  {
    if |slots| == 0 then 0
    else (if slots[0].IsEmpty() then 0 else 1) + Occupied(slots[1..])
  }

  lemma {:induction false} OccupiedUpdate(slots: seq<Entry>, i: nat, e: Entry)
    requires i < |slots|
    ensures Occupied(slots[i := e]) + (if slots[i].IsEmpty() then 0 else 1)
         == Occupied(slots) + (if e.IsEmpty() then 0 else 1)
  {
    if i > 0 {
      assert slots[i := e][1..] == slots[1..][i - 1 := e];
      OccupiedUpdate(slots[1..], i - 1, e);
    } else {
      assert slots[i := e][1..] == slots[1..];
    }
  }

  /** Some slot is empty exactly when fewer than all slots are occupied. */
  lemma {:induction false} OccupiedBelowFull(slots: seq<Entry>)
    ensures Occupied(slots) < |slots| <==> exists j :: 0 <= j < |slots| && slots[j].IsEmpty()
  {
    if |slots| > 0 {
      OccupiedBelowFull(slots[1..]);
      if exists j :: 0 <= j < |slots[1..]| && slots[1..][j].IsEmpty() {
        var j :| 0 <= j < |slots[1..]| && slots[1..][j].IsEmpty();
        assert slots[j + 1].IsEmpty();
      }
      if j :| 0 <= j < |slots| && slots[j].IsEmpty() {
        if j > 0 {
          assert slots[1..][j - 1].IsEmpty();
        }
      }
    }
  }

  lemma {:induction false} OccupiedNone(slots: seq<Entry>)
    requires forall j :: 0 <= j < |slots| ==> slots[j].IsEmpty()
    ensures Occupied(slots) == 0
  {
    if |slots| > 0 {
      OccupiedNone(slots[1..]);
    }
  }

  /** What a sequence of puts reports: the first failure, if any, and how many puts succeeded before it. */
  datatype BatchOutcome = BatchOutcome(failure: Option<Error>, done: nat, slots: seq<Entry>)

  /** Put each (key, value) pair in turn, stopping at the first exception. */
  function PutAll(slots: seq<Entry>, items: seq<(Int64, Int64)>): (b: BatchOutcome)
    requires |slots| >= 1
    ensures |b.slots| == |slots| && b.done <= |items|
    decreases |items|
  {
    if |items| == 0 then BatchOutcome(None, 0, slots)
    else
      var o := PutSpec(slots, items[0].0, items[0].1);
      if o.result.Failure? then BatchOutcome(Some(o.result.error), 0, slots)
      else
        var rest := PutAll(o.slots, items[1..]);
        BatchOutcome(rest.failure, rest.done + 1, rest.slots)
  }

  /** `items` have valid, pairwise distinct keys, none of them stored in `slots`. */
  predicate FreshKeys(slots: seq<Entry>, items: seq<(Int64, Int64)>) {
    && (forall t :: 0 <= t < |items| ==> ValidKey(items[t].0))
    && (forall a, b :: 0 <= a < b < |items| ==> items[a].0 != items[b].0)
    && (forall t, j :: 0 <= t < |items| && 0 <= j < |slots| ==> !HoldsKey(slots, j, items[t].0))
  }

  /** One put of a new key into a table with a free slot: it succeeds and takes one free slot. */
  lemma {:induction false} PutFresh(slots: seq<Entry>, key: Int64, value: Int64)
    requires WellFormed(slots) && ValidKey(key) && Occupied(slots) < |slots|
    requires forall j :: 0 <= j < |slots| ==> !HoldsKey(slots, j, key)
    ensures PutSpec(slots, key, value).result == Ok(None)
    ensures Occupied(PutSpec(slots, key, value).slots) == Occupied(slots) + 1
    ensures WellFormed(PutSpec(slots, key, value).slots)
    ensures GetSpec(PutSpec(slots, key, value).slots, key) == Ok(Some(value))
    ensures forall k: Int64, j :: k != INT_MAX && k != key && 0 <= j < |slots| ==>
      (HoldsKey(PutSpec(slots, key, value).slots, j, k) <==> HoldsKey(slots, j, k))
  {
    OccupiedBelowFull(slots);
    PutFullIff(slots, key, value);
    var i := Probe(slots, key).value;
    assert slots[i].IsEmpty() by {
      assert !HoldsKey(slots, i, key);
    }
    OccupiedUpdate(slots, i, Entry(NormalizeKey(key), value));
    PutPreservesWellFormed(slots, key, value);
    PutThenGet(slots, key, value);
    forall k: Int64 | k != INT_MAX && k != key
      ensures NormalizeKey(k) != NormalizeKey(key)
    {
      NormalizeInjective(k, key);
    }
  }

  /** The facts PutAllFresh gives about a batch outcome. */
  ghost predicate Filled(slots: seq<Entry>, items: seq<(Int64, Int64)>, b: BatchOutcome)
    requires |slots| >= 1
  {
    var free := |slots| - Occupied(slots);
    && WellFormed(b.slots)
    && b.done == (if |items| <= free then |items| else free)
    && b.failure == (if |items| <= free then None else Some(CapacityOver))
    && Occupied(b.slots) == Occupied(slots) + b.done
    && (forall t :: 0 <= t < b.done ==> GetSpec(b.slots, items[t].0) == Ok(Some(items[t].1)))
    && (forall k: Int64 :: ValidKey(k) && (forall t :: 0 <= t < b.done ==> items[t].0 != k) ==>
          GetSpec(b.slots, k) == GetSpec(slots, k))
  }

  /**
   * Putting distinct new keys one after another fills the free slots: every
   * put succeeds while a slot is free, the first one after that fails with
   * CapacityOver, every key put is readable with its value, and every other
   * key reads as before.
   */
  lemma {:induction false} PutAllFresh(slots: seq<Entry>, items: seq<(Int64, Int64)>)
    requires WellFormed(slots) && FreshKeys(slots, items)
    ensures Filled(slots, items, PutAll(slots, items))
    decreases |items|
  {
    if |items| == 0 {
    } else if Occupied(slots) == |slots| {
      OccupiedBelowFull(slots);
      PutFullIff(slots, items[0].0, items[0].1);
    } else {
      var key, value := items[0].0, items[0].1;
      var o := PutSpec(slots, key, value);
      PutFresh(slots, key, value);
      var tail := items[1..];
      assert FreshKeys(o.slots, tail) by {
        forall t, j | 0 <= t < |tail| && 0 <= j < |o.slots|
          ensures !HoldsKey(o.slots, j, tail[t].0)
        {
          assert tail[t] == items[t + 1];
        }
      }
      PutAllFresh(o.slots, tail);
      PutAllFreshStep(slots, items, PutAll(o.slots, tail));
    }
  }

  /**
   * The inductive step of PutAllFresh: a first put of a new key into a table
   * with a free slot, followed by a batch outcome `rest` for the other items.
   */
  lemma {:induction false} PutAllFreshStep(slots: seq<Entry>, items: seq<(Int64, Int64)>, rest: BatchOutcome)
    requires WellFormed(slots) && |items| > 0 && ValidKey(items[0].0) && Occupied(slots) < |slots|
    requires forall j :: 0 <= j < |slots| ==> !HoldsKey(slots, j, items[0].0)
    requires forall t :: 0 < t < |items| ==> items[t].0 != items[0].0
    requires Filled(PutSpec(slots, items[0].0, items[0].1).slots, items[1..], rest)
    ensures Filled(slots, items, BatchOutcome(rest.failure, rest.done + 1, rest.slots))
  {
    PutFresh(slots, items[0].0, items[0].1);
    PutAllFreshOthers(slots, items, rest);
    PutAllFreshStored(slots, items, rest);
  }

  /** Part of PutAllFreshStep: every key outside the batch reads as before. */
  lemma {:induction false} PutAllFreshOthers(slots: seq<Entry>, items: seq<(Int64, Int64)>, rest: BatchOutcome)
    requires WellFormed(slots) && |items| > 0 && ValidKey(items[0].0) && Occupied(slots) < |slots|
    requires forall j :: 0 <= j < |slots| ==> !HoldsKey(slots, j, items[0].0)
    requires Filled(PutSpec(slots, items[0].0, items[0].1).slots, items[1..], rest)
    ensures forall k: Int64 :: ValidKey(k) && (forall t :: 0 <= t < rest.done + 1 ==> items[t].0 != k) ==>
      GetSpec(rest.slots, k) == GetSpec(slots, k)
  {
    var key, value := items[0].0, items[0].1;
    var tail := items[1..];
    assert forall t :: 0 <= t < |tail| ==> tail[t] == items[t + 1];
    forall k: Int64 | ValidKey(k) && (forall t :: 0 <= t < rest.done + 1 ==> items[t].0 != k)
      ensures GetSpec(rest.slots, k) == GetSpec(slots, k)
    {
      PutOtherKey(slots, key, value, k);
    }
  }

  /** Part of PutAllFreshStep: every key of the batch that was put reads with its value. */
  lemma {:induction false} PutAllFreshStored(slots: seq<Entry>, items: seq<(Int64, Int64)>, rest: BatchOutcome)
    requires WellFormed(slots) && |items| > 0 && ValidKey(items[0].0) && Occupied(slots) < |slots|
    requires forall j :: 0 <= j < |slots| ==> !HoldsKey(slots, j, items[0].0)
    requires forall t :: 0 < t < |items| ==> items[t].0 != items[0].0
    requires Filled(PutSpec(slots, items[0].0, items[0].1).slots, items[1..], rest)
    ensures forall t :: 0 <= t < rest.done + 1 ==> GetSpec(rest.slots, items[t].0) == Ok(Some(items[t].1))
  {
    var key, value := items[0].0, items[0].1;
    PutFresh(slots, key, value);
    var tail := items[1..];
    forall t | 0 <= t < rest.done + 1
      ensures GetSpec(rest.slots, items[t].0) == Ok(Some(items[t].1))
    {
      if t > 0 {
        assert tail[t - 1] == items[t];
      }
    }
  }

  /**
   * Capacity exhaustion on a fresh table: with one more distinct key than
   * there are slots, the last put fails with CapacityOver and all the others
   * are kept.
   */
  lemma {:induction false} CapacityExhausted(slots: seq<Entry>, items: seq<(Int64, Int64)>)
    requires |slots| >= 1 && forall j :: 0 <= j < |slots| ==> slots[j].IsEmpty()
    requires |items| == |slots| + 1 && FreshKeys(slots, items)
    ensures PutAll(slots, items).failure == Some(CapacityOver)
    ensures PutAll(slots, items).done == |slots|
    ensures forall t :: 0 <= t < |slots| ==>
      GetSpec(PutAll(slots, items).slots, items[t].0) == Ok(Some(items[t].1))
  {
    EmptyIsWellFormed(slots);
    OccupiedNone(slots);
    PutAllFresh(slots, items);
  }

  /**
   * A ten-slot table: put(0, 2) and put(10, 3) both return none although the
   * two keys hash to the same slot; afterwards get(0) is 2 and get(10) is 3.
   */
  lemma {:induction false} ModCollision(slots: seq<Entry>)
    requires |slots| == 10 && forall j :: 0 <= j < |slots| ==> slots[j].IsEmpty()
    ensures KeyHash(0, 10) == KeyHash(10, 10)
    ensures PutSpec(slots, 0, 2).result == Ok(None)
    ensures PutSpec(PutSpec(slots, 0, 2).slots, 10, 3).result == Ok(None)
    ensures GetSpec(PutSpec(PutSpec(slots, 0, 2).slots, 10, 3).slots, 0) == Ok(Some(2))
    ensures GetSpec(PutSpec(PutSpec(slots, 0, 2).slots, 10, 3).slots, 10) == Ok(Some(3))
  {
    var s1 := PutSpec(slots, 0, 2).slots;
    EmptyIsWellFormed(slots);
    OccupiedNone(slots);
    PutFresh(slots, 0, 2);
    assert forall j :: 0 <= j < |s1| ==> !HoldsKey(s1, j, 10);
    PutFresh(s1, 10, 3);
    PutOtherKey(s1, 10, 3, 0);
  }
}
