/**
 * getIndexedNodeByKey as a specification: the order in which slots are
 * tried, and the first of them that is empty or already holds the key.
 */
module Probing {
  import opened Ints
  import opened Wrappers
  import opened MapNodes
  import opened Keys

  /**
   * PHP's range(lo, hi - 1) for lo <= hi - 1, one step up at a time. For
   * lo == hi PHP would count down to [lo, lo - 1], so that case is excluded.
   */
  function Range(lo: nat, hi: nat): (r: seq<nat>)
    requires lo < hi
    ensures |r| == hi - lo
    ensures forall i :: 0 <= i < |r| ==> r[i] == lo + i
  {
    seq(hi - lo, i requires 0 <= i < hi - lo => lo + i)
  }

  /**
   * The candidate slots for a key hashing to `index`: index .. capacity-1,
   * then 0 .. index-1. CandidatesArePermutation says every slot appears once.
   */
  function Candidates(index: nat, capacity: nat): (c: seq<nat>)
    requires index < capacity
    ensures |c| == capacity && c[0] == index
    ensures forall i :: 0 <= i < |c| ==> c[i] < capacity
  {
    Range(index, capacity) + (if index > 0 then Range(0, index) else [])
  }

  /** The candidate list is the upper range alone when the start is slot 0. */
  lemma {:induction false} CandidatesFromZero(capacity: nat)
    requires 0 < capacity
    ensures Candidates(0, capacity) == Range(0, capacity)
  {
    assert Range(0, capacity) + [] == Range(0, capacity);
  }

  /** The position at which slot `s` appears among the candidates. */
  function PositionOf(index: nat, capacity: nat, s: nat): nat
    requires index < capacity && s < capacity
  {
    if s >= index then s - index else s + capacity - index
  }

  /** The candidate at position `i`: counting up from `index` and wrapping past the last slot. */
  lemma {:induction false} CandidateAt(index: nat, capacity: nat, i: nat)
    requires index < capacity && i < capacity
    ensures |Candidates(index, capacity)| == capacity
    ensures Candidates(index, capacity)[i] == if i < capacity - index then index + i else index + i - capacity
  {
    var c := Candidates(index, capacity);
    if i >= capacity - index {
      assert c[i] == Range(0, index)[i - (capacity - index)];
    }
  }

  /** Below twice the modulus, taking the remainder subtracts the modulus at most once. */
  lemma {:induction false} WrapMod(a: nat, n: nat)
    requires 0 < n && a < 2 * n
    ensures a % n == if a < n then a else a - n
  {
    if a >= n {
      assert a == 1 * n + (a - n);
    }
  }

  /** The candidates are linear probing with wrap-around: a permutation of all slots. */
  lemma {:induction false} CandidatesArePermutation(index: nat, capacity: nat)
    requires index < capacity
    ensures |Candidates(index, capacity)| == capacity
    ensures forall i :: 0 <= i < capacity ==>
      Candidates(index, capacity)[i] == (index + i) % capacity
    ensures forall i, j :: 0 <= i < j < capacity ==>
      Candidates(index, capacity)[i] != Candidates(index, capacity)[j]
    ensures forall s :: 0 <= s < capacity ==>
      PositionOf(index, capacity, s) < capacity && Candidates(index, capacity)[PositionOf(index, capacity, s)] == s
  {
    var c := Candidates(index, capacity);
    forall i | 0 <= i < capacity
      ensures c[i] == (index + i) % capacity
    {
      CandidateAt(index, capacity, i);
      WrapMod(index + i, capacity);
    }
    forall i, j | 0 <= i < j < capacity
      ensures c[i] != c[j]
    {
      CandidateAt(index, capacity, i);
      CandidateAt(index, capacity, j);
    }
    forall s | 0 <= s < capacity
      ensures PositionOf(index, capacity, s) < capacity && c[PositionOf(index, capacity, s)] == s
    {
      CandidateAt(index, capacity, PositionOf(index, capacity, s));
    }
  }

  /** A slot where the probe for normalised key `nk` stops. */
  predicate Stops(e: Entry, nk: Int64) {
    e.IsEmpty() || e.normalizedKey == nk
  }

  /** The first position among `cands` whose slot stops the probe for `nk`, if any. */
  function FirstStop(slots: seq<Entry>, nk: Int64, cands: seq<nat>): (r: Option<nat>)
    requires forall i :: 0 <= i < |cands| ==> cands[i] < |slots|
    ensures r.Some? ==> r.value < |cands| && Stops(slots[cands[r.value]], nk)
    ensures r.Some? ==> forall q :: 0 <= q < r.value ==> !Stops(slots[cands[q]], nk)
    ensures r.None? ==> forall q :: 0 <= q < |cands| ==> !Stops(slots[cands[q]], nk)
  {
    if |cands| == 0 then None
    else if Stops(slots[cands[0]], nk) then Some(0)
    else
      match FirstStop(slots, nk, cands[1..])
      case None => None
      case Some(p) => Some(p + 1)
  }

  /** The candidate list for `key` in a table of |slots| slots. */
  function KeyCandidates(slots: seq<Entry>, key: Int64): (c: seq<nat>)
    requires |slots| >= 1 && ValidKey(key)
    ensures |c| == |slots|
    ensures forall i :: 0 <= i < |c| ==> c[i] < |slots|
  {
    CandidatesArePermutation(KeyHash(key, |slots|), |slots|);
    Candidates(KeyHash(key, |slots|), |slots|)
  }

  /** The position on the probe path of `key` where the probe stops. */
  function ProbePosition(slots: seq<Entry>, key: Int64): Option<nat>
    requires |slots| >= 1 && ValidKey(key)
  {
    FirstStop(slots, NormalizeKey(key), KeyCandidates(slots, key))
  }

  /** The slot the probe for `key` returns; None when every slot holds some other key. */
  function Probe(slots: seq<Entry>, key: Int64): (r: Option<nat>)
    requires |slots| >= 1 && ValidKey(key)
    ensures r.Some? ==> r.value < |slots| && Stops(slots[r.value], NormalizeKey(key))
  {
    match ProbePosition(slots, key)
    case None => None
    case Some(p) => Some(KeyCandidates(slots, key)[p])
  }

  /** The probe fails exactly when no slot at all is empty or holds the key. */
  lemma {:induction false} ProbeNoneIff(slots: seq<Entry>, key: Int64)
    requires |slots| >= 1 && ValidKey(key)
    ensures Probe(slots, key).None? <==>
      forall j :: 0 <= j < |slots| ==> !Stops(slots[j], NormalizeKey(key))
  {
    var h := KeyHash(key, |slots|);
    CandidatesArePermutation(h, |slots|);
    var c := KeyCandidates(slots, key);
    if Probe(slots, key).None? {
      forall j | 0 <= j < |slots|
        ensures !Stops(slots[j], NormalizeKey(key))
      {
        assert c[PositionOf(h, |slots|, j)] == j;
      }
    }
  }

  /** The probe result is determined by the first stopping position on the path. */
  lemma {:induction false} ProbeAt(slots: seq<Entry>, key: Int64, p: nat)
    requires |slots| >= 1 && ValidKey(key)
    requires p < |slots| && Stops(slots[KeyCandidates(slots, key)[p]], NormalizeKey(key))
    requires forall q :: 0 <= q < p ==> !Stops(slots[KeyCandidates(slots, key)[q]], NormalizeKey(key))
    ensures ProbePosition(slots, key) == Some(p)
    ensures Probe(slots, key) == Some(KeyCandidates(slots, key)[p])
  {
  }

  /** No candidate among the first `i` on the path of `key` stops the probe. */
  predicate Passed(slots: seq<Entry>, key: Int64, i: nat)
    requires |slots| >= 1 && ValidKey(key) && i <= |slots|
  {
    forall q :: 0 <= q < i ==> !Stops(slots[KeyCandidates(slots, key)[q]], NormalizeKey(key))
  }

  /** Passing one more candidate that does not stop the probe. */
  lemma {:induction false} PassedStep(slots: seq<Entry>, key: Int64, i: nat)
    requires |slots| >= 1 && ValidKey(key) && i < |slots|
    requires Passed(slots, key, i) && !Stops(slots[KeyCandidates(slots, key)[i]], NormalizeKey(key))
    ensures Passed(slots, key, i + 1)
  {
  }

  /** When no candidate on the path of `key` stops the probe, the probe fails. */
  lemma {:induction false} ProbeMiss(slots: seq<Entry>, key: Int64)
    requires |slots| >= 1 && ValidKey(key)
    requires Passed(slots, key, |slots|)
    ensures Probe(slots, key).None?
  {
  }

  /**
   * Writing a stopping entry into the slot the probe found keeps the probe there:
   * every slot before it on the path is another one, left as it was.
   */
  lemma {:induction false} ProbeAfterWrite(slots: seq<Entry>, key: Int64, e: Entry)
    requires |slots| >= 1 && ValidKey(key)
    requires Probe(slots, key).Some? && Stops(e, NormalizeKey(key))
    ensures Probe(slots[Probe(slots, key).value := e], key) == Probe(slots, key)
  {
    var j := Probe(slots, key).value;
    var p := ProbePosition(slots, key).value;
    var after := slots[j := e];
    var c := KeyCandidates(slots, key);
    CandidatesArePermutation(KeyHash(key, |slots|), |slots|);
    assert KeyCandidates(after, key) == c;
    forall q | 0 <= q < p
      ensures !Stops(after[c[q]], NormalizeKey(key))
    {
      assert c[q] != c[p];
    }
    ProbeAt(after, key, p);
  }

  /**
   * Writing into a slot other than the one the probe for `key` found leaves
   * that probe unchanged, provided the write does not turn a passing slot
   * into a stopping one.
   */
  lemma {:induction false} ProbeStable(slots: seq<Entry>, key: Int64, i: nat, e: Entry)
    requires |slots| >= 1 && ValidKey(key) && i < |slots|
    requires Probe(slots, key).Some? && Probe(slots, key).value != i
    requires !Stops(slots[i], NormalizeKey(key)) ==> !Stops(e, NormalizeKey(key))
    ensures Probe(slots[i := e], key) == Probe(slots, key)
  {
    var p := ProbePosition(slots, key).value;
    var after := slots[i := e];
    var c := KeyCandidates(slots, key);
    assert KeyCandidates(after, key) == c;
    ProbeAt(after, key, p);
  }
}
