/**
 * Key handling: the two reserved keys, normalisation of a key into its stored
 * form, and the hash that picks the first slot to probe.
 */
module Keys {
  import opened Ints
  import opened Wrappers
  import opened Errors

  /** A key the map accepts. PHP_INT_MAX + 1 would overflow and abs(PHP_INT_MIN) has no int64 value. */
  predicate ValidKey(key: Int64) {
    key != INT_MAX && key != INT_MIN
  }

  /** validateKey: the exception to raise for `key`, if any; it names the nearest usable bound. */
  function ValidateKey(key: Int64): (r: Option<Error>)
    ensures r.None? <==> ValidKey(key)
    ensures key == INT_MAX ==> r == Some(MaxKeyExceeded(INT_MAX - 1))
    ensures key == INT_MIN ==> r == Some(MinKeyExceeded(INT_MIN + 1))
  {
    if key == INT_MAX then Some(MaxKeyExceeded(INT_MAX - 1))
    else if key == INT_MIN then Some(MinKeyExceeded(INT_MIN + 1))
    else None
  }

  /** normalizeKey: non-negative keys move up by one so that key 0 is not the empty marker. */
  function NormalizeKey(key: Int64): (nk: Int64)
    requires key != INT_MAX
    ensures nk != 0
    ensures key >= 0 <==> nk > 0
    ensures key != INT_MIN ==> nk != INT_MIN
  {
    if key >= 0 then key + 1 else key
  }

  /** The key a non-empty normalised key stands for. */
  function DenormalizeKey(nk: Int64): (key: Int64)
    requires nk != 0 && nk != INT_MIN
    ensures ValidKey(key)
  {
    if nk > 0 then nk - 1 else nk
  }

  lemma {:induction false} DenormalizeNormalize(key: Int64)
    requires ValidKey(key)
    ensures DenormalizeKey(NormalizeKey(key)) == key
  {
  }

  lemma {:induction false} NormalizeDenormalize(nk: Int64)
    requires nk != 0 && nk != INT_MIN
    ensures NormalizeKey(DenormalizeKey(nk)) == nk
  {
  }

  /** Distinct keys are stored under distinct normalised keys. */
  lemma {:induction false} NormalizeInjective(a: Int64, b: Int64)
    requires a != INT_MAX && b != INT_MAX
    ensures NormalizeKey(a) == NormalizeKey(b) <==> a == b
  {
  }

  function Abs(x: Int64): (a: Int64)
    requires x != INT_MIN
    ensures a >= 0 && (a == x || a == -x)
  {
    if x < 0 then -x else x
  }

  /** getKeyHash: abs(key) % capacity, on the raw (not the normalised) key; both operands are non-negative. */
  function KeyHash(key: Int64, capacity: nat): (h: nat)
    requires key != INT_MIN && capacity >= 1
    ensures h < capacity
  {
    Abs(key) % capacity
  }

  /** A key and its negation always start their probe at the same slot. */
  lemma {:induction false} SignCollision(key: Int64, capacity: nat)
    requires ValidKey(key) && capacity >= 1
    ensures KeyHash(key, capacity) == KeyHash(-key, capacity)
  {
  }
}
