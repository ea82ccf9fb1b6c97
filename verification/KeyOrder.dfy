/**
 Keys of an index and the order the tree relies on.

 A key is a byte string. The tree code calls one comparator, here a function value
 `cmp`, and additionally tests byte equality. Everything proved about trees holds for every
 comparator that is a total order on byte strings (`TotalOrder`); module `KeyCompare` shows
 that the comparator of the source is one on the keys of an index.
 */
module KeyOrder {
  type Byte = b: int | 0 <= b < 256
  type Key = seq<Byte>
  type Cmp = (Key, Key) -> int

  /** Marks the triples for which transitivity is wanted; see `Transitive`. */
  predicate Chain(cmp: Cmp, a: Key, b: Key, c: Key) { true }

  ghost predicate TotalOrder(cmp: Cmp) {
    && (forall a, b {:trigger cmp(a, b)} :: (cmp(a, b) == 0 <==> a == b) && (cmp(a, b) < 0 <==> cmp(b, a) > 0))
    && (forall a, b, c {:trigger Chain(cmp, a, b, c)} :: cmp(a, b) <= 0 && cmp(b, c) <= 0 ==> cmp(a, c) <= 0)
  }

  /** Transitivity, with the strict cases that follow from it. */
  lemma {:induction false} Transitive(cmp: Cmp, a: Key, b: Key, c: Key)
    requires TotalOrder(cmp)
    requires cmp(a, b) <= 0 && cmp(b, c) <= 0
    ensures cmp(a, c) <= 0
    ensures cmp(a, b) < 0 || cmp(b, c) < 0 ==> cmp(a, c) < 0
  {
    assert Chain(cmp, a, b, c);
    if cmp(a, c) == 0 {
      assert cmp(c, b) == cmp(a, b) && cmp(b, c) == cmp(b, a);
    }
  }

  /** Keys strictly increase (leaves). */
  ghost predicate Increasing(cmp: Cmp, keys: seq<Key>) {
    forall i, j :: 0 <= i < j < |keys| ==> cmp(keys[i], keys[j]) < 0
  }

  /** Keys never decrease (separators of an internal node). */
  ghost predicate NonDecreasing(cmp: Cmp, keys: seq<Key>) {
    forall i, j :: 0 <= i < j < |keys| ==> cmp(keys[i], keys[j]) <= 0
  }

  /** The first index whose key is not below `key`. */
  function LowerBound(cmp: Cmp, keys: seq<Key>, key: Key): (r: nat)
    ensures r <= |keys|
    ensures forall j :: 0 <= j < r ==> cmp(keys[j], key) < 0
    ensures r < |keys| ==> cmp(keys[r], key) >= 0
  {
    if keys == [] || cmp(keys[0], key) >= 0 then 0 else 1 + LowerBound(cmp, keys[1..], key)
  }

  /** The first index whose key is above `key`. */
  function UpperBound(cmp: Cmp, keys: seq<Key>, key: Key): (r: nat)
    ensures r <= |keys|
    ensures forall j :: 0 <= j < r ==> cmp(keys[j], key) <= 0
    ensures r < |keys| ==> cmp(keys[r], key) > 0
  {
    if keys == [] || cmp(keys[0], key) > 0 then 0 else 1 + UpperBound(cmp, keys[1..], key)
  }

  /** From the lower bound on, no key is below `key`. */
  lemma {:induction false} LowerBoundAbove(cmp: Cmp, keys: seq<Key>, key: Key, j: nat)
    requires TotalOrder(cmp) && Increasing(cmp, keys)
    requires LowerBound(cmp, keys, key) <= j < |keys|
    ensures cmp(keys[j], key) >= 0
    ensures j > LowerBound(cmp, keys, key) ==> cmp(keys[j], key) > 0
  {
    var r := LowerBound(cmp, keys, key);
    if r < j {
      Transitive(cmp, key, keys[r], keys[j]);
    }
  }

  lemma {:induction false} UpperBoundAbove(cmp: Cmp, keys: seq<Key>, key: Key, j: nat)
    requires TotalOrder(cmp) && NonDecreasing(cmp, keys)
    requires UpperBound(cmp, keys, key) <= j < |keys|
    ensures cmp(keys[j], key) > 0
  {
    var r := UpperBound(cmp, keys, key);
    if r < j {
      Transitive(cmp, key, keys[r], keys[j]);
    }
  }

  /** Binary search over a leaf: the index the linear definition names. */
  method SearchLeaf(cmp: Cmp, keys: seq<Key>, key: Key) returns (r: nat)
    requires TotalOrder(cmp) && Increasing(cmp, keys)
    ensures r == LowerBound(cmp, keys, key)
  {
    var lo, hi := 0, |keys|;
    while lo < hi
      invariant 0 <= lo <= LowerBound(cmp, keys, key) <= hi <= |keys|
    {
      var mid := (lo + hi) / 2;
      if cmp(keys[mid], key) >= 0 {
        hi := mid;
      } else {
        if LowerBound(cmp, keys, key) <= mid {
          LowerBoundAbove(cmp, keys, key, mid);
        }
        lo := mid + 1;
      }
    }
    r := lo;
  }

  /** Binary search over the separators of an internal node. */
  method SearchInternal(cmp: Cmp, keys: seq<Key>, key: Key) returns (r: nat)
    requires TotalOrder(cmp) && NonDecreasing(cmp, keys)
    ensures r == UpperBound(cmp, keys, key)
  {
    var lo, hi := 0, |keys|;
    while lo < hi
      invariant 0 <= lo <= UpperBound(cmp, keys, key) <= hi <= |keys|
    {
      var mid := (lo + hi) / 2;
      if cmp(keys[mid], key) > 0 {
        hi := mid;
      } else {
        if UpperBound(cmp, keys, key) <= mid {
          UpperBoundAbove(cmp, keys, key, mid);
        }
        lo := mid + 1;
      }
    }
    r := lo;
  }
}
