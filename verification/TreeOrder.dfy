/**
 Search order and contents of a tree: what a tree means as a map from keys to record pointers.
 */
module TreeOrder {
  import opened Options
  import opened KeyOrder
  import opened PageFormat
  import opened CowTree

  // ---------------------------------------------------------------- search order

  datatype Bound = Unbounded | At(key: Key)

  /** `lo <= k`. */
  ghost predicate From(cmp: Cmp, lo: Bound, k: Key) { lo.At? ==> cmp(lo.key, k) <= 0 }

  /** `k < hi`. */
  ghost predicate Below(cmp: Cmp, k: Key, hi: Bound) { hi.At? ==> cmp(k, hi.key) < 0 }

  /** `k <= hi`. */
  ghost predicate UpTo(cmp: Cmp, k: Key, hi: Bound) { hi.At? ==> cmp(k, hi.key) <= 0 }

  function KidLo(keys: seq<Key>, lo: Bound, i: nat): Bound
    requires i <= |keys|
  {
    if i == 0 then lo else At(keys[i - 1])
  }

  function KidHi(keys: seq<Key>, hi: Bound, i: nat): Bound
    requires i <= |keys|
  {
    if i == |keys| then hi else At(keys[i])
  }

  /** Every key of `t` lies in `[lo, hi)`, and every subtree lies between its separators. */
  ghost predicate Ordered(cmp: Cmp, t: Tree, lo: Bound, hi: Bound)
    decreases t
  {
    match t
    case Leaf(_, _, keys, ptrs, _) =>
      && |keys| == |ptrs|
      && Increasing(cmp, keys)
      && (forall i :: 0 <= i < |keys| ==> From(cmp, lo, keys[i]) && Below(cmp, keys[i], hi))
    case Branch(_, _, keys, kids) =>
      && |kids| == |keys| + 1
      && NonDecreasing(cmp, keys)
      && (forall i :: 0 <= i < |keys| ==> From(cmp, lo, keys[i]) && UpTo(cmp, keys[i], hi))
      && (forall i :: 0 <= i < |kids| ==> Ordered(cmp, kids[i], KidLo(keys, lo, i), KidHi(keys, hi, i)))
  }

  // ---------------------------------------------------------------- contents

  ghost function IndexOf(keys: seq<Key>, k: Key): (i: nat)
    requires k in keys
    ensures i < |keys| && keys[i] == k
  {
    var i: nat :| i < |keys| && keys[i] == k;
    i
  }

  ghost function LeafMap(keys: seq<Key>, ptrs: seq<Pointer>): map<Key, Pointer> {
    map k | k in keys && IndexOf(keys, k) < |ptrs| :: ptrs[IndexOf(keys, k)]
  }

  ghost function Contents(t: Tree): map<Key, Pointer>
    decreases t
  {
    match t
    case Leaf(_, _, keys, ptrs, _) => LeafMap(keys, ptrs)
    case Branch(_, _, _, kids) => ContentsAll(kids)
  }

  ghost function ContentsAll(kids: seq<Tree>): map<Key, Pointer>
    decreases kids
  {
    if kids == [] then map[] else Contents(kids[0]) + ContentsAll(kids[1..])
  }

  /** In a leaf with strictly increasing keys the map is read off position by position. */
  lemma {:induction false} LeafMapAt(cmp: Cmp, keys: seq<Key>, ptrs: seq<Pointer>, i: nat)
    requires TotalOrder(cmp) && Increasing(cmp, keys) && |ptrs| == |keys| && i < |keys|
    ensures keys[i] in LeafMap(keys, ptrs) && LeafMap(keys, ptrs)[keys[i]] == ptrs[i]
  {
    var j := IndexOf(keys, keys[i]);
    assert cmp(keys[j], keys[i]) == 0;
    assert i == j;
  }

  lemma {:induction false} MapAssociative<K, V>(a: map<K, V>, b: map<K, V>, c: map<K, V>)
    ensures a + b + c == a + (b + c)
  {
  }

  lemma {:induction false} ContentsConcat(a: seq<Tree>, b: seq<Tree>)
    ensures ContentsAll(a + b) == ContentsAll(a) + ContentsAll(b)
  {
    if a == [] {
      assert a + b == b;
    } else {
      ContentsConcat(a[1..], b);
      assert (a + b)[1..] == a[1..] + b;
      MapAssociative(Contents(a[0]), ContentsAll(a[1..]), ContentsAll(b));
    }
  }

  lemma {:induction false} ContentsOne(t: Tree)
    ensures ContentsAll([t]) == Contents(t)
  {
    assert [t][1..] == [];
  }

  /** The contents around child `i`. */
  lemma {:induction false} ContentsAround(kids: seq<Tree>, i: nat)
    requires i < |kids|
    ensures ContentsAll(kids) == ContentsAll(kids[..i]) + Contents(kids[i]) + ContentsAll(kids[i + 1..])
  {
    assert kids == kids[..i] + kids[i..];
    ContentsConcat(kids[..i], kids[i..]);
    assert kids[i..][1..] == kids[i + 1..];
    MapAssociative(ContentsAll(kids[..i]), Contents(kids[i]), ContentsAll(kids[i + 1..]));
  }

  /** A key of the whole is a key of some child. */
  lemma {:induction false} ContentsWitness(kids: seq<Tree>, k: Key) returns (j: nat)
    requires k in ContentsAll(kids)
    ensures j < |kids| && k in Contents(kids[j])
  {
    if k in Contents(kids[0]) {
      j := 0;
    } else {
      j := ContentsWitness(kids[1..], k);
      j := j + 1;
    }
  }

  /** A tree holds no key outside its bounds. */
  lemma {:induction false} ContentsInBounds(cmp: Cmp, t: Tree, lo: Bound, hi: Bound, k: Key)
    requires TotalOrder(cmp) && Ordered(cmp, t, lo, hi)
    requires k in Contents(t)
    ensures From(cmp, lo, k) && Below(cmp, k, hi)
    decreases t
  {
    if t.Branch? {
      var j := ContentsWitness(t.kids, k);
      ContentsInBounds(cmp, t.kids[j], KidLo(t.keys, lo, j), KidHi(t.keys, hi, j), k);
      if j > 0 && lo.At? {
        Transitive(cmp, lo.key, t.keys[j - 1], k);
      }
      if j < |t.keys| && hi.At? {
        Transitive(cmp, k, t.keys[j], hi.key);
      }
    }
  }

  /** The separators around a key determine its child. */
  lemma {:induction false} UpperBoundUnique(cmp: Cmp, keys: seq<Key>, key: Key, j: nat)
    requires TotalOrder(cmp) && NonDecreasing(cmp, keys) && j <= |keys|
    requires j < |keys| ==> cmp(key, keys[j]) < 0
    requires j > 0 ==> cmp(keys[j - 1], key) <= 0
    ensures j == UpperBound(cmp, keys, key)
  {
    if UpperBound(cmp, keys, key) < j {
      UpperBoundAbove(cmp, keys, key, j - 1);
    }
  }

  /** A key can only live in the child the separators lead to. */
  lemma {:induction false} OnlyKid(cmp: Cmp, t: Tree, lo: Bound, hi: Bound, key: Key, j: nat)
    requires TotalOrder(cmp) && Ordered(cmp, t, lo, hi) && t.Branch? && j < |t.kids|
    requires key in Contents(t.kids[j])
    ensures j == UpperBound(cmp, t.keys, key)
  {
    ContentsInBounds(cmp, t.kids[j], KidLo(t.keys, lo, j), KidHi(t.keys, hi, j), key);
    UpperBoundUnique(cmp, t.keys, key, j);
  }

  lemma {:induction false} ElsewhereAbsent(cmp: Cmp, t: Tree, lo: Bound, hi: Bound, key: Key)
    requires TotalOrder(cmp) && Ordered(cmp, t, lo, hi) && t.Branch?
    ensures var i := UpperBound(cmp, t.keys, key);
            key !in ContentsAll(t.kids[..i]) && key !in ContentsAll(t.kids[i + 1..])
  {
    AbsentBefore(cmp, t, lo, hi, key);
    AbsentBehind(cmp, t, lo, hi, key);
  }

  lemma {:induction false} WitnessBehind(kids: seq<Tree>, i: nat, key: Key) returns (k: nat)
    requires i <= |kids| && key in ContentsAll(kids[i..])
    ensures i <= k < |kids| && key in Contents(kids[k])
  {
    var j := ContentsWitness(kids[i..], key);
    k := i + j;
  }

  lemma {:induction false} AbsentBefore(cmp: Cmp, t: Tree, lo: Bound, hi: Bound, key: Key)
    requires TotalOrder(cmp) && Ordered(cmp, t, lo, hi) && t.Branch?
    ensures key !in ContentsAll(t.kids[..UpperBound(cmp, t.keys, key)])
  {
    var before := t.kids[..UpperBound(cmp, t.keys, key)];
    if key in ContentsAll(before) {
      var j := ContentsWitness(before, key);
      OnlyKid(cmp, t, lo, hi, key, j);
    }
  }

  lemma {:induction false} AbsentBehind(cmp: Cmp, t: Tree, lo: Bound, hi: Bound, key: Key)
    requires TotalOrder(cmp) && Ordered(cmp, t, lo, hi) && t.Branch?
    ensures key !in ContentsAll(t.kids[UpperBound(cmp, t.keys, key) + 1..])
  {
    var i := UpperBound(cmp, t.keys, key);
    if key in ContentsAll(t.kids[i + 1..]) {
      var k := WitnessBehind(t.kids, i + 1, key);
      OnlyKid(cmp, t, lo, hi, key, k);
    }
  }

  // ---------------------------------------------------------------- lookup

  /** The descent of `FindNamed`. */
  function Find(cmp: Cmp, t: Tree, key: Key): Option<Pointer>
    requires WellShaped(t)
    decreases t
  {
    if t.Leaf? then
      var i := LowerBound(cmp, t.keys, key);
      if i < |t.keys| && t.keys[i] == key then Some(t.ptrs[i]) else None
    else Find(cmp, t.kids[UpperBound(cmp, t.keys, key)], key)
  }

  /** A lookup answers exactly the map the tree stands for. */
  lemma {:induction false} FindIsLookup(cmp: Cmp, t: Tree, lo: Bound, hi: Bound, key: Key)
    requires TotalOrder(cmp) && Ordered(cmp, t, lo, hi) && WellShaped(t)
    ensures Find(cmp, t, key) == if key in Contents(t) then Some(Contents(t)[key]) else None
    decreases t
  {
    if t.Leaf? {
      LeafHit(cmp, t, lo, hi, key);
    } else {
      var i := UpperBound(cmp, t.keys, key);
      FindIsLookup(cmp, t.kids[i], KidLo(t.keys, lo, i), KidHi(t.keys, hi, i), key);
      KidAnswers(cmp, t, lo, hi, key);
    }
  }

  /** The child the separators lead to knows about `key` what the whole branch knows. */
  lemma {:induction false} KidAnswers(cmp: Cmp, t: Tree, lo: Bound, hi: Bound, key: Key)
    requires TotalOrder(cmp) && Ordered(cmp, t, lo, hi) && t.Branch?
    ensures var c := t.kids[UpperBound(cmp, t.keys, key)];
            && (key in Contents(t) <==> key in Contents(c))
            && (key in Contents(c) ==> Contents(t)[key] == Contents(c)[key])
  {
    ElsewhereAbsent(cmp, t, lo, hi, key);
    MiddleAnswers(t.kids, UpperBound(cmp, t.keys, key), key);
  }

  lemma {:induction false} MiddleAnswers(kids: seq<Tree>, i: nat, key: Key)
    requires i < |kids| && key !in ContentsAll(kids[..i]) && key !in ContentsAll(kids[i + 1..])
    ensures key in ContentsAll(kids) <==> key in Contents(kids[i])
    ensures key in Contents(kids[i]) ==> ContentsAll(kids)[key] == Contents(kids[i])[key]
  {
    ContentsAround(kids, i);
  }

  /** In a leaf the lower bound finds the key whenever it is there. */
  lemma {:induction false} LeafHit(cmp: Cmp, t: Tree, lo: Bound, hi: Bound, key: Key)
    requires TotalOrder(cmp) && Ordered(cmp, t, lo, hi) && t.Leaf?
    ensures var i := LowerBound(cmp, t.keys, key);
            (i < |t.keys| && t.keys[i] == key) <==> key in Contents(t)
    ensures var i := LowerBound(cmp, t.keys, key);
            key in Contents(t) ==> Contents(t)[key] == t.ptrs[i]
  {
    var i := LowerBound(cmp, t.keys, key);
    if key in Contents(t) {
      var j := IndexOf(t.keys, key);
      assert cmp(t.keys[j], key) == 0 && i <= j;
      LowerBoundAbove(cmp, t.keys, key, j);
    } else if i < |t.keys| && t.keys[i] == key {
      LeafMapAt(cmp, t.keys, t.ptrs, i);
    }
  }
}
