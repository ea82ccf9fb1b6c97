/**
 Within one generation a node is copied at most once: an insertion leaves the whole path of its key on
 nodes of its generation, and an insertion along such a path is made in place.
 */
module InsertAgain {
  import opened KeyOrder
  import opened PageFormat
  import opened CowTree
  import opened TreeOrder
  import opened TreeInsert
  import opened IndexFile

  /** The path to `key` in what an insertion made of a node. */
  predicate GrownCurrent(cmp: Cmp, r: Grown, key: Key, g: nat)
    requires WellShaped(r.t) && (r.Two? ==> WellShaped(r.rest))
  {
    match r
    case One(t, _) => PathCurrent(cmp, t, key, g)
    case Two(t, sep, rest, _) => PathCurrent(cmp, if cmp(key, sep) < 0 then t else rest, key, g)
  }

  lemma {:induction false} BranchPutCurrent(cmp: Cmp, t: Tree, key: Key, child: Grown, g: nat)
    requires TotalOrder(cmp) && t.Branch? && WellShaped(t) && t.gen == g
    requires WellShaped(child.t) && (child.Two? ==> WellShaped(child.rest)) && GrownCurrent(cmp, child, key, g)
    requires var n := BranchPut(t, UpperBound(cmp, t.keys, key), child);
             WellShaped(n) && NonDecreasing(cmp, n.keys)
    ensures PathCurrent(cmp, BranchPut(t, UpperBound(cmp, t.keys, key), child), key, g)
  {
    var i := UpperBound(cmp, t.keys, key);
    var n := BranchPut(t, i, child);
    if child.Two? {
      SeparatorBound(cmp, t.keys, child.sep, key);
      assert n.kids[i] == child.t && n.kids[i + 1] == child.rest;
    } else {
      assert n.kids[i] == child.t;
    }
  }

  /** Where a key belongs when a separator is added where it belonged. */
  lemma {:induction false} SeparatorBound(cmp: Cmp, keys: seq<Key>, sep: Key, key: Key)
    requires TotalOrder(cmp) && NonDecreasing(cmp, InsertAt(keys, UpperBound(cmp, keys, key), sep))
    ensures var i := UpperBound(cmp, keys, key);
            UpperBound(cmp, InsertAt(keys, i, sep), key) == if cmp(key, sep) < 0 then i else i + 1
  {
    var i := UpperBound(cmp, keys, key);
    var more, j := InsertAt(keys, i, sep), if cmp(key, sep) < 0 then i else i + 1;
    assert more[i] == sep;
    assert i < |keys| ==> more[i + 1] == keys[i] && cmp(keys[i], key) > 0;
    assert i > 0 ==> more[i - 1] == keys[i - 1] && cmp(keys[i - 1], key) <= 0;
    UpperBoundUnique(cmp, more, key, j);
  }

  lemma {:induction false} SettleCurrent(cmp: Cmp, t: Tree, key: Key, g: nat, a: Alloc)
    requires TotalOrder(cmp) && WellShaped(t) && (|t.keys| > 0 || Fits(t.Leaf?, t.keys))
    requires t.Branch? ==> NonDecreasing(cmp, t.keys)
    requires PathCurrent(cmp, t, key, g)
    requires var r := Settle(t, g, a); WellShaped(r.t) && (r.Two? ==> WellShaped(r.rest))
    ensures GrownCurrent(cmp, Settle(t, g, a), key, g)
  {
    if t.Branch? && !Fits(false, t.keys) {
      var mid := |t.keys| / 2;
      var (p, a') := Allocate(a);
      CutBound(cmp, t.keys, key, mid);
      KidsCurrent(cmp, t, key, g, mid, t.id, p);
      assert Settle(t, g, a) == Two(Branch(t.id, g, t.keys[..mid], t.kids[..mid + 1]), t.keys[mid],
                                    Branch(p, g, t.keys[mid + 1..], t.kids[mid + 1..]), a');
    }
  }

  /** The halves of a branch, cut at `mid`. */
  lemma {:induction false} KidsCurrent(cmp: Cmp, t: Tree, key: Key, g: nat, mid: nat, id: PageID, p: PageID)
    requires t.Branch? && WellShaped(t) && PathCurrent(cmp, t, key, g) && mid < |t.keys|
    requires var u := UpperBound(cmp, t.keys, key);
             if cmp(key, t.keys[mid]) < 0 then u <= mid && UpperBound(cmp, t.keys[..mid], key) == u
             else u > mid && UpperBound(cmp, t.keys[mid + 1..], key) == u - mid - 1
    ensures var left, right := Branch(id, g, t.keys[..mid], t.kids[..mid + 1]),
                               Branch(p, g, t.keys[mid + 1..], t.kids[mid + 1..]);
            && WellShaped(left) && WellShaped(right)
            && PathCurrent(cmp, if cmp(key, t.keys[mid]) < 0 then left else right, key, g)
  {
    var u := UpperBound(cmp, t.keys, key);
    assert u <= mid ==> t.kids[..mid + 1][u] == t.kids[u];
    assert u > mid ==> t.kids[mid + 1..][u - mid - 1] == t.kids[u];
  }

  /** Where a key belongs when the separators are cut at `mid`. */
  lemma {:induction false} CutBound(cmp: Cmp, keys: seq<Key>, key: Key, mid: nat)
    requires TotalOrder(cmp) && NonDecreasing(cmp, keys) && mid < |keys|
    ensures var u := UpperBound(cmp, keys, key);
            if cmp(key, keys[mid]) < 0 then u <= mid && UpperBound(cmp, keys[..mid], key) == u
            else u > mid && UpperBound(cmp, keys[mid + 1..], key) == u - mid - 1
  {
    if cmp(key, keys[mid]) < 0 {
      BelowMid(cmp, keys, key, mid);
    } else {
      AboveMid(cmp, keys, key, mid);
    }
  }

  lemma {:induction false} BelowMid(cmp: Cmp, keys: seq<Key>, key: Key, mid: nat)
    requires TotalOrder(cmp) && NonDecreasing(cmp, keys) && mid < |keys| && cmp(key, keys[mid]) < 0
    ensures UpperBound(cmp, keys, key) <= mid && UpperBound(cmp, keys[..mid], key) == UpperBound(cmp, keys, key)
  {
    var left, u := keys[..mid], UpperBound(cmp, keys, key);
    assert NonDecreasing(cmp, left);
    assert u < mid ==> left[u] == keys[u];
    assert u > 0 ==> left[u - 1] == keys[u - 1];
    UpperBoundUnique(cmp, left, key, u);
  }

  lemma {:induction false} AboveMid(cmp: Cmp, keys: seq<Key>, key: Key, mid: nat)
    requires TotalOrder(cmp) && NonDecreasing(cmp, keys) && mid < |keys| && cmp(key, keys[mid]) >= 0
    ensures var u := UpperBound(cmp, keys, key); u > mid && UpperBound(cmp, keys[mid + 1..], key) == u - mid - 1
  {
    var right, u := keys[mid + 1..], UpperBound(cmp, keys, key);
    if u <= mid {
      UpperBoundAbove(cmp, keys, key, mid);
    }
    assert NonDecreasing(cmp, right);
    assert u < |keys| ==> right[u - mid - 1] == keys[u];
    assert u > mid + 1 ==> right[u - mid - 2] == keys[u - 1];
    UpperBoundUnique(cmp, right, key, u - mid - 1);
  }

  /** A balanced search tree of height `h` in which `key` belongs. */
  ghost predicate Under(cmp: Cmp, t: Tree, lo: Bound, hi: Bound, h: nat, key: Key) {
    WellShaped(t) && Balanced(t, h) && Ordered(cmp, t, lo, hi) && From(cmp, lo, key) && Below(cmp, key, hi)
  }

  lemma {:induction false} KidUnder(cmp: Cmp, t: Tree, lo: Bound, hi: Bound, h: nat, key: Key)
    requires TotalOrder(cmp) && t.Branch? && Under(cmp, t, lo, hi, h, key)
    ensures var i := UpperBound(cmp, t.keys, key);
            i < |t.kids| && h > 0 && Under(cmp, t.kids[i], KidLo(t.keys, lo, i), KidHi(t.keys, hi, i), h - 1, key)
  {
  }

  /** What an insertion makes of a node, on nodes of its generation along the path. */
  ghost predicate Renewed(cmp: Cmp, r: Grown, key: Key, g: nat) {
    WellShaped(r.t) && (r.Two? ==> WellShaped(r.rest)) && GrownCurrent(cmp, r, key, g)
  }

  /** After an insertion the path to its key is of its generation. */
  lemma {:induction false} InsertCurrent(cmp: Cmp, t: Tree, key: Key, ptr: Pointer, g: nat, a: Alloc, lo: Bound,
                                         hi: Bound, h: nat)
    requires TotalOrder(cmp) && Under(cmp, t, lo, hi, h, key)
    ensures Renewed(cmp, Insert(cmp, t, key, ptr, g, a), key, g)
    decreases t
  {
    if t.Leaf? {
      LeafCurrent(cmp, t, key, ptr, g, a, h);
    } else {
      var (id, a1) := Touch(t.id, t.gen, g, a);
      var i := UpperBound(cmp, t.keys, key);
      KidUnder(cmp, t, lo, hi, h, key);
      KidInserted(cmp, t.kids[i], key, ptr, g, a1, KidLo(t.keys, lo, i), KidHi(t.keys, hi, i), h - 1);
      InsertCurrent(cmp, t.kids[i], key, ptr, g, a1, KidLo(t.keys, lo, i), KidHi(t.keys, hi, i), h - 1);
      var child := Insert(cmp, t.kids[i], key, ptr, g, a1);
      var n := Branch(id, g, t.keys, t.kids);
      MovedUnder(cmp, t, id, g, lo, hi, h, key);
      NodeCurrent(cmp, n, lo, hi, h, key, child, g);
      assert Insert(cmp, t, key, ptr, g, a) == Settle(BranchPut(n, i, child), g, child.a);
    }
  }

  lemma {:induction false} LeafCurrent(cmp: Cmp, t: Tree, key: Key, ptr: Pointer, g: nat, a: Alloc, h: nat)
    requires t.Leaf? && WellShaped(t) && Balanced(t, h)
    ensures Renewed(cmp, Insert(cmp, t, key, ptr, g, a), key, g)
  {
    InsertBalanced(cmp, t, key, ptr, g, a, h);
    GrownShapes(Insert(cmp, t, key, ptr, g, a), h);
  }

  /** A node keeps its place when it moves to another page and generation. */
  lemma {:induction false} MovedUnder(cmp: Cmp, t: Tree, id: PageID, g: nat, lo: Bound, hi: Bound, h: nat, key: Key)
    requires t.Branch? && Under(cmp, t, lo, hi, h, key)
    ensures Under(cmp, Branch(id, g, t.keys, t.kids), lo, hi, h, key)
  {
  }

  lemma {:induction false} KidInserted(cmp: Cmp, t: Tree, key: Key, ptr: Pointer, g: nat, a: Alloc, lo: Bound,
                                       hi: Bound, h: nat)
    requires TotalOrder(cmp) && Under(cmp, t, lo, hi, h, key)
    ensures var r := Insert(cmp, t, key, ptr, g, a); GrownOrdered(cmp, r, lo, hi) && GrownBalanced(r, h)
  {
    InsertOrdered(cmp, t, key, ptr, g, a, lo, hi);
    InsertBalanced(cmp, t, key, ptr, g, a, h);
  }

  lemma {:induction false} NodeCurrent(cmp: Cmp, n: Tree, lo: Bound, hi: Bound, h: nat, key: Key, child: Grown, g: nat)
    requires TotalOrder(cmp) && n.Branch? && Under(cmp, n, lo, hi, h, key) && n.gen == g
    requires var i := UpperBound(cmp, n.keys, key);
             GrownOrdered(cmp, child, KidLo(n.keys, lo, i), KidHi(n.keys, hi, i))
    requires GrownBalanced(child, h - 1) && Renewed(cmp, child, key, g)
    ensures var m := BranchPut(n, UpperBound(cmp, n.keys, key), child);
            (|m.keys| > 0 || Fits(false, m.keys)) && WellShaped(m) && Renewed(cmp, Settle(m, g, child.a), key, g)
  {
    var i := UpperBound(cmp, n.keys, key);
    var m := BranchPut(n, i, child);
    BranchPutOrdered(cmp, n, lo, hi, i, child);
    BranchPutBalanced(n, i, child, h);
    BalancedWellShaped(m, h);
    BranchPutCurrent(cmp, n, key, child, g);
    SettleBalanced(m, g, child.a, h);
    GrownShapes(Settle(m, g, child.a), h);
    SettleCurrent(cmp, m, key, g, child.a);
  }

  lemma {:induction false} GrownShapes(r: Grown, h: nat)
    requires GrownBalanced(r, h)
    ensures WellShaped(r.t) && (r.Two? ==> WellShaped(r.rest))
  {
    BalancedWellShaped(r.t, h);
    if r.Two? {
      BalancedWellShaped(r.rest, h);
    }
  }

  /** All nodes on the path to `key` serialize. */
  predicate PathFits(cmp: Cmp, t: Tree, key: Key)
    requires WellShaped(t)
    decreases t
  {
    Fits(t.Leaf?, t.keys) && (t.Branch? ==> PathFits(cmp, t.kids[UpperBound(cmp, t.keys, key)], key))
  }

  /** Replacing the pointer of a key along such a path takes no page and gives none up. */
  lemma {:induction false} PutInPlace(cmp: Cmp, t: Tree, key: Key, ptr: Pointer, g: nat, a: Alloc, lo: Bound,
                                      hi: Bound)
    requires TotalOrder(cmp) && WellShaped(t) && Ordered(cmp, t, lo, hi) && key in Contents(t)
    requires PathCurrent(cmp, t, key, g) && PathFits(cmp, t, key)
    ensures var r := Insert(cmp, t, key, ptr, g, a); r.One? && r.a == a && r.t.id == t.id && r.t.keys == t.keys
    decreases t
  {
    if t.Leaf? {
      LeafHit(cmp, t, lo, hi, key);
    } else {
      var i := UpperBound(cmp, t.keys, key);
      KidAnswers(cmp, t, lo, hi, key);
      PutInPlace(cmp, t.kids[i], key, ptr, g, a, KidLo(t.keys, lo, i), KidHi(t.keys, hi, i));
    }
  }
}
