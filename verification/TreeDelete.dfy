/**
 Deletion refines map removal, and the exact condition under which the borrow step of the source
 fails with an index error.
 */
module TreeDelete {
  import opened KeyOrder
  import opened PageFormat
  import opened CowTree
  import opened TreeOrder
  import opened TreeInsert

  // ---------------------------------------------------------------- removal from a leaf

  lemma {:induction false} RemoveIncreasing(cmp: Cmp, keys: seq<Key>, i: nat)
    requires Increasing(cmp, keys) && i < |keys|
    ensures Increasing(cmp, RemoveAt(keys, i))
  {
    var keys' := RemoveAt(keys, i);
    forall p, q | 0 <= p < q < |keys'|
      ensures cmp(keys'[p], keys'[q]) < 0
    {
      assert keys'[p] == keys[if p < i then p else p + 1] && keys'[q] == keys[if q < i then q else q + 1];
    }
  }

  lemma {:induction false} LeafRemove(cmp: Cmp, keys: seq<Key>, ptrs: seq<Pointer>, i: nat)
    requires TotalOrder(cmp) && Increasing(cmp, keys) && |keys| == |ptrs| && i < |keys|
    ensures LeafMap(RemoveAt(keys, i), RemoveAt(ptrs, i)) == LeafMap(keys, ptrs) - {keys[i]}
  {
    var keys', ptrs' := RemoveAt(keys, i), RemoveAt(ptrs, i);
    InsertRemove(keys, i);
    InsertRemove(ptrs, i);
    RemoveIncreasing(cmp, keys, i);
    LeafAdd(cmp, keys', ptrs', i, keys[i], ptrs[i]);
    RemovedAbsent(cmp, keys, i);
    RemoveAdded(LeafMap(keys', ptrs'), keys[i], ptrs[i]);
  }

  lemma {:induction false} InsertRemove<T>(s: seq<T>, i: nat)
    requires i < |s|
    ensures InsertAt(RemoveAt(s, i), i, s[i]) == s
  {
  }

  lemma {:induction false} RemovedAbsent(cmp: Cmp, keys: seq<Key>, i: nat)
    requires TotalOrder(cmp) && Increasing(cmp, keys) && i < |keys|
    ensures keys[i] !in RemoveAt(keys, i)
  {
    var keys' := RemoveAt(keys, i);
    forall j | 0 <= j < |keys'|
      ensures keys'[j] != keys[i]
    {
      var j' := if j < i then j else j + 1;
      assert keys'[j] == keys[j'];
      assert cmp(keys[j'], keys[i]) != 0;
    }
  }

  lemma {:induction false} RemoveAdded(m: map<Key, Pointer>, k: Key, p: Pointer)
    requires k !in m
    ensures m[k := p] - {k} == m
  {
  }

  // ---------------------------------------------------------------- two neighbours under a parent

  /** The contents around children `l` and `l + 1`. */
  lemma {:induction false} ContentsAroundTwo(kids: seq<Tree>, l: nat)
    requires l + 1 < |kids|
    ensures ContentsAll(kids) ==
            ContentsAll(kids[..l]) + (Contents(kids[l]) + Contents(kids[l + 1])) + ContentsAll(kids[l + 2..])
  {
    var pre, post := kids[..l], kids[l + 2..];
    assert kids == pre + ([kids[l], kids[l + 1]] + post);
    ContentsConcat(pre, [kids[l], kids[l + 1]] + post);
    ContentsTwo(kids[l], kids[l + 1], post);
    MapAssociative(ContentsAll(pre), Contents(kids[l]) + Contents(kids[l + 1]), ContentsAll(post));
  }

  lemma {:induction false} FuseContents(t: Tree, l: nat, c: Tree)
    requires t.Branch? && |t.kids| == |t.keys| + 1 && l + 1 < |t.kids|
    requires Contents(c) == Contents(t.kids[l]) + Contents(t.kids[l + 1])
    ensures Contents(Fuse(t, l, c)) == Contents(t)
  {
    var n := Fuse(t, l, c);
    ContentsAroundTwo(t.kids, l);
    ContentsAround(n.kids, l);
    assert n.kids[..l] == t.kids[..l] && n.kids[l + 1..] == t.kids[l + 2..];
  }

  lemma {:induction false} PairContents(t: Tree, l: nat, c: Tree, sep: Key, d: Tree)
    requires t.Branch? && |t.kids| == |t.keys| + 1 && l + 1 < |t.kids|
    requires Contents(c) + Contents(d) == Contents(t.kids[l]) + Contents(t.kids[l + 1])
    ensures Contents(Pair(t, l, c, sep, d)) == Contents(t)
  {
    var n := Pair(t, l, c, sep, d);
    ContentsAroundTwo(t.kids, l);
    ContentsAroundTwo(n.kids, l);
    assert n.kids[..l] == t.kids[..l] && n.kids[l + 2..] == t.kids[l + 2..];
  }

  lemma {:induction false} FuseOrdered(cmp: Cmp, t: Tree, lo: Bound, hi: Bound, l: nat, c: Tree)
    requires t.Branch? && Ordered(cmp, t, lo, hi) && l + 1 < |t.kids|
    requires Ordered(cmp, c, KidLo(t.keys, lo, l), KidHi(t.keys, hi, l + 1))
    ensures Ordered(cmp, Fuse(t, l, c), lo, hi)
  {
    var n := Fuse(t, l, c);
    forall j | 0 <= j < |n.keys|
      ensures n.keys[j] == t.keys[if j < l then j else j + 1]
    {
    }
    forall j | 0 <= j < |n.kids|
      ensures Ordered(cmp, n.kids[j], KidLo(n.keys, lo, j), KidHi(n.keys, hi, j))
    {
      FuseKid(cmp, t, lo, hi, l, c, j);
    }
  }

  lemma {:induction false} FuseKid(cmp: Cmp, t: Tree, lo: Bound, hi: Bound, l: nat, c: Tree, j: nat)
    requires t.Branch? && Ordered(cmp, t, lo, hi) && l + 1 < |t.kids| && j + 1 < |t.kids|
    requires Ordered(cmp, c, KidLo(t.keys, lo, l), KidHi(t.keys, hi, l + 1))
    ensures var n := Fuse(t, l, c); Ordered(cmp, n.kids[j], KidLo(n.keys, lo, j), KidHi(n.keys, hi, j))
  {
    var n := Fuse(t, l, c);
    FuseBounds(t.keys, lo, hi, l, j);
    if j < l {
      assert n.kids[j] == t.kids[j];
    } else if j > l {
      assert n.kids[j] == t.kids[j + 1];
    }
  }

  lemma {:induction false} FuseBounds(keys: seq<Key>, lo: Bound, hi: Bound, l: nat, j: nat)
    requires l < |keys| && j < |keys|
    ensures KidLo(RemoveAt(keys, l), lo, j) == KidLo(keys, lo, if j <= l then j else j + 1)
    ensures KidHi(RemoveAt(keys, l), hi, j) == KidHi(keys, hi, if j < l then j else j + 1)
  {
  }

  lemma {:induction false} ReplaceNonDecreasing(cmp: Cmp, keys: seq<Key>, l: nat, sep: Key)
    requires TotalOrder(cmp) && NonDecreasing(cmp, keys) && l < |keys|
    requires l > 0 ==> cmp(keys[l - 1], sep) <= 0
    requires l + 1 < |keys| ==> cmp(sep, keys[l + 1]) <= 0
    ensures NonDecreasing(cmp, keys[l := sep])
  {
    var keys' := keys[l := sep];
    forall p, q | 0 <= p < q < |keys'|
      ensures cmp(keys'[p], keys'[q]) <= 0
    {
      if q == l && p < l - 1 {
        Transitive(cmp, keys[p], keys[l - 1], sep);
      }
      if p == l && q > l + 1 {
        Transitive(cmp, sep, keys[l + 1], keys[q]);
      }
    }
  }

  /** A separator between the outer bounds of two neighbours lies within the bounds of the parent. */
  lemma {:induction false} PairSeparator(cmp: Cmp, t: Tree, lo: Bound, hi: Bound, l: nat, sep: Key)
    requires TotalOrder(cmp) && t.Branch? && Ordered(cmp, t, lo, hi) && l + 1 < |t.kids|
    requires From(cmp, KidLo(t.keys, lo, l), sep) && UpTo(cmp, sep, KidHi(t.keys, hi, l + 1))
    ensures From(cmp, lo, sep) && UpTo(cmp, sep, hi)
    ensures NonDecreasing(cmp, t.keys[l := sep])
  {
    ReplaceNonDecreasing(cmp, t.keys, l, sep);
    if l > 0 && lo.At? {
      Transitive(cmp, lo.key, t.keys[l - 1], sep);
    }
    if l + 1 < |t.keys| && hi.At? {
      Transitive(cmp, sep, t.keys[l + 1], hi.key);
    }
  }

  lemma {:induction false} PairOrdered(cmp: Cmp, t: Tree, lo: Bound, hi: Bound, l: nat, c: Tree, sep: Key, d: Tree)
    requires TotalOrder(cmp) && t.Branch? && Ordered(cmp, t, lo, hi) && l + 1 < |t.kids|
    requires From(cmp, KidLo(t.keys, lo, l), sep) && UpTo(cmp, sep, KidHi(t.keys, hi, l + 1))
    requires Ordered(cmp, c, KidLo(t.keys, lo, l), At(sep)) && Ordered(cmp, d, At(sep), KidHi(t.keys, hi, l + 1))
    ensures Ordered(cmp, Pair(t, l, c, sep, d), lo, hi)
  {
    var n := Pair(t, l, c, sep, d);
    PairSeparator(cmp, t, lo, hi, l, sep);
    forall j | 0 <= j < |n.kids|
      ensures Ordered(cmp, n.kids[j], KidLo(n.keys, lo, j), KidHi(n.keys, hi, j))
    {
      PairKid(cmp, t, lo, hi, l, c, sep, d, j);
    }
  }

  lemma {:induction false} PairKid(cmp: Cmp, t: Tree, lo: Bound, hi: Bound, l: nat, c: Tree, sep: Key, d: Tree, j: nat)
    requires t.Branch? && Ordered(cmp, t, lo, hi) && l + 1 < |t.kids| && j < |t.kids|
    requires Ordered(cmp, c, KidLo(t.keys, lo, l), At(sep)) && Ordered(cmp, d, At(sep), KidHi(t.keys, hi, l + 1))
    ensures var n := Pair(t, l, c, sep, d); Ordered(cmp, n.kids[j], KidLo(n.keys, lo, j), KidHi(n.keys, hi, j))
  {
    var n := Pair(t, l, c, sep, d);
    if j < l || j > l + 1 {
      assert n.kids[j] == t.kids[j];
    }
  }

  // ---------------------------------------------------------------- entries of two neighbours, in order

  /** The keys of two neighbouring leaves, one after the other, increase. */
  lemma {:induction false} NeighbourLeaves(cmp: Cmp, left: Tree, right: Tree, lo: Bound, sep: Key, hi: Bound)
    requires TotalOrder(cmp) && left.Leaf? && right.Leaf?
    requires Ordered(cmp, left, lo, At(sep)) && Ordered(cmp, right, At(sep), hi)
    requires From(cmp, lo, sep) && UpTo(cmp, sep, hi)
    ensures Increasing(cmp, left.keys + right.keys)
    ensures forall i :: 0 <= i < |left.keys + right.keys| ==>
              From(cmp, lo, (left.keys + right.keys)[i]) && Below(cmp, (left.keys + right.keys)[i], hi)
  {
    var keys := left.keys + right.keys;
    forall i, j | 0 <= i < |left.keys| && 0 <= j < |right.keys|
      ensures cmp(left.keys[i], right.keys[j]) < 0
    {
      Transitive(cmp, left.keys[i], sep, right.keys[j]);
    }
    forall i | 0 <= i < |keys|
      ensures From(cmp, lo, keys[i]) && Below(cmp, keys[i], hi)
    {
      if i < |left.keys| {
        if hi.At? {
          Transitive(cmp, keys[i], sep, hi.key);
        }
      } else if lo.At? {
        Transitive(cmp, lo.key, sep, keys[i]);
      }
    }
  }

  /** Two neighbouring branches and the separator between them, as one branch. */
  lemma {:induction false} NeighbourBranches(cmp: Cmp, left: Tree, right: Tree, lo: Bound, sep: Key, hi: Bound, n: Tree)
    requires TotalOrder(cmp) && left.Branch? && right.Branch?
    requires Ordered(cmp, left, lo, At(sep)) && Ordered(cmp, right, At(sep), hi)
    requires From(cmp, lo, sep) && UpTo(cmp, sep, hi)
    requires n.Branch? && n.keys == left.keys + [sep] + right.keys && n.kids == left.kids + right.kids
    ensures Ordered(cmp, n, lo, hi)
  {
    var m := |left.keys|;
    NeighbourKeys(cmp, left, right, lo, sep, hi);
    forall j | 0 <= j < |n.kids|
      ensures Ordered(cmp, n.kids[j], KidLo(n.keys, lo, j), KidHi(n.keys, hi, j))
    {
      if j <= m {
        assert n.kids[j] == left.kids[j];
        assert KidHi(n.keys, hi, j) == KidHi(left.keys, At(sep), j);
      } else {
        assert n.kids[j] == right.kids[j - m - 1];
        assert KidLo(n.keys, lo, j) == KidLo(right.keys, At(sep), j - m - 1);
        assert KidHi(n.keys, hi, j) == KidHi(right.keys, hi, j - m - 1);
      }
    }
  }

  lemma {:induction false} NeighbourKeys(cmp: Cmp, left: Tree, right: Tree, lo: Bound, sep: Key, hi: Bound)
    requires TotalOrder(cmp) && left.Branch? && right.Branch?
    requires Ordered(cmp, left, lo, At(sep)) && Ordered(cmp, right, At(sep), hi)
    requires From(cmp, lo, sep) && UpTo(cmp, sep, hi)
    ensures var keys := left.keys + [sep] + right.keys;
            && NonDecreasing(cmp, keys)
            && forall i :: 0 <= i < |keys| ==> From(cmp, lo, keys[i]) && UpTo(cmp, keys[i], hi)
  {
    var keys := left.keys + [sep] + right.keys;
    var m := |left.keys|;
    forall i | 0 <= i < |keys|
      ensures i < m ==> cmp(keys[i], sep) <= 0
      ensures i > m ==> cmp(sep, keys[i]) <= 0
      ensures From(cmp, lo, keys[i]) && UpTo(cmp, keys[i], hi)
    {
      if i < m {
        if hi.At? {
          Transitive(cmp, keys[i], sep, hi.key);
        }
      } else if i > m {
        assert keys[i] == right.keys[i - m - 1];
        if lo.At? {
          Transitive(cmp, lo.key, sep, keys[i]);
        }
      }
    }
    forall i, j | 0 <= i < j < |keys|
      ensures cmp(keys[i], keys[j]) <= 0
    {
      if i < m < j {
        Transitive(cmp, keys[i], sep, keys[j]);
      } else if i > m {
        assert keys[i] == right.keys[i - m - 1] && keys[j] == right.keys[j - m - 1];
      }
    }
  }

  // ---------------------------------------------------------------- the join step

  lemma {:induction false} JoinLeaves(cmp: Cmp, t: Tree, lo: Bound, hi: Bound, l: nat, g: nat, a: Alloc, h: nat)
    requires TotalOrder(cmp) && Ordered(cmp, t, lo, hi) && Balanced(t, h) && t.Branch? && l + 1 < |t.kids|
    requires t.kids[l].Leaf? && Join(t, l, g, a, h).Done?
    ensures Ordered(cmp, Join(t, l, g, a, h).t, lo, hi)
    ensures Contents(Join(t, l, g, a, h).t) == Contents(t)
  {
    var left, right := t.kids[l], t.kids[l + 1];
    assert Balanced(left, h - 1) && Balanced(right, h - 1);
    var lo', hi' := KidLo(t.keys, lo, l), KidHi(t.keys, hi, l + 1);
    assert Ordered(cmp, left, lo', At(t.keys[l])) && Ordered(cmp, right, At(t.keys[l]), hi');
    NeighbourLeaves(cmp, left, right, lo', t.keys[l], hi');
    LeafConcat(cmp, left.keys, left.ptrs, right.keys, right.ptrs);
    var n := Join(t, l, g, a, h).t;
    if |left.keys| + |right.keys| <= 20 {
      FuseOrdered(cmp, t, lo, hi, l, n.kids[l]);
      FuseContents(t, l, n.kids[l]);
    } else {
      var c, d, sep := n.kids[l], n.kids[l + 1], right.keys[1];
      BorrowLeaf(cmp, left, right, lo', hi', c, d);
      PairOrdered(cmp, t, lo, hi, l, c, sep, d);
      PairContents(t, l, c, sep, d);
    }
  }

  /** Moving the first entry of the right leaf to the left one. */
  lemma {:induction false} BorrowLeaf(cmp: Cmp, left: Tree, right: Tree, lo: Bound, hi: Bound, c: Tree, d: Tree)
    requires TotalOrder(cmp) && left.Leaf? && right.Leaf? && |left.keys| == |left.ptrs| && |right.keys| == |right.ptrs|
    requires Increasing(cmp, left.keys + right.keys) && |right.keys| >= 2
    requires forall i :: 0 <= i < |left.keys + right.keys| ==>
               From(cmp, lo, (left.keys + right.keys)[i]) && Below(cmp, (left.keys + right.keys)[i], hi)
    requires c.Leaf? && c.keys == left.keys + [right.keys[0]] && c.ptrs == left.ptrs + [right.ptrs[0]]
    requires d.Leaf? && d.keys == right.keys[1..] && d.ptrs == right.ptrs[1..]
    ensures Ordered(cmp, c, lo, At(right.keys[1])) && Ordered(cmp, d, At(right.keys[1]), hi)
    ensures From(cmp, lo, right.keys[1]) && UpTo(cmp, right.keys[1], hi)
    ensures Contents(c) + Contents(d) == LeafMap(left.keys + right.keys, left.ptrs + right.ptrs)
  {
    var keys := left.keys + right.keys;
    var m := |left.keys|;
    assert c.keys + d.keys == keys && c.ptrs + d.ptrs == left.ptrs + right.ptrs;
    LeafConcat(cmp, c.keys, c.ptrs, d.keys, d.ptrs);
    IncreasingParts(cmp, c.keys, d.keys);
    assert right.keys[1] == keys[m + 1];
    forall i | 0 <= i < |c.keys|
      ensures cmp(c.keys[i], right.keys[1]) < 0 && From(cmp, lo, c.keys[i])
    {
      assert c.keys[i] == keys[i];
    }
    forall i | 0 <= i < |d.keys|
      ensures cmp(right.keys[1], d.keys[i]) <= 0 && Below(cmp, d.keys[i], hi)
    {
      assert d.keys[i] == keys[m + 1 + i];
    }
  }

  lemma {:induction false} JoinBranches(cmp: Cmp, t: Tree, lo: Bound, hi: Bound, l: nat, g: nat, a: Alloc, h: nat)
    requires TotalOrder(cmp) && Ordered(cmp, t, lo, hi) && Balanced(t, h) && t.Branch? && l + 1 < |t.kids|
    requires t.kids[l].Branch? && Join(t, l, g, a, h).Done?
    ensures Ordered(cmp, Join(t, l, g, a, h).t, lo, hi)
    ensures Contents(Join(t, l, g, a, h).t) == Contents(t)
  {
    var left, right, mid := t.kids[l], t.kids[l + 1], t.keys[l];
    assert Balanced(left, h - 1) && Balanced(right, h - 1);
    var lo', hi' := KidLo(t.keys, lo, l), KidHi(t.keys, hi, l + 1);
    var all := Branch(0, 0, left.keys + [mid] + right.keys, left.kids + right.kids);
    NeighbourBranches(cmp, left, right, lo', mid, hi', all);
    ContentsConcat(left.kids, right.kids);
    var n := Join(t, l, g, a, h).t;
    if |left.keys| + |right.keys| + 1 <= 20 {
      FuseOrdered(cmp, t, lo, hi, l, n.kids[l]);
      FuseContents(t, l, n.kids[l]);
    } else {
      var c, d, sep := n.kids[l], n.kids[l + 1], right.keys[0];
      BorrowBranch(cmp, left, right, mid, lo', hi', all, c, d);
      PairOrdered(cmp, t, lo, hi, l, c, sep, d);
      PairContents(t, l, c, sep, d);
    }
  }

  /** Moving the first child of the right branch to the left one, through the parent. */
  lemma {:induction false} BorrowBranch(cmp: Cmp, left: Tree, right: Tree, mid: Key, lo: Bound, hi: Bound, all: Tree,
                                        c: Tree, d: Tree)
    requires TotalOrder(cmp) && left.Branch? && right.Branch? && |left.kids| == |left.keys| + 1
    requires |right.kids| == |right.keys| + 1 && |right.keys| >= 1
    requires all.Branch? && all.keys == left.keys + [mid] + right.keys && all.kids == left.kids + right.kids
    requires Ordered(cmp, all, lo, hi)
    requires c.Branch? && c.keys == left.keys + [mid] && c.kids == left.kids + [right.kids[0]]
    requires d.Branch? && d.keys == right.keys[1..] && d.kids == right.kids[1..]
    ensures Ordered(cmp, c, lo, At(right.keys[0])) && Ordered(cmp, d, At(right.keys[0]), hi)
    ensures From(cmp, lo, right.keys[0]) && UpTo(cmp, right.keys[0], hi)
    ensures Contents(c) + Contents(d) == Contents(all)
  {
    var m := |left.keys| + 1;
    assert all.keys[m] == right.keys[0];
    assert c.keys == all.keys[..m] && c.kids == all.kids[..m + 1];
    assert d.keys == all.keys[m + 1..] && d.kids == all.kids[m + 1..];
    PrefixOrdered(cmp, all, lo, hi, m, c);
    SuffixOrdered(cmp, all, lo, hi, m, d);
    assert all.kids == c.kids + d.kids;
    ContentsConcat(c.kids, d.kids);
  }

  /** Merging or borrowing keeps search order and changes no entry. */
  lemma {:induction false} RebalanceMeaning(cmp: Cmp, t: Tree, lo: Bound, hi: Bound, i: nat, g: nat, a: Alloc, h: nat)
    requires TotalOrder(cmp) && Ordered(cmp, t, lo, hi) && Balanced(t, h) && t.Branch? && i < |t.kids|
    requires Rebalance(t, i, g, a, h).Done?
    ensures Ordered(cmp, Rebalance(t, i, g, a, h).t, lo, hi)
    ensures Contents(Rebalance(t, i, g, a, h).t) == Contents(t)
  {
    if |t.kids[i].keys| < 2 && |t.kids| > 1 {
      var l := if i > 0 then i - 1 else i;
      if t.kids[l].Leaf? {
        JoinLeaves(cmp, t, lo, hi, l, g, a, h);
      } else {
        JoinBranches(cmp, t, lo, hi, l, g, a, h);
      }
    }
  }

  // ---------------------------------------------------------------- the theorem

  lemma {:induction false} ReplaceKidOrdered(cmp: Cmp, t: Tree, lo: Bound, hi: Bound, i: nat, c: Tree, n: Tree)
    requires t.Branch? && Ordered(cmp, t, lo, hi) && i < |t.kids|
    requires Ordered(cmp, c, KidLo(t.keys, lo, i), KidHi(t.keys, hi, i))
    requires n.Branch? && n.keys == t.keys && n.kids == t.kids[i := c]
    ensures Ordered(cmp, n, lo, hi)
  {
  }

  lemma {:induction false} LeafRemoves(cmp: Cmp, t: Tree, lo: Bound, hi: Bound, i: nat, n: Tree)
    requires TotalOrder(cmp) && t.Leaf? && Ordered(cmp, t, lo, hi) && i < |t.keys|
    requires n.Leaf? && n.keys == RemoveAt(t.keys, i) && n.ptrs == RemoveAt(t.ptrs, i)
    ensures Ordered(cmp, n, lo, hi) && Contents(n) == Contents(t) - {t.keys[i]}
  {
    RemoveIncreasing(cmp, t.keys, i);
    LeafRemove(cmp, t.keys, t.ptrs, i);
    forall j | 0 <= j < |n.keys|
      ensures From(cmp, lo, n.keys[j]) && Below(cmp, n.keys[j], hi)
    {
      assert n.keys[j] == t.keys[if j < i then j else j + 1];
    }
  }

  /** One level of a deletion, given what it did to the child. */
  lemma {:induction false} BranchRemoves(cmp: Cmp, t: Tree, lo: Bound, hi: Bound, key: Key, c: Tree, id: PageID,
                                         g: nat, a: Alloc, h: nat)
    requires TotalOrder(cmp) && t.Branch? && Balanced(t, h) && Ordered(cmp, t, lo, hi)
    requires var i := UpperBound(cmp, t.keys, key);
             && Ordered(cmp, c, KidLo(t.keys, lo, i), KidHi(t.keys, hi, i)) && Balanced(c, h - 1)
             && Contents(c) == Contents(t.kids[i]) - {key}
    ensures var i := UpperBound(cmp, t.keys, key);
            var n := Branch(id, g, t.keys, t.kids[i := c]);
            && Balanced(n, h)
            && (Rebalance(n, i, g, a, h).Done? ==>
                  && Ordered(cmp, Rebalance(n, i, g, a, h).t, lo, hi)
                  && Contents(Rebalance(n, i, g, a, h).t) == Contents(t) - {key})
  {
    var i := UpperBound(cmp, t.keys, key);
    var n := Branch(id, g, t.keys, t.kids[i := c]);
    ReplaceKidOrdered(cmp, t, lo, hi, i, c, n);
    RemoveFromKid(cmp, t, lo, hi, key, c, n);
    if Rebalance(n, i, g, a, h).Done? {
      RebalanceMeaning(cmp, n, lo, hi, i, g, a, h);
    }
  }

  lemma {:induction false} DeleteAtLeaf(cmp: Cmp, t: Tree, key: Key, g: nat, a: Alloc, h: nat, lo: Bound, hi: Bound)
    requires TotalOrder(cmp) && Balanced(t, h) && Ordered(cmp, t, lo, hi) && t.Leaf?
    requires Delete(cmp, t, key, g, a, h).Done?
    ensures Ordered(cmp, Delete(cmp, t, key, g, a, h).t, lo, hi)
    ensures Contents(Delete(cmp, t, key, g, a, h).t) == Contents(t) - {key}
  {
    LeafRemoves(cmp, t, lo, hi, LowerBound(cmp, t.keys, key), Delete(cmp, t, key, g, a, h).t);
  }

  /** A deletion that completes removes exactly the given key and keeps search order. */
  lemma {:induction false} DeleteRemoves(cmp: Cmp, t: Tree, key: Key, g: nat, a: Alloc, h: nat, lo: Bound, hi: Bound)
    requires TotalOrder(cmp) && Balanced(t, h) && Ordered(cmp, t, lo, hi)
    requires Delete(cmp, t, key, g, a, h).Done?
    ensures Ordered(cmp, Delete(cmp, t, key, g, a, h).t, lo, hi)
    ensures Contents(Delete(cmp, t, key, g, a, h).t) == Contents(t) - {key}
    decreases t
  {
    if t.Leaf? {
      DeleteAtLeaf(cmp, t, key, g, a, h, lo, hi);
    } else {
      var (id, a1) := Touch(t.id, t.gen, g, a);
      var i := UpperBound(cmp, t.keys, key);
      DeleteAtBranch(cmp, t, key, g, a, h);
      var child := Delete(cmp, t.kids[i], key, g, a1, h - 1);
      assert child.Done?;
      DeleteRemoves(cmp, t.kids[i], key, g, a1, h - 1, KidLo(t.keys, lo, i), KidHi(t.keys, hi, i));
      BranchRemoves(cmp, t, lo, hi, key, child.t, id, g, child.a, h);
    }
  }

  lemma {:induction false} RemoveFromKid(cmp: Cmp, t: Tree, lo: Bound, hi: Bound, key: Key, c: Tree, n: Tree)
    requires TotalOrder(cmp) && t.Branch? && Ordered(cmp, t, lo, hi)
    requires Contents(c) == Contents(t.kids[UpperBound(cmp, t.keys, key)]) - {key}
    requires n.Branch? && n.kids == t.kids[UpperBound(cmp, t.keys, key) := c]
    ensures Contents(n) == Contents(t) - {key}
  {
    var i := UpperBound(cmp, t.keys, key);
    ContentsAround(t.kids, i);
    ContentsAround(n.kids, i);
    assert n.kids[..i] == t.kids[..i] && n.kids[i + 1..] == t.kids[i + 1..];
    ElsewhereAbsent(cmp, t, lo, hi, key);
    RemoveMiddle(ContentsAll(t.kids[..i]), Contents(t.kids[i]), ContentsAll(t.kids[i + 1..]), key);
  }

  lemma {:induction false} RemoveMiddle(a: map<Key, Pointer>, b: map<Key, Pointer>, c: map<Key, Pointer>, k: Key)
    requires k !in a && k !in c
    ensures a + (b - {k}) + c == (a + b + c) - {k}
  {
  }

  /** A deletion reports a missing key exactly when the key is not there. */
  lemma {:induction false} DeleteMissing(cmp: Cmp, t: Tree, key: Key, g: nat, a: Alloc, h: nat, lo: Bound, hi: Bound)
    requires TotalOrder(cmp) && Balanced(t, h) && Ordered(cmp, t, lo, hi)
    ensures Delete(cmp, t, key, g, a, h).Missing? <==> key !in Contents(t)
    decreases t
  {
    if t.Leaf? {
      LeafHit(cmp, t, lo, hi, key);
    } else {
      var (id, a1) := Touch(t.id, t.gen, g, a);
      var i := UpperBound(cmp, t.keys, key);
      DeleteMissing(cmp, t.kids[i], key, g, a1, h - 1, KidLo(t.keys, lo, i), KidHi(t.keys, hi, i));
      KidAnswers(cmp, t, lo, hi, key);
    }
  }

  // ---------------------------------------------------------------- when the borrow step fails

  /** Separators of `t` after child `i` shrank to `n` keys: one less if the child is merged with a sibling. */
  function KeysLeft(t: Tree, i: nat, n: int): int
    requires t.Branch? && i < |t.kids|
  {
    if n >= 2 || |t.kids| == 1 then |t.keys|
    else
      var sibling := if i > 0 then t.kids[i - 1] else t.kids[i + 1];
      if |sibling.keys| + n + (if sibling.Leaf? then 0 else 1) <= 20 then |t.keys| - 1 else |t.keys|
  }

  /** Child `i`, shrunk to `n` keys, has a left sibling too full to merge with and nothing of its own to lend. */
  predicate Stuck(t: Tree, i: nat, n: int)
    requires t.Branch? && i < |t.kids|
  {
    i > 0 &&
    var left := t.kids[i - 1];
    if left.Leaf? then n < 2 && |left.keys| + n > 20 else n < 1 && |left.keys| + n + 1 > 20
  }

  /** Keys left in the root of `t` once `key` is deleted below it. */
  function KeysAfter(cmp: Cmp, t: Tree, key: Key): int
    requires WellShaped(t)
    decreases t
  {
    if t.Leaf? then |t.keys| - 1
    else
      var i := UpperBound(cmp, t.keys, key);
      KeysLeft(t, i, KeysAfter(cmp, t.kids[i], key))
  }

  /** Read off the tree before the call: some node on the path to `key` will be stuck. */
  predicate BorrowFails(cmp: Cmp, t: Tree, key: Key)
    requires WellShaped(t)
    decreases t
  {
    t.Branch? &&
    var i := UpperBound(cmp, t.keys, key);
    BorrowFails(cmp, t.kids[i], key) || Stuck(t, i, KeysAfter(cmp, t.kids[i], key))
  }

  lemma {:induction false} RebalanceOutcome(t: Tree, i: nat, g: nat, a: Alloc, h: nat)
    requires Balanced(t, h) && t.Branch? && i < |t.kids|
    ensures Rebalance(t, i, g, a, h).Panic? <==> Stuck(t, i, |t.kids[i].keys|)
    ensures Rebalance(t, i, g, a, h).Done? ==> |Rebalance(t, i, g, a, h).t.keys| == KeysLeft(t, i, |t.kids[i].keys|)
  {
    assert Balanced(t.kids[i], h - 1);
    if i > 0 {
      assert Balanced(t.kids[i - 1], h - 1);
    } else if i + 1 < |t.kids| {
      assert Balanced(t.kids[i + 1], h - 1);
    }
  }

  /** Neither count looks at child `i` itself. */
  lemma {:induction false} SiblingsOnly(t: Tree, n: Tree, i: nat, c: Tree, k: int)
    requires t.Branch? && i < |t.kids| && |t.kids| == |t.keys| + 1
    requires n.Branch? && n.keys == t.keys && n.kids == t.kids[i := c]
    ensures Stuck(n, i, k) == Stuck(t, i, k) && KeysLeft(n, i, k) == KeysLeft(t, i, k)
  {
  }

  /** Deleting a present key fails exactly when `BorrowFails` holds before the call. */
  lemma {:induction false} DeletePanics(cmp: Cmp, t: Tree, key: Key, g: nat, a: Alloc, h: nat)
    requires Balanced(t, h) && WellShaped(t)
    requires !Delete(cmp, t, key, g, a, h).Missing?
    ensures Delete(cmp, t, key, g, a, h).Panic? <==> BorrowFails(cmp, t, key)
    ensures Delete(cmp, t, key, g, a, h).Done? ==> |Delete(cmp, t, key, g, a, h).t.keys| == KeysAfter(cmp, t, key)
    decreases t
  {
    if t.Branch? {
      var (id, a1) := Touch(t.id, t.gen, g, a);
      var i := UpperBound(cmp, t.keys, key);
      DeletePanics(cmp, t.kids[i], key, g, a1, h - 1);
      var child := Delete(cmp, t.kids[i], key, g, a1, h - 1);
      if child.Done? {
        var n := Moved(t, id, g).(kids := t.kids[i := child.t]);
        RebalanceOutcome(n, i, g, child.a, h);
        SiblingsOnly(t, n, i, child.t, |child.t.keys|);
      }
    }
  }

  /**
   Two leaves under one root, the left one with at least 20 keys, the right one with two: deleting from the
   right fails.
   */
  lemma {:induction false} DeleteFailsBesideFullLeaf(cmp: Cmp, t: Tree, key: Key, g: nat, a: Alloc, lo: Bound,
                                                     hi: Bound)
    requires TotalOrder(cmp) && Balanced(t, 1) && WellShaped(t) && Ordered(cmp, t, lo, hi)
    requires |t.kids| == 2 && |t.kids[0].keys| >= 20 && |t.kids[1].keys| == 2 && key in t.kids[1].keys
    ensures key in Contents(t) && Delete(cmp, t, key, g, a, 1).Panic?
  {
    var right := t.kids[1];
    assert Balanced(right, 0);
    LeafMapAt(cmp, right.keys, right.ptrs, IndexOf(right.keys, key));
    OnlyKid(cmp, t, lo, hi, key, 1);
    ContentsAround(t.kids, 1);
    DeleteMissing(cmp, t, key, g, a, 1, lo, hi);
    DeletePanics(cmp, t, key, g, a, 1);
  }
}
