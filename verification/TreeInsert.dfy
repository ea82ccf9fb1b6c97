/**
 Insertion refines map update: search order, depth and contents through path copies, leaf splits
 and branch splits.
 */
module TreeInsert {
  import opened KeyOrder
  import opened PageFormat
  import opened CowTree
  import opened TreeOrder

  /** The one or two trees of a result are in order between the bounds. */
  ghost predicate GrownOrdered(cmp: Cmp, r: Grown, lo: Bound, hi: Bound) {
    match r
    case One(t, _) => Ordered(cmp, t, lo, hi)
    case Two(t, sep, rest, _) =>
      && From(cmp, lo, sep) && UpTo(cmp, sep, hi)
      && Ordered(cmp, t, lo, At(sep)) && Ordered(cmp, rest, At(sep), hi)
  }

  ghost function GrownContents(r: Grown): map<Key, Pointer> {
    match r
    case One(t, _) => Contents(t)
    case Two(t, _, rest, _) => Contents(t) + Contents(rest)
  }

  predicate GrownBalanced(r: Grown, h: nat) {
    Balanced(r.t, h) && (r.Two? ==> Balanced(r.rest, h))
  }

  // ---------------------------------------------------------------- leaves

  lemma {:induction false} InsertIncreasing(cmp: Cmp, keys: seq<Key>, key: Key)
    requires TotalOrder(cmp) && Increasing(cmp, keys)
    requires var i := LowerBound(cmp, keys, key); i < |keys| ==> keys[i] != key
    ensures Increasing(cmp, InsertAt(keys, LowerBound(cmp, keys, key), key))
  {
    var i := LowerBound(cmp, keys, key);
    var keys' := InsertAt(keys, i, key);
    forall p, q | 0 <= p < q < |keys'|
      ensures cmp(keys'[p], keys'[q]) < 0
    {
      if p == i {
        LowerBoundAbove(cmp, keys, key, q - 1);
        assert keys'[q] == keys[q - 1];
      }
    }
  }

  lemma {:induction false} LeafPutOrdered(cmp: Cmp, t: Tree, lo: Bound, hi: Bound, key: Key, ptr: Pointer)
    requires TotalOrder(cmp) && t.Leaf? && Ordered(cmp, t, lo, hi)
    requires From(cmp, lo, key) && Below(cmp, key, hi)
    ensures Ordered(cmp, LeafPut(cmp, t, key, ptr), lo, hi)
  {
    var i := LowerBound(cmp, t.keys, key);
    if !(i < |t.keys| && t.keys[i] == key) {
      InsertIncreasing(cmp, t.keys, key);
    }
  }

  /** A map that agrees with the leaf at every position is the contents of the leaf. */
  lemma {:induction false} LeafMapIs(cmp: Cmp, keys: seq<Key>, ptrs: seq<Pointer>, m: map<Key, Pointer>)
    requires TotalOrder(cmp) && Increasing(cmp, keys) && |keys| == |ptrs|
    requires forall i :: 0 <= i < |keys| ==> keys[i] in m && m[keys[i]] == ptrs[i]
    requires forall k :: k in m ==> k in keys
    ensures LeafMap(keys, ptrs) == m
  {
    forall k | k in m
      ensures k in LeafMap(keys, ptrs) && LeafMap(keys, ptrs)[k] == m[k]
    {
      LeafMapAt(cmp, keys, ptrs, IndexOf(keys, k));
    }
  }

  lemma {:induction false} LeafMapAll(cmp: Cmp, keys: seq<Key>, ptrs: seq<Pointer>)
    requires TotalOrder(cmp) && Increasing(cmp, keys) && |keys| == |ptrs|
    ensures forall i :: 0 <= i < |keys| ==> keys[i] in LeafMap(keys, ptrs) && LeafMap(keys, ptrs)[keys[i]] == ptrs[i]
  {
    forall i | 0 <= i < |keys|
      ensures keys[i] in LeafMap(keys, ptrs) && LeafMap(keys, ptrs)[keys[i]] == ptrs[i]
    {
      LeafMapAt(cmp, keys, ptrs, i);
    }
  }

  lemma {:induction false} LeafReplace(cmp: Cmp, keys: seq<Key>, ptrs: seq<Pointer>, i: nat, ptr: Pointer)
    requires TotalOrder(cmp) && Increasing(cmp, keys) && |keys| == |ptrs| && i < |keys|
    ensures LeafMap(keys, ptrs[i := ptr]) == LeafMap(keys, ptrs)[keys[i] := ptr]
  {
    var m := LeafMap(keys, ptrs)[keys[i] := ptr];
    forall j | 0 <= j < |keys|
      ensures keys[j] in m && m[keys[j]] == ptrs[i := ptr][j]
    {
      LeafMapAt(cmp, keys, ptrs, j);
      assert j != i ==> cmp(keys[j], keys[i]) != 0;
    }
    LeafMapIs(cmp, keys, ptrs[i := ptr], m);
  }

  lemma {:induction false} LeafAdd(cmp: Cmp, keys: seq<Key>, ptrs: seq<Pointer>, i: nat, key: Key, ptr: Pointer)
    requires TotalOrder(cmp) && Increasing(cmp, keys) && |keys| == |ptrs| && i <= |keys|
    requires Increasing(cmp, InsertAt(keys, i, key))
    ensures LeafMap(InsertAt(keys, i, key), InsertAt(ptrs, i, ptr)) == LeafMap(keys, ptrs)[key := ptr]
  {
    var m := LeafMap(keys, ptrs)[key := ptr];
    var keys', ptrs' := InsertAt(keys, i, key), InsertAt(ptrs, i, ptr);
    assert keys'[i] == key;
    forall j | 0 <= j < |keys'|
      ensures keys'[j] in m && m[keys'[j]] == ptrs'[j]
    {
      if j != i {
        assert cmp(keys'[j], keys'[i]) != 0;
        var j' := if j < i then j else j - 1;
        assert keys'[j] == keys[j'] && ptrs'[j] == ptrs[j'];
        LeafMapAt(cmp, keys, ptrs, j');
      }
    }
    forall k | k in m
      ensures k in keys'
    {
      if k != key {
        var j := IndexOf(keys, k);
        assert keys'[if j < i then j else j + 1] == k;
      }
    }
    LeafMapIs(cmp, keys', ptrs', m);
  }

  lemma {:induction false} LeafPutContents(cmp: Cmp, t: Tree, lo: Bound, hi: Bound, key: Key, ptr: Pointer)
    requires TotalOrder(cmp) && t.Leaf? && Ordered(cmp, t, lo, hi)
    requires From(cmp, lo, key) && Below(cmp, key, hi)
    ensures Contents(LeafPut(cmp, t, key, ptr)) == Contents(t)[key := ptr]
  {
    var i := LowerBound(cmp, t.keys, key);
    if i < |t.keys| && t.keys[i] == key {
      LeafReplace(cmp, t.keys, t.ptrs, i, ptr);
    } else {
      InsertIncreasing(cmp, t.keys, key);
      LeafAdd(cmp, t.keys, t.ptrs, i, key, ptr);
    }
  }

  // ---------------------------------------------------------------- branches

  lemma {:induction false} InsertNonDecreasing(cmp: Cmp, keys: seq<Key>, i: nat, sep: Key)
    requires TotalOrder(cmp) && NonDecreasing(cmp, keys) && i <= |keys|
    requires i > 0 ==> cmp(keys[i - 1], sep) <= 0
    requires i < |keys| ==> cmp(sep, keys[i]) <= 0
    ensures NonDecreasing(cmp, InsertAt(keys, i, sep))
  {
    var keys' := InsertAt(keys, i, sep);
    forall p, q | 0 <= p < q < |keys'|
      ensures cmp(keys'[p], keys'[q]) <= 0
    {
      if q == i && p < i - 1 {
        Transitive(cmp, keys[p], keys[i - 1], sep);
      }
      if p == i && q > i + 1 {
        Transitive(cmp, sep, keys[i], keys[q - 1]);
      }
    }
  }

  /** The separator a child split hands up lies within the bounds of the parent. */
  lemma {:induction false} SeparatorInBounds(cmp: Cmp, t: Tree, lo: Bound, hi: Bound, i: nat, sep: Key)
    requires TotalOrder(cmp) && t.Branch? && Ordered(cmp, t, lo, hi) && i < |t.kids|
    requires From(cmp, KidLo(t.keys, lo, i), sep) && UpTo(cmp, sep, KidHi(t.keys, hi, i))
    ensures From(cmp, lo, sep) && UpTo(cmp, sep, hi)
  {
    if i > 0 && lo.At? {
      Transitive(cmp, lo.key, t.keys[i - 1], sep);
    }
    if i < |t.keys| && hi.At? {
      Transitive(cmp, sep, t.keys[i], hi.key);
    }
  }

  lemma {:induction false} BranchPutOrdered(cmp: Cmp, t: Tree, lo: Bound, hi: Bound, i: nat, child: Grown)
    requires TotalOrder(cmp) && t.Branch? && Ordered(cmp, t, lo, hi) && WellShaped(t) && i < |t.kids|
    requires GrownOrdered(cmp, child, KidLo(t.keys, lo, i), KidHi(t.keys, hi, i))
    ensures Ordered(cmp, BranchPut(t, i, child), lo, hi)
  {
    if child.Two? {
      var n := BranchPut(t, i, child);
      SeparatorInBounds(cmp, t, lo, hi, i, child.sep);
      InsertNonDecreasing(cmp, t.keys, i, child.sep);
      forall j | 0 <= j < |n.keys|
        ensures From(cmp, lo, n.keys[j]) && UpTo(cmp, n.keys[j], hi)
      {
        assert n.keys[j] == if j < i then t.keys[j] else if j == i then child.sep else t.keys[j - 1];
      }
      forall j | 0 <= j < |n.kids|
        ensures Ordered(cmp, n.kids[j], KidLo(n.keys, lo, j), KidHi(n.keys, hi, j))
      {
        BranchPutKid(cmp, t, lo, hi, i, child, j);
      }
    }
  }

  /** Child `j` after a split of child `i` lies between its new separators. */
  lemma {:induction false} BranchPutKid(cmp: Cmp, t: Tree, lo: Bound, hi: Bound, i: nat, child: Grown, j: nat)
    requires t.Branch? && Ordered(cmp, t, lo, hi) && WellShaped(t) && i < |t.kids| && child.Two?
    requires GrownOrdered(cmp, child, KidLo(t.keys, lo, i), KidHi(t.keys, hi, i))
    requires j < |t.kids| + 1
    ensures var n := BranchPut(t, i, child);
            Ordered(cmp, n.kids[j], KidLo(n.keys, lo, j), KidHi(n.keys, hi, j))
  {
    var n := BranchPut(t, i, child);
    if j < i {
      assert n.kids[j] == t.kids[j];
    } else if j > i + 1 {
      assert n.kids[j] == t.kids[j - 1];
    }
  }

  /** The contents around what replaced child `i`. */
  lemma {:induction false} PutAround(t: Tree, i: nat, child: Grown)
    requires t.Branch? && WellShaped(t) && i < |t.kids|
    ensures ContentsAll(BranchPut(t, i, child).kids) ==
            ContentsAll(t.kids[..i]) + GrownContents(child) + ContentsAll(t.kids[i + 1..])
  {
    var n := BranchPut(t, i, child);
    var pre, post := t.kids[..i], t.kids[i + 1..];
    if child.One? {
      ContentsAround(n.kids, i);
      assert n.kids[..i] == pre && n.kids[i + 1..] == post;
    } else {
      assert n.kids == pre + ([child.t, child.rest] + post);
      ContentsConcat(pre, [child.t, child.rest] + post);
      ContentsTwo(child.t, child.rest, post);
      MapAssociative(ContentsAll(pre), GrownContents(child), ContentsAll(post));
    }
  }

  lemma {:induction false} BranchPutContents(cmp: Cmp, t: Tree, lo: Bound, hi: Bound, key: Key, ptr: Pointer,
                                             child: Grown)
    requires TotalOrder(cmp) && t.Branch? && Ordered(cmp, t, lo, hi) && WellShaped(t)
    requires GrownContents(child) == Contents(t.kids[UpperBound(cmp, t.keys, key)])[key := ptr]
    ensures Contents(BranchPut(t, UpperBound(cmp, t.keys, key), child)) == Contents(t)[key := ptr]
  {
    var i := UpperBound(cmp, t.keys, key);
    ContentsAround(t.kids, i);
    PutAround(t, i, child);
    ElsewhereAbsent(cmp, t, lo, hi, key);
    UpdateMiddle(ContentsAll(t.kids[..i]), Contents(t.kids[i]), ContentsAll(t.kids[i + 1..]), key, ptr);
  }

  lemma {:induction false} ContentsTwo(c: Tree, d: Tree, post: seq<Tree>)
    ensures ContentsAll([c, d] + post) == Contents(c) + Contents(d) + ContentsAll(post)
  {
    assert ([c, d] + post)[1..] == [d] + post;
    assert ([d] + post)[1..] == post;
    MapAssociative(Contents(c), Contents(d), ContentsAll(post));
  }

  lemma {:induction false} UpdateMiddle(a: map<Key, Pointer>, b: map<Key, Pointer>, c: map<Key, Pointer>, k: Key,
                                        p: Pointer)
    requires k !in c
    ensures a + b[k := p] + c == (a + b + c)[k := p]
  {
  }

  // ---------------------------------------------------------------- splits

  lemma {:induction false} SettleOrdered(cmp: Cmp, t: Tree, lo: Bound, hi: Bound, g: nat, a: Alloc)
    requires TotalOrder(cmp) && Ordered(cmp, t, lo, hi)
    requires |t.keys| > 0 || Fits(t.Leaf?, t.keys)
    ensures GrownOrdered(cmp, Settle(t, g, a), lo, hi)
  {
    var r := Settle(t, g, a);
    if r.Two? {
      if t.Branch? {
        PrefixOrdered(cmp, t, lo, hi, |t.keys| / 2, r.t);
        SuffixOrdered(cmp, t, lo, hi, |t.keys| / 2, r.rest);
      } else {
        LeafSplitOrdered(cmp, t, lo, hi, |t.keys| / 2, r);
      }
    }
  }

  lemma {:induction false} LeafSplitOrdered(cmp: Cmp, t: Tree, lo: Bound, hi: Bound, mid: nat, r: Grown)
    requires TotalOrder(cmp) && Ordered(cmp, t, lo, hi) && t.Leaf? && mid < |t.keys|
    requires r.Two? && r.sep == t.keys[mid] && r.t.Leaf? && r.rest.Leaf?
    requires r.t.keys == t.keys[..mid] && r.t.ptrs == t.ptrs[..mid]
    requires r.rest.keys == t.keys[mid..] && r.rest.ptrs == t.ptrs[mid..]
    ensures GrownOrdered(cmp, r, lo, hi)
  {
    assert Ordered(cmp, r.t, lo, At(r.sep));
    forall i | 0 <= i < |r.rest.keys|
      ensures cmp(r.sep, r.rest.keys[i]) <= 0
    {
      assert i > 0 ==> cmp(t.keys[mid], t.keys[mid + i]) < 0;
    }
  }

  /** The children up to a separator, as a branch of their own. */
  lemma {:induction false} PrefixOrdered(cmp: Cmp, t: Tree, lo: Bound, hi: Bound, mid: nat, n: Tree)
    requires Ordered(cmp, t, lo, hi) && t.Branch? && mid < |t.keys|
    requires n.Branch? && n.keys == t.keys[..mid] && n.kids == t.kids[..mid + 1]
    ensures Ordered(cmp, n, lo, At(t.keys[mid]))
  {
    forall j | 0 <= j < |n.kids|
      ensures Ordered(cmp, n.kids[j], KidLo(n.keys, lo, j), KidHi(n.keys, At(t.keys[mid]), j))
    {
      assert n.kids[j] == t.kids[j];
    }
  }

  /** The children after a separator, as a branch of their own. */
  lemma {:induction false} SuffixOrdered(cmp: Cmp, t: Tree, lo: Bound, hi: Bound, mid: nat, n: Tree)
    requires Ordered(cmp, t, lo, hi) && t.Branch? && mid < |t.keys|
    requires n.Branch? && n.keys == t.keys[mid + 1..] && n.kids == t.kids[mid + 1..]
    ensures Ordered(cmp, n, At(t.keys[mid]), hi)
  {
    forall j | 0 <= j < |n.kids|
      ensures Ordered(cmp, n.kids[j], KidLo(n.keys, At(t.keys[mid]), j), KidHi(n.keys, hi, j))
    {
      assert n.kids[j] == t.kids[mid + 1 + j];
    }
  }

  lemma {:induction false} SettleContents(cmp: Cmp, t: Tree, lo: Bound, hi: Bound, g: nat, a: Alloc)
    requires TotalOrder(cmp) && Ordered(cmp, t, lo, hi)
    requires |t.keys| > 0 || Fits(t.Leaf?, t.keys)
    ensures GrownContents(Settle(t, g, a)) == Contents(t)
  {
    var mid := |t.keys| / 2;
    if !Fits(t.Leaf?, t.keys) {
      if t.Leaf? {
        LeafCut(cmp, t.keys, t.ptrs, mid);
      } else {
        KidsCut(t.kids, mid + 1);
      }
    }
  }

  lemma {:induction false} KidsCut(kids: seq<Tree>, m: nat)
    requires m <= |kids|
    ensures ContentsAll(kids[..m]) + ContentsAll(kids[m..]) == ContentsAll(kids)
  {
    assert kids == kids[..m] + kids[m..];
    ContentsConcat(kids[..m], kids[m..]);
  }

  lemma {:induction false} LeafCut(cmp: Cmp, keys: seq<Key>, ptrs: seq<Pointer>, m: nat)
    requires TotalOrder(cmp) && Increasing(cmp, keys) && |keys| == |ptrs| && m <= |keys|
    ensures LeafMap(keys[..m], ptrs[..m]) + LeafMap(keys[m..], ptrs[m..]) == LeafMap(keys, ptrs)
  {
    assert keys == keys[..m] + keys[m..] && ptrs == ptrs[..m] + ptrs[m..];
    LeafConcat(cmp, keys[..m], ptrs[..m], keys[m..], ptrs[m..]);
  }

  /** Two adjacent leaves hold what one leaf with all their entries holds. */
  lemma {:induction false} LeafConcat(cmp: Cmp, k1: seq<Key>, p1: seq<Pointer>, k2: seq<Key>, p2: seq<Pointer>)
    requires TotalOrder(cmp) && Increasing(cmp, k1 + k2) && |k1| == |p1| && |k2| == |p2|
    ensures LeafMap(k1 + k2, p1 + p2) == LeafMap(k1, p1) + LeafMap(k2, p2)
  {
    var keys, ptrs := k1 + k2, p1 + p2;
    IncreasingParts(cmp, k1, k2);
    LeafMapAll(cmp, k1, p1);
    LeafMapAll(cmp, k2, p2);
    var m := LeafMap(k1, p1) + LeafMap(k2, p2);
    forall i | 0 <= i < |keys|
      ensures keys[i] in m && m[keys[i]] == ptrs[i]
    {
      if i >= |k1| {
        assert keys[i] == k2[i - |k1|];
      }
    }
    LeafMapIs(cmp, keys, ptrs, m);
  }

  lemma {:induction false} IncreasingParts(cmp: Cmp, k1: seq<Key>, k2: seq<Key>)
    requires TotalOrder(cmp) && Increasing(cmp, k1 + k2)
    ensures Increasing(cmp, k1) && Increasing(cmp, k2)
    ensures forall k :: k in k1 ==> k !in k2
  {
    var keys := k1 + k2;
    forall i, j | 0 <= i < j < |k1|
      ensures cmp(k1[i], k1[j]) < 0
    {
      assert k1[i] == keys[i] && k1[j] == keys[j];
    }
    forall i, j | 0 <= i < j < |k2|
      ensures cmp(k2[i], k2[j]) < 0
    {
      assert k2[i] == keys[|k1| + i] && k2[j] == keys[|k1| + j];
    }
    forall i, j | 0 <= i < |k1| && 0 <= j < |k2|
      ensures k1[i] != k2[j]
    {
      assert cmp(keys[i], keys[|k1| + j]) < 0;
    }
  }

  // ---------------------------------------------------------------- the theorem

  /** Insertion keeps search order, splitting at a separator between the halves. */
  lemma {:induction false} InsertOrdered(cmp: Cmp, t: Tree, key: Key, ptr: Pointer, g: nat, a: Alloc, lo: Bound,
                                         hi: Bound)
    requires TotalOrder(cmp) && WellShaped(t) && Ordered(cmp, t, lo, hi)
    requires From(cmp, lo, key) && Below(cmp, key, hi)
    ensures GrownOrdered(cmp, Insert(cmp, t, key, ptr, g, a), lo, hi)
    decreases t
  {
    var (id, a1) := Touch(t.id, t.gen, g, a);
    var n := Moved(t, id, g);
    if t.Leaf? {
      LeafPutOrdered(cmp, n, lo, hi, key, ptr);
      SettleOrdered(cmp, LeafPut(cmp, n, key, ptr), lo, hi, g, a1);
    } else {
      var i := UpperBound(cmp, t.keys, key);
      InsertOrdered(cmp, t.kids[i], key, ptr, g, a1, KidLo(t.keys, lo, i), KidHi(t.keys, hi, i));
      var child := Insert(cmp, t.kids[i], key, ptr, g, a1);
      BranchPutOrdered(cmp, n, lo, hi, i, child);
      SettleOrdered(cmp, BranchPut(n, i, child), lo, hi, g, child.a);
    }
  }

  /** Insertion changes the contents to `old[key := ptr]`. */
  lemma {:induction false} InsertContents(cmp: Cmp, t: Tree, key: Key, ptr: Pointer, g: nat, a: Alloc, lo: Bound,
                                          hi: Bound)
    requires TotalOrder(cmp) && WellShaped(t) && Ordered(cmp, t, lo, hi)
    requires From(cmp, lo, key) && Below(cmp, key, hi)
    ensures GrownContents(Insert(cmp, t, key, ptr, g, a)) == Contents(t)[key := ptr]
    decreases t
  {
    var (id, a1) := Touch(t.id, t.gen, g, a);
    var n := Moved(t, id, g);
    if t.Leaf? {
      LeafPutContents(cmp, n, lo, hi, key, ptr);
      LeafPutOrdered(cmp, n, lo, hi, key, ptr);
      SettleContents(cmp, LeafPut(cmp, n, key, ptr), lo, hi, g, a1);
    } else {
      var i := UpperBound(cmp, t.keys, key);
      InsertOrdered(cmp, t.kids[i], key, ptr, g, a1, KidLo(t.keys, lo, i), KidHi(t.keys, hi, i));
      InsertContents(cmp, t.kids[i], key, ptr, g, a1, KidLo(t.keys, lo, i), KidHi(t.keys, hi, i));
      var child := Insert(cmp, t.kids[i], key, ptr, g, a1);
      BranchPutOrdered(cmp, n, lo, hi, i, child);
      BranchPutContents(cmp, n, lo, hi, key, ptr, child);
      SettleContents(cmp, BranchPut(n, i, child), lo, hi, g, child.a);
    }
  }

  lemma {:induction false} BranchPutBalanced(t: Tree, i: nat, child: Grown, h: nat)
    requires t.Branch? && WellShaped(t) && Balanced(t, h) && i < |t.kids| && GrownBalanced(child, h - 1)
    ensures Balanced(BranchPut(t, i, child), h)
  {
    var n := BranchPut(t, i, child);
    forall j | 0 <= j < |n.kids|
      ensures Balanced(n.kids[j], h - 1)
    {
      if child.Two? && j > i + 1 {
        assert n.kids[j] == t.kids[j - 1];
      }
    }
  }

  lemma {:induction false} SettleBalanced(t: Tree, g: nat, a: Alloc, h: nat)
    requires Balanced(t, h) && (|t.keys| > 0 || Fits(t.Leaf?, t.keys))
    ensures GrownBalanced(Settle(t, g, a), h)
  {
  }

  /** Insertion keeps every leaf at the same depth. */
  lemma {:induction false} InsertBalanced(cmp: Cmp, t: Tree, key: Key, ptr: Pointer, g: nat, a: Alloc, h: nat)
    requires WellShaped(t) && Balanced(t, h)
    ensures GrownBalanced(Insert(cmp, t, key, ptr, g, a), h)
    decreases t
  {
    var (id, a1) := Touch(t.id, t.gen, g, a);
    var n := Moved(t, id, g);
    if t.Branch? {
      var i := UpperBound(cmp, t.keys, key);
      InsertBalanced(cmp, t.kids[i], key, ptr, g, a1, h - 1);
      var child := Insert(cmp, t.kids[i], key, ptr, g, a1);
      BranchPutBalanced(n, i, child, h);
      SettleBalanced(BranchPut(n, i, child), g, child.a, h);
    } else {
      SettleBalanced(LeafPut(cmp, n, key, ptr), g, a1, h);
    }
  }
}
