/**
 Splitting always helps: if keys have at most 280 bytes and the nodes of a tree serialize before an
 insertion, then all its nodes serialize afterwards, although nodes are split by count and keys
 differ in length. The arithmetic is that of the 16 KiB page.
 */
module SplitFits {
  import opened KeyOrder
  import opened PageFormat
  import opened CowTree
  import opened IndexFile

  const MAX_KEY: nat := 280

  /** Bytes of the cells and of the two-byte slots that point to them. */
  function Total(leaf: bool, keys: seq<Key>): nat {
    if keys == [] then 0 else CellSize(leaf, keys[0]) + 2 + Total(leaf, keys[1..])
  }

  function CellBytes(leaf: bool, keys: seq<Key>): nat {
    if keys == [] then 0 else CellSize(leaf, keys[0]) + CellBytes(leaf, keys[1..])
  }

  /** As long as nothing wraps, packing succeeds exactly when the cells fit between the two ends. */
  lemma {:induction false} PackIff(leaf: bool, keys: seq<Key>, freeStart: nat, freeEnd: nat)
    requires freeStart <= freeEnd < 0x10000 && forall i :: 0 <= i < |keys| ==> CellSize(leaf, keys[i]) < 0x10000
    ensures Pack(leaf, keys, freeStart, freeEnd) <==> CellBytes(leaf, keys) <= freeEnd - freeStart
  {
    if keys != [] {
      var cell := CellSize(leaf, keys[0]);
      InRange(cell);
      InRange(freeEnd - freeStart);
      if cell <= freeEnd - freeStart {
        InRange(freeEnd - cell);
        PackIff(leaf, keys[1..], freeStart, freeEnd - cell);
      }
    }
  }

  lemma {:induction false} InRange(x: nat)
    requires x < 0x10000
    ensures U16(x) == x
  {
  }

  lemma {:induction false} TotalIs(leaf: bool, keys: seq<Key>)
    ensures Total(leaf, keys) == CellBytes(leaf, keys) + 2 * |keys|
  {
    if keys != [] {
      TotalIs(leaf, keys[1..]);
    }
  }

  /** For sizes in range a node serializes exactly when its cells and slots take at most 16336 bytes. */
  lemma {:induction false} FitsIff(leaf: bool, keys: seq<Key>)
    requires |keys| <= 8168 && forall i :: 0 <= i < |keys| ==> CellSize(leaf, keys[i]) < 0x10000
    ensures Fits(leaf, keys) <==> Total(leaf, keys) <= 16336
  {
    TotalIs(leaf, keys);
    PackIff(leaf, keys, HEADER_SIZE + 2 * |keys|, PAGE_SIZE);
  }

  lemma {:induction false} TotalConcat(leaf: bool, a: seq<Key>, b: seq<Key>)
    ensures Total(leaf, a + b) == Total(leaf, a) + Total(leaf, b)
  {
    if a == [] {
      assert a + b == b;
    } else {
      assert (a + b)[1..] == a[1..] + b;
      TotalConcat(leaf, a[1..], b);
    }
  }

  predicate Short(keys: seq<Key>) {
    forall i :: 0 <= i < |keys| ==> |keys[i]| <= MAX_KEY
  }

  /** Between 12 and 296 bytes for each key. */
  lemma {:induction false} TotalBounds(leaf: bool, keys: seq<Key>)
    requires Short(keys)
    ensures 12 * |keys| <= Total(leaf, keys) <= 296 * |keys|
  {
    if keys != [] {
      TotalBounds(leaf, keys[1..]);
    }
  }

  /** Keys that fit are few enough for `FitsIff`. */
  lemma {:induction false} SmallTotalFits(leaf: bool, keys: seq<Key>)
    requires Short(keys) && Total(leaf, keys) <= PAGE_SIZE - HEADER_SIZE
    ensures Fits(leaf, keys)
  {
    TotalBounds(leaf, keys);
    FitsIff(leaf, keys);
  }

  // ---------------------------------------------------------------- trees

  /** Every node serializes, and no key is over 280 bytes. The keys are few enough for 16-bit arithmetic. */
  ghost predicate AllFit(t: Tree)
    decreases t
  {
    && Short(t.keys) && Total(t.Leaf?, t.keys) <= PAGE_SIZE - HEADER_SIZE
    && (t.Branch? ==> forall i :: 0 <= i < |t.kids| ==> AllFit(t.kids[i]))
  }

  /** The serializer accepts every node. */
  ghost predicate AllSerialize(t: Tree)
    decreases t
  {
    Fits(t.Leaf?, t.keys) && (t.Branch? ==> forall i :: 0 <= i < |t.kids| ==> AllSerialize(t.kids[i]))
  }

  /** The root may be over the page size by one key. */
  ghost predicate AlmostFits(t: Tree) {
    && Short(t.keys) && Total(t.Leaf?, t.keys) <= PAGE_SIZE - HEADER_SIZE + 296
    && (t.Branch? ==> forall i :: 0 <= i < |t.kids| ==> AllFit(t.kids[i]))
  }

  ghost predicate GrownFits(r: Grown) {
    AllFit(r.t) && (r.Two? ==> |r.sep| <= MAX_KEY && AllFit(r.rest))
  }

  /** A node that fits was not over the page size. */
  lemma {:induction false} FitsTotal(leaf: bool, keys: seq<Key>)
    requires Short(keys) && Total(leaf, keys) <= PAGE_SIZE - HEADER_SIZE + 296
    ensures Fits(leaf, keys) <==> Total(leaf, keys) <= PAGE_SIZE - HEADER_SIZE
  {
    TotalBounds(leaf, keys);
    FitsIff(leaf, keys);
  }

  lemma {:induction false} FitSerialize(t: Tree)
    requires AllFit(t)
    ensures AllSerialize(t)
    decreases t
  {
    FitsTotal(t.Leaf?, t.keys);
    if t.Branch? {
      forall i | 0 <= i < |t.kids|
        ensures AllSerialize(t.kids[i])
      {
        FitSerialize(t.kids[i]);
      }
    }
  }

  lemma {:induction false} SettleFits(t: Tree, g: nat, a: Alloc)
    requires |t.keys| > 0 || Fits(t.Leaf?, t.keys)
    requires t.Leaf? ==> |t.ptrs| == |t.keys|
    requires t.Branch? ==> |t.kids| == |t.keys| + 1
    requires AlmostFits(t)
    ensures GrownFits(Settle(t, g, a))
  {
    FitsTotal(t.Leaf?, t.keys);
    if !Fits(t.Leaf?, t.keys) {
      TotalBounds(t.Leaf?, t.keys);
      HalfTotals(t.Leaf?, t.keys, |t.keys| / 2);
    }
  }

  /** Both sides of a cut in the middle of keys that are only a little too many. */
  lemma {:induction false} HalfTotals(leaf: bool, keys: seq<Key>, mid: nat)
    requires Short(keys) && Total(leaf, keys) <= PAGE_SIZE - HEADER_SIZE + 296 && |keys| >= 56 && mid == |keys| / 2
    ensures Total(leaf, keys[..mid]) <= PAGE_SIZE - HEADER_SIZE
    ensures Total(leaf, keys[mid..]) <= PAGE_SIZE - HEADER_SIZE
    ensures Total(leaf, keys[mid + 1..]) <= PAGE_SIZE - HEADER_SIZE
  {
    assert keys == keys[..mid] + keys[mid..] && keys[mid..] == [keys[mid]] + keys[mid + 1..];
    TotalConcat(leaf, keys[..mid], keys[mid..]);
    TotalConcat(leaf, [keys[mid]], keys[mid + 1..]);
    TotalBounds(leaf, keys[..mid]);
    TotalBounds(leaf, keys[mid..]);
  }

  lemma {:induction false} InsertedTotal(leaf: bool, keys: seq<Key>, i: nat, key: Key)
    requires i <= |keys| && Short(keys) && |key| <= MAX_KEY
    ensures Short(InsertAt(keys, i, key)) && Total(leaf, InsertAt(keys, i, key)) <= Total(leaf, keys) + 296
  {
    assert keys == keys[..i] + keys[i..];
    TotalConcat(leaf, keys[..i], keys[i..]);
    TotalConcat(leaf, keys[..i] + [key], keys[i..]);
    TotalConcat(leaf, keys[..i], [key]);
    TotalBounds(leaf, [key]);
  }

  lemma {:induction false} LeafPutFits(cmp: Cmp, t: Tree, key: Key, ptr: Pointer)
    requires t.Leaf? && WellShaped(t) && AllFit(t) && |key| <= MAX_KEY
    ensures AlmostFits(LeafPut(cmp, t, key, ptr))
  {
    InsertedTotal(true, t.keys, LowerBound(cmp, t.keys, key), key);
  }

  lemma {:induction false} BranchPutFits(t: Tree, i: nat, child: Grown)
    requires t.Branch? && WellShaped(t) && i < |t.kids| && AllFit(t) && GrownFits(child)
    ensures AlmostFits(BranchPut(t, i, child))
  {
    if child.Two? {
      InsertedTotal(false, t.keys, i, child.sep);
    }
  }

  /** An insertion of a key of at most 280 bytes leaves every node able to serialize. */
  lemma {:induction false} InsertFits(cmp: Cmp, t: Tree, key: Key, ptr: Pointer, g: nat, a: Alloc)
    requires WellShaped(t) && AllFit(t) && |key| <= MAX_KEY
    ensures GrownFits(Insert(cmp, t, key, ptr, g, a))
    decreases t
  {
    var (id, a1) := Touch(t.id, t.gen, g, a);
    var n := Moved(t, id, g);
    if t.Leaf? {
      LeafPutFits(cmp, n, key, ptr);
      SettleFits(LeafPut(cmp, n, key, ptr), g, a1);
    } else {
      var i := UpperBound(cmp, t.keys, key);
      InsertFits(cmp, t.kids[i], key, ptr, g, a1);
      var child := Insert(cmp, t.kids[i], key, ptr, g, a1);
      BranchPutFits(n, i, child);
      SettleFits(BranchPut(n, i, child), g, child.a);
    }
  }

  lemma {:induction false} RootFits(r: Grown, id: PageID, g: nat)
    requires r.Two? && GrownFits(r)
    ensures AllFit(Branch(id, g, [r.sep], [r.t, r.rest]))
  {
    var b := Branch(id, g, [r.sep], [r.t, r.rest]);
    TotalBounds(false, [r.sep]);
    assert AllFit(b.kids[0]) && AllFit(b.kids[1]);
  }

  /** So no insertion into a named index makes a node that a commit cannot write. */
  lemma {:induction false} InsertNamedFits(cmp: Cmp, f: File, name: string, key: Key, ptr: Pointer, g: nat)
    requires (forall n :: n in f.trees ==> WellShaped(f.trees[n]) && AllFit(f.trees[n])) && |key| <= MAX_KEY
    ensures var f' := InsertNamed(cmp, f, name, key, ptr, g);
            forall n :: n in f'.trees ==> AllFit(f'.trees[n]) && AllSerialize(f'.trees[n])
  {
    var (root, a) := StartTree(f, name, g);
    InsertFits(cmp, root, key, ptr, g, a);
    var r := Insert(cmp, root, key, ptr, g, a);
    if r.Two? {
      RootFits(r, Allocate(r.a).0, g);
    }
    var f' := InsertNamed(cmp, f, name, key, ptr, g);
    forall n | n in f'.trees
      ensures AllSerialize(f'.trees[n])
    {
      FitSerialize(f'.trees[n]);
    }
  }
}
