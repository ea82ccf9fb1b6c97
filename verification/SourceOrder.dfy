/**
 Trees under the comparator of the source are the trees under a total order: as long as every index
 is used with keys of its own kind, both make every operation take the same path.
 */
module SourceOrder {
  import opened Options
  import opened KeyOrder
  import opened PageFormat
  import opened CowTree
  import opened TreeOrder
  import opened TreeChain
  import opened TreeRange
  import opened IndexFile
  import opened KeyCodec
  import opened KeyCompare

  /** Two comparators that agree on the keys in `ks`. */
  ghost predicate SameOn(c: Cmp, d: Cmp, ks: iset<Key>) {
    forall a, b :: a in ks && b in ks ==> c(a, b) == d(a, b)
  }

  /** All keys of `t`, separators included, lie in `ks`. */
  ghost predicate KeysIn(ks: iset<Key>, t: Tree)
    decreases t
  {
    && (forall i :: 0 <= i < |t.keys| ==> t.keys[i] in ks)
    && (t.Branch? ==> forall i :: 0 <= i < |t.kids| ==> KeysIn(ks, t.kids[i]))
  }

  lemma {:induction false} SameBounds(c: Cmp, d: Cmp, ks: iset<Key>, keys: seq<Key>, key: Key)
    requires SameOn(c, d, ks)
    requires key in ks && forall i :: 0 <= i < |keys| ==> keys[i] in ks
    ensures LowerBound(c, keys, key) == LowerBound(d, keys, key)
    ensures UpperBound(c, keys, key) == UpperBound(d, keys, key)
  {
    if keys != [] {
      SameBounds(c, d, ks, keys[1..], key);
    }
  }

  ghost predicate GrownKeysIn(ks: iset<Key>, r: Grown) {
    KeysIn(ks, r.t) && (r.Two? ==> r.sep in ks && KeysIn(ks, r.rest))
  }

  lemma {:induction false} SettleKeysIn(ks: iset<Key>, t: Tree, g: nat, a: Alloc)
    requires |t.keys| > 0 || Fits(t.Leaf?, t.keys)
    requires t.Leaf? ==> |t.ptrs| == |t.keys|
    requires t.Branch? ==> |t.kids| == |t.keys| + 1
    requires KeysIn(ks, t)
    ensures GrownKeysIn(ks, Settle(t, g, a))
  {
  }

  lemma {:induction false} LeafPutKeysIn(c: Cmp, ks: iset<Key>, t: Tree, key: Key, ptr: Pointer)
    requires t.Leaf? && WellShaped(t) && KeysIn(ks, t) && key in ks
    ensures KeysIn(ks, LeafPut(c, t, key, ptr))
  {
  }

  lemma {:induction false} BranchPutKeysIn(ks: iset<Key>, t: Tree, i: nat, child: Grown)
    requires t.Branch? && WellShaped(t) && i < |t.kids| && KeysIn(ks, t) && GrownKeysIn(ks, child)
    ensures KeysIn(ks, BranchPut(t, i, child))
  {
  }

  lemma {:induction false} InsertSame(c: Cmp, d: Cmp, ks: iset<Key>, t: Tree, key: Key, ptr: Pointer, g: nat, a: Alloc)
    requires SameOn(c, d, ks)
    requires WellShaped(t) && KeysIn(ks, t) && key in ks
    ensures Insert(c, t, key, ptr, g, a) == Insert(d, t, key, ptr, g, a)
    ensures GrownKeysIn(ks, Insert(c, t, key, ptr, g, a))
    decreases t
  {
    var (id, a1) := Touch(t.id, t.gen, g, a);
    var n := Moved(t, id, g);
    SameBounds(c, d, ks, t.keys, key);
    if t.Leaf? {
      LeafPutKeysIn(c, ks, n, key, ptr);
      SettleKeysIn(ks, LeafPut(c, n, key, ptr), g, a1);
    } else {
      var i := UpperBound(c, t.keys, key);
      InsertSame(c, d, ks, t.kids[i], key, ptr, g, a1);
      var child := Insert(c, t.kids[i], key, ptr, g, a1);
      BranchPutKeysIn(ks, n, i, child);
      SettleKeysIn(ks, BranchPut(n, i, child), g, child.a);
    }
  }

  lemma {:induction false} JoinKeysIn(ks: iset<Key>, t: Tree, l: nat, g: nat, a: Alloc, h: nat)
    requires Balanced(t, h) && t.Branch? && l + 1 < |t.kids| && KeysIn(ks, t)
    ensures Join(t, l, g, a, h).Done? ==> KeysIn(ks, Join(t, l, g, a, h).t)
  {
    var r := Join(t, l, g, a, h);
    if r.Done? {
      JoinedKeysIn(ks, t, l, g, a, h);
      assert forall i :: 0 <= i < |r.t.kids| && i > l + 1 ==> r.t.kids[i] in t.kids;
    }
  }

  /** The nodes that a join writes. */
  lemma {:induction false} JoinedKeysIn(ks: iset<Key>, t: Tree, l: nat, g: nat, a: Alloc, h: nat)
    requires Balanced(t, h) && t.Branch? && l + 1 < |t.kids| && KeysIn(ks, t) && Join(t, l, g, a, h).Done?
    ensures var n := Join(t, l, g, a, h).t;
            KeysIn(ks, n.kids[l]) && (|n.kids| == |t.kids| ==> KeysIn(ks, n.kids[l + 1]))
  {
    var left, right := t.kids[l], t.kids[l + 1];
    assert Balanced(left, h - 1) && Balanced(right, h - 1);
    assert KeysIn(ks, left) && KeysIn(ks, right);
  }

  lemma {:induction false} DeleteSame(c: Cmp, d: Cmp, ks: iset<Key>, t: Tree, key: Key, g: nat, a: Alloc, h: nat)
    requires SameOn(c, d, ks)
    requires Balanced(t, h) && KeysIn(ks, t) && key in ks
    ensures Delete(c, t, key, g, a, h) == Delete(d, t, key, g, a, h)
    ensures Delete(c, t, key, g, a, h).Done? ==> KeysIn(ks, Delete(c, t, key, g, a, h).t)
    decreases t
  {
    if t.Leaf? {
      DeleteSameLeaf(c, d, ks, t, key, g, a, h);
    } else {
      SameBounds(c, d, ks, t.keys, key);
      DeleteSame(c, d, ks, t.kids[UpperBound(c, t.keys, key)], key, g, Touch(t.id, t.gen, g, a).1, h - 1);
      DeleteSameBranch(c, d, ks, t, key, g, a, h);
    }
  }

  lemma {:induction false} DeleteSameLeaf(c: Cmp, d: Cmp, ks: iset<Key>, t: Tree, key: Key, g: nat, a: Alloc, h: nat)
    requires SameOn(c, d, ks)
    requires Balanced(t, h) && KeysIn(ks, t) && key in ks && t.Leaf?
    ensures Delete(c, t, key, g, a, h) == Delete(d, t, key, g, a, h)
    ensures Delete(c, t, key, g, a, h).Done? ==> KeysIn(ks, Delete(c, t, key, g, a, h).t)
  {
    SameBounds(c, d, ks, t.keys, key);
  }

  lemma {:induction false} DeleteSameBranch(c: Cmp, d: Cmp, ks: iset<Key>, t: Tree, key: Key, g: nat, a: Alloc, h: nat)
    requires SameOn(c, d, ks)
    requires Balanced(t, h) && KeysIn(ks, t) && key in ks && t.Branch?
    requires var kid := t.kids[UpperBound(c, t.keys, key)];
             var a1 := Touch(t.id, t.gen, g, a).1;
             var r := Delete(c, kid, key, g, a1, h - 1);
             r == Delete(d, kid, key, g, a1, h - 1) && (r.Done? ==> KeysIn(ks, r.t))
    ensures Delete(c, t, key, g, a, h) == Delete(d, t, key, g, a, h)
    ensures Delete(c, t, key, g, a, h).Done? ==> KeysIn(ks, Delete(c, t, key, g, a, h).t)
  {
    SameBounds(c, d, ks, t.keys, key);
    var i := UpperBound(c, t.keys, key);
    var (id, a1) := Touch(t.id, t.gen, g, a);
    DeleteAtBranch(c, t, key, g, a, h);
    DeleteAtBranch(d, t, key, g, a, h);
    var child := Delete(c, t.kids[i], key, g, a1, h - 1);
    if child.Done? {
      RebalanceKeysIn(ks, Branch(id, g, t.keys, t.kids[i := child.t]), i, g, child.a, h);
    }
  }

  lemma {:induction false} RebalanceKeysIn(ks: iset<Key>, t: Tree, i: nat, g: nat, a: Alloc, h: nat)
    requires Balanced(t, h) && t.Branch? && i < |t.kids| && KeysIn(ks, t)
    ensures Rebalance(t, i, g, a, h).Done? ==> KeysIn(ks, Rebalance(t, i, g, a, h).t)
  {
    if |t.kids[i].keys| < 2 && |t.kids| > 1 {
      JoinKeysIn(ks, t, if i > 0 then i - 1 else i, g, a, h);
    }
  }

  lemma {:induction false} FindSame(c: Cmp, d: Cmp, ks: iset<Key>, t: Tree, key: Key)
    requires SameOn(c, d, ks)
    requires WellShaped(t) && KeysIn(ks, t) && key in ks
    ensures Find(c, t, key) == Find(d, t, key)
    decreases t
  {
    SameBounds(c, d, ks, t.keys, key);
    if t.Branch? {
      FindSame(c, d, ks, t.kids[UpperBound(c, t.keys, key)], key);
    }
  }

  // ---------------------------------------------------------------- files

  /** Every index of the file holds keys of its own set. */
  ghost predicate KeysFile(keysets: map<string, iset<Key>>, f: File) {
    forall n :: n in f.trees ==> n in keysets && KeysIn(keysets[n], f.trees[n])
  }

  /** An insertion takes the same course under two comparators that agree on the keys of each index. */
  lemma {:induction false} SameInsert(c: Cmp, d: Cmp, keysets: map<string, iset<Key>>, f: File, name: string, key: Key,
                                      ptr: Pointer, g: nat)
    requires KeysFile(keysets, f) && name in keysets && key in keysets[name] && SameOn(c, d, keysets[name])
    requires name in f.trees ==> WellShaped(f.trees[name])
    ensures InsertNamed(c, f, name, key, ptr, g) == InsertNamed(d, f, name, key, ptr, g)
    ensures KeysFile(keysets, InsertNamed(c, f, name, key, ptr, g))
  {
    var (root, a) := StartTree(f, name, g);
    InsertSame(c, d, keysets[name], root, key, ptr, g, a);
    if Insert(c, root, key, ptr, g, a).Two? {
      RootKeysIn(keysets[name], Insert(c, root, key, ptr, g, a), g);
    }
  }

  lemma {:induction false} RootKeysIn(ks: iset<Key>, r: Grown, g: nat)
    requires GrownKeysIn(ks, r) && r.Two?
    ensures forall id: PageID :: KeysIn(ks, Branch(id, g, [r.sep], [r.t, r.rest]))
  {
    forall id: PageID
      ensures KeysIn(ks, Branch(id, g, [r.sep], [r.t, r.rest]))
    {
      var b := Branch(id, g, [r.sep], [r.t, r.rest]);
      assert b.kids[0] == r.t && b.kids[1] == r.rest;
    }
  }

  lemma {:induction false} SameDelete(c: Cmp, d: Cmp, keysets: map<string, iset<Key>>, f: File, name: string, key: Key,
                                      g: nat)
    requires KeysFile(keysets, f) && name in keysets && key in keysets[name] && SameOn(c, d, keysets[name])
    requires name in f.trees ==> Balanced(f.trees[name], Height(f.trees[name]))
    ensures DeleteNamed(c, f, name, key, g) == DeleteNamed(d, f, name, key, g)
    ensures DeleteNamed(c, f, name, key, g).Ok? ==> KeysFile(keysets, DeleteNamed(c, f, name, key, g).f)
  {
    if name in f.trees {
      DeleteSame(c, d, keysets[name], f.trees[name], key, g, f.a, Height(f.trees[name]));
    }
  }

  // ---------------------------------------------------------------- the comparator of the source

  function Source(): Cmp {
    (a, b) => CompareByteKeys(a, b)
  }

  ghost function Total(): Cmp {
    (a, b) => Unified(a, b)
  }

  /** The keys of an index, and the empty key that stands for an open bound of a scan. */
  ghost function KeysOfKind(ik: IndexKind): iset<Key> {
    iset key | KeyOf(ik, key) || key == []
  }

  lemma {:induction false} SourceAgrees(ik: IndexKind)
    ensures SameOn(Source(), Total(), KeysOfKind(ik))
  {
    forall a, b | a in KeysOfKind(ik) && b in KeysOfKind(ik)
      ensures Source()(a, b) == Total()(a, b)
    {
      if a == [] {
        UnifiedEmpty(b);
      } else if b == [] {
        UnifiedEmpty(a);
      } else {
        Agrees(ik, a, b);
      }
    }
  }

  ghost function Keysets(kinds: map<string, IndexKind>): map<string, iset<Key>> {
    map n | n in kinds :: KeysOfKind(kinds[n])
  }

  /** The key of a call is of the kind of its index. */
  ghost predicate KindedOp(kinds: map<string, IndexKind>, op: Op) {
    op.Commit? || (op.name in kinds && KeyOf(kinds[op.name], op.key))
  }

  /** One call under the comparator of the source. */
  function SourceStep(f: File, op: Op): Outcome
    requires forall n :: n in f.trees ==> WellShaped(f.trees[n]) && Balanced(f.trees[n], Height(f.trees[n]))
  {
    match op
    case Put(name, key, ptr, g) => Ok(InsertNamed(Source(), f, name, key, ptr, g))
    case Drop(name, key, g) => DeleteNamed(Source(), f, name, key, g)
    case Commit => Ok(CommitPages(f))
  }

  /** A call under the comparator of the source is the same call under the total order. */
  lemma {:induction false} SameStep(kinds: map<string, IndexKind>, f: File, op: Op)
    requires ValidFile(Total(), f) && KeysFile(Keysets(kinds), f) && KindedOp(kinds, op)
    ensures SourceStep(f, op) == Step(Total(), f, op)
    ensures SourceStep(f, op).Ok? ==> KeysFile(Keysets(kinds), SourceStep(f, op).f)
  {
    match op
    case Put(name, key, ptr, g) =>
      SourceAgrees(kinds[name]);
      SameInsert(Source(), Total(), Keysets(kinds), f, name, key, ptr, g);
    case Drop(name, key, g) =>
      SourceAgrees(kinds[name]);
      SameDelete(Source(), Total(), Keysets(kinds), f, name, key, g);
    case Commit =>
  }

  /** So the calls of the program keep the file sound exactly when they are safe, and do what the maps do. */
  lemma {:induction false} SourceSound(kinds: map<string, IndexKind>, f: File, op: Op)
    requires Sound(Total(), f) && KeysFile(Keysets(kinds), f) && KindedOp(kinds, op)
    ensures var r := SourceStep(f, op);
            && (r.Ok? && Sound(Total(), r.f) <==> Safe(Total(), f, op))
            && (r.Ok? ==> KeysFile(Keysets(kinds), r.f) && MeaningOf(r.f) == Apply(MeaningOf(f), op))
  {
    UnifiedTotal();
    SameStep(kinds, f, op);
    StepSound(Total(), f, op);
  }

  /** And a lookup under the comparator of the source answers the map. */
  lemma {:induction false} SourceFind(kinds: map<string, IndexKind>, f: File, name: string, key: Key)
    requires Sound(Total(), f) && KeysFile(Keysets(kinds), f) && name in f.trees && name in kinds
    requires KeyOf(kinds[name], key)
    ensures Find(Source(), f.trees[name], key) ==
            if key in Contents(f.trees[name]) then Some(Contents(f.trees[name])[key]) else None
  {
    UnifiedTotal();
    SourceAgrees(kinds[name]);
    FindSame(Source(), Total(), KeysOfKind(kinds[name]), f.trees[name], key);
    FindIsLookup(Total(), f.trees[name], Unbounded, Unbounded, key);
  }

  /** And a scan under the comparator of the source visits what it visits under the total order. */
  lemma {:induction false} SourceVisit(kinds: map<string, IndexKind>, name: string, es: seq<Entry>, start: Key,
                                       end: Key, visit: Visitor, seen: seq<Entry>)
    requires name in kinds && start in KeysOfKind(kinds[name]) && end in KeysOfKind(kinds[name])
    requires forall i :: 0 <= i < |es| ==> KeyOf(kinds[name], es[i].0)
    ensures EmptyFirst(Total())
    ensures Visit(Source(), es, start, end, visit, seen) == Visit(Total(), es, start, end, visit, seen)
    decreases |es|
  {
    SourceAgrees(kinds[name]);
    forall k: Key
      ensures Total()(k, []) >= 0
    {
      UnifiedEmpty(k);
    }
    if es != [] {
      assert es[0].0 in KeysOfKind(kinds[name]);
      assert Source()(es[0].0, start) == Total()(es[0].0, start) && Source()(es[0].0, end) == Total()(es[0].0, end);
      if start != [] && Source()(es[0].0, start) < 0 {
        SourceVisit(kinds, name, es[1..], start, end, visit, seen);
      } else {
        SourceVisit(kinds, name, es[1..], start, end, visit, seen + [es[0]]);
      }
    }
  }
}
