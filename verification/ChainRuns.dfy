/**
 Which calls on an index file keep the leaf chains of all its trees whole. In trees built and edited under one
 generation no node is ever copied, so there every call does.
 */
module ChainRuns {
  import opened KeyOrder
  import opened PageFormat
  import opened CowTree
  import opened TreeOrder
  import opened TreeInsert
  import opened TreeDelete
  import opened TreePages
  import opened PageStore
  import opened TreeChain
  import opened DeleteChains
  import opened IndexFile
  import opened Durability

  predicate OneGen(t: Tree, g: nat)
    decreases t
  {
    t.gen == g && (t.Branch? ==> forall i :: 0 <= i < |t.kids| ==> OneGen(t.kids[i], g))
  }

  ghost predicate GrownOneGen(r: Grown, g: nat) {
    OneGen(r.t, g) && (r.Two? ==> OneGen(r.rest, g))
  }

  lemma {:induction false} InsertOneGen(cmp: Cmp, t: Tree, key: Key, ptr: Pointer, g: nat, a: Alloc)
    requires WellShaped(t) && OneGen(t, g)
    ensures GrownOneGen(Insert(cmp, t, key, ptr, g, a), g) && !Copies(cmp, t, key, g)
    decreases t
  {
    if t.Leaf? {
      SettleOneGen(LeafPut(cmp, t, key, ptr), g, a);
      assert Moved(t, t.id, g) == t;
    } else {
      var i := UpperBound(cmp, t.keys, key);
      InsertOneGen(cmp, t.kids[i], key, ptr, g, a);
      var child := Insert(cmp, t.kids[i], key, ptr, g, a);
      assert Moved(t, t.id, g) == t;
      SettleOneGen(BranchPut(t, i, child), g, child.a);
    }
  }

  lemma {:induction false} SettleOneGen(t: Tree, g: nat, a: Alloc)
    requires |t.keys| > 0 || Fits(t.Leaf?, t.keys)
    requires t.Leaf? ==> |t.ptrs| == |t.keys|
    requires t.Branch? ==> |t.kids| == |t.keys| + 1
    requires OneGen(t, g)
    ensures GrownOneGen(Settle(t, g, a), g)
  {
  }

  /** A join of children of one generation. */
  lemma {:induction false} JoinOneGen(t: Tree, l: nat, g: nat, a: Alloc, h: nat)
    requires Balanced(t, h) && t.Branch? && l + 1 < |t.kids| && OneGen(t, g) && Join(t, l, g, a, h).Done?
    ensures OneGen(Join(t, l, g, a, h).t, g)
  {
    var r := Join(t, l, g, a, h).t;
    JoinedOneGen(t, l, g, a, h);
    assert forall i :: l + 1 < i < |r.kids| ==> r.kids[i] in t.kids;
  }

  /** The nodes that a join writes. */
  lemma {:induction false} JoinedOneGen(t: Tree, l: nat, g: nat, a: Alloc, h: nat)
    requires Balanced(t, h) && t.Branch? && l + 1 < |t.kids| && OneGen(t, g) && Join(t, l, g, a, h).Done?
    ensures var n := Join(t, l, g, a, h).t; OneGen(n.kids[l], g) && (|n.kids| == |t.kids| ==> OneGen(n.kids[l + 1], g))
  {
    var left, right := t.kids[l], t.kids[l + 1];
    assert Balanced(left, h - 1) && Balanced(right, h - 1);
    assert OneGen(left, g) && OneGen(right, g);
  }

  lemma {:induction false} DeleteOneGen(cmp: Cmp, t: Tree, key: Key, g: nat, a: Alloc, h: nat)
    requires Balanced(t, h) && OneGen(t, g) && Delete(cmp, t, key, g, a, h).Done?
    ensures OneGen(Delete(cmp, t, key, g, a, h).t, g)
    decreases t
  {
    if t.Branch? {
      var i := UpperBound(cmp, t.keys, key);
      DeleteAtBranch(cmp, t, key, g, a, h);
      DeleteOneGen(cmp, t.kids[i], key, g, a, h - 1);
      var child := Delete(cmp, t.kids[i], key, g, a, h - 1);
      var n := Branch(t.id, g, t.keys, t.kids[i := child.t]);
      if |n.kids[i].keys| < 2 && |n.kids| > 1 {
        JoinOneGen(n, if i > 0 then i - 1 else i, g, child.a, h);
      }
    }
  }

  /** In a tree of the current generation every leaf stays on its page. */
  lemma {:induction false} OneGenStays(cmp: Cmp, t: Tree, key: Key, g: nat)
    requires WellShaped(t) && OneGen(t, g)
    ensures ChainStays(cmp, t, key, g) && FirstStays(cmp, t, key, g)
    decreases t
  {
    if t.Branch? {
      OneGenStays(cmp, t.kids[UpperBound(cmp, t.keys, key)], key, g);
    }
  }

  // ---------------------------------------------------------------- files

  /** The leaves of every tree form a chain that ends with 0. */
  ghost predicate WholeChains(f: File) {
    forall n :: n in f.trees ==> WellShaped(f.trees[n]) && Chained(f.trees[n], 0)
  }

  /** The calls that keep the chains whole, decided before the call. */
  ghost predicate KeepsChains(cmp: Cmp, f: File, op: Op)
    requires ValidFile(cmp, f)
  {
    match op
    case Put(name, key, _, g) => name in f.trees ==>
      !Copies(cmp, f.trees[name], key, g) || Leftmost(cmp, f.trees[name], key)
    case Drop(name, key, g) => name in f.trees && key in Contents(f.trees[name]) ==>
      ChainStays(cmp, f.trees[name], key, g)
    case Commit => true
  }

  /** Replacing one tree. */
  lemma {:induction false} OneChain(f: File, name: string, t: Tree, a: Alloc)
    requires WholeChains(f) && WellShaped(t)
    ensures WholeChains(f.(trees := f.trees[name := t], a := a)) <==> Chained(t, 0)
  {
    var f' := f.(trees := f.trees[name := t], a := a);
    assert WholeChains(f') ==> Chained(f'.trees[name], 0);
  }

  /** A call that completes keeps the chains of all trees whole if and only if it says so beforehand. */
  lemma {:induction false} StepKeepsChains(cmp: Cmp, f: File, op: Op)
    requires TotalOrder(cmp) && Sound(cmp, f) && WholeChains(f) && Step(cmp, f, op).Ok?
    ensures WholeChains(Step(cmp, f, op).f) <==> KeepsChains(cmp, f, op)
  {
    match op
    case Put(name, key, ptr, g) => PutKeepsChains(cmp, f, name, key, ptr, g);
    case Drop(name, key, g) => DropKeepsChains(cmp, f, name, key, g);
    case Commit =>
  }

  lemma {:induction false} PutKeepsChains(cmp: Cmp, f: File, name: string, key: Key, ptr: Pointer, g: nat)
    requires Sound(cmp, f) && WholeChains(f)
    ensures WholeChains(InsertNamed(cmp, f, name, key, ptr, g)) <==> KeepsChains(cmp, f, Put(name, key, ptr, g))
  {
    var (root, a) := StartTree(f, name, g);
    if name in f.trees {
      OwnedApart(f, name);
    } else {
      StartSound(cmp, f, name, g);
      OwnedApart(f.(trees := f.trees[name := root], a := a), name);
    }
    RootChain(cmp, root, key, ptr, g, a);
    var (t, a') := InsertRoot(cmp, root, key, ptr, g, a);
    OneChain(f, name, t, a');
  }

  lemma {:induction false} RootChain(cmp: Cmp, t: Tree, key: Key, ptr: Pointer, g: nat, a: Alloc)
    requires WellShaped(t) && Chained(t, 0) && Apart(t, a) && Clean(t, a)
    ensures var n := InsertRoot(cmp, t, key, ptr, g, a).0;
            WellShaped(n) && (Chained(n, 0) <==> !Copies(cmp, t, key, g) || Leftmost(cmp, t, key))
  {
    InsertChain(cmp, t, key, ptr, g, a, 0);
    var r := Insert(cmp, t, key, ptr, g, a);
    if r.Two? {
      var b := Branch(Allocate(r.a).0, g, [r.sep], [r.t, r.rest]);
      RowTwo(r.t, r.rest, 0);
      assert WellShaped(b) && (Chained(b, 0) <==> GrownChained(r, 0));
    }
  }

  lemma {:induction false} DropKeepsChains(cmp: Cmp, f: File, name: string, key: Key, g: nat)
    requires TotalOrder(cmp) && Sound(cmp, f) && WholeChains(f) && DeleteNamed(cmp, f, name, key, g).Ok?
    ensures WholeChains(DeleteNamed(cmp, f, name, key, g).f) <==> KeepsChains(cmp, f, Drop(name, key, g))
  {
    if name in f.trees {
      var t := f.trees[name];
      var r := Delete(cmp, t, key, g, f.a, Height(t));
      DeleteMissing(cmp, t, key, g, f.a, Height(t), Unbounded, Unbounded);
      if r.Done? {
        OwnedApart(f, name);
        ApartTaken(t, f.a);
        DeleteChain(cmp, t, key, g, f.a, Height(t), 0);
        CollapseChain(r.t, r.a);
        OneChain(f, name, Collapse(r.t, r.a).0, Collapse(r.t, r.a).1);
      }
    }
  }

  lemma {:induction false} CollapseChain(t: Tree, a: Alloc)
    requires WellShaped(t)
    ensures var n := Collapse(t, a).0; WellShaped(n) && (Chained(n, 0) <==> Chained(t, 0))
  {
    if t.Branch? && |t.keys| == 0 && |t.kids| == 1 {
      assert t.kids == [t.kids[0]];
      RowOne(t.kids[0], 0);
    }
  }

  // ---------------------------------------------------------------- one generation

  ghost predicate FileOfGen(f: File, g: nat) {
    forall n :: n in f.trees ==> OneGen(f.trees[n], g)
  }

  lemma {:induction false} PutOfGen(cmp: Cmp, f: File, name: string, key: Key, ptr: Pointer, g: nat)
    requires Sound(cmp, f) && WholeChains(f) && FileOfGen(f, g)
    ensures WholeChains(InsertNamed(cmp, f, name, key, ptr, g)) && FileOfGen(InsertNamed(cmp, f, name, key, ptr, g), g)
  {
    var (root, a) := StartTree(f, name, g);
    InsertOneGen(cmp, root, key, ptr, g, a);
    PutKeepsChains(cmp, f, name, key, ptr, g);
  }

  lemma {:induction false} DropOfGen(cmp: Cmp, f: File, name: string, key: Key, g: nat)
    requires Sound(cmp, f) && WholeChains(f) && FileOfGen(f, g) && DeleteNamed(cmp, f, name, key, g).Ok?
    ensures WholeChains(DeleteNamed(cmp, f, name, key, g).f) && FileOfGen(DeleteNamed(cmp, f, name, key, g).f, g)
  {
    if name in f.trees {
      var t := f.trees[name];
      var r := Delete(cmp, t, key, g, f.a, Height(t));
      if r.Done? {
        OwnedApart(f, name);
        ApartTaken(t, f.a);
        OneGenStays(cmp, t, key, g);
        DeleteOneGen(cmp, t, key, g, f.a, Height(t));
        DeleteChain(cmp, t, key, g, f.a, Height(t), 0);
        CollapseChain(r.t, r.a);
        OneChain(f, name, Collapse(r.t, r.a).0, Collapse(r.t, r.a).1);
      }
    }
  }

  /** Over every run under one generation the chains stay whole. */
  lemma {:induction false} StepChained(cmp: Cmp, f: File, op: Op, g: nat)
    requires Sound(cmp, f) && WholeChains(f) && FileOfGen(f, g) && (op.Commit? || op.gen == g) && Step(cmp, f, op).Ok?
    ensures WholeChains(Step(cmp, f, op).f) && FileOfGen(Step(cmp, f, op).f, g)
  {
    match op
    case Put(name, key, ptr, _) => PutOfGen(cmp, f, name, key, ptr, g);
    case Drop(name, key, _) => DropOfGen(cmp, f, name, key, g);
    case Commit =>
  }
}
