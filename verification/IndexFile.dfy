/**
 The index file of a table: several named trees that share one page allocator.

 `Step` is one call on the file (insert, delete or commit). The main results are about every
 sequence of calls: the trees refine maps, and every page from 3 up to the end of the file has
 exactly one owner among the trees, the free list, the orphan list and the catalog.
 */
module IndexFile {
  import opened KeyOrder
  import opened PageFormat
  import opened CowTree
  import opened TreeOrder
  import opened TreeInsert
  import opened TreeDelete
  import opened TreePages

  /** `lost` holds the free pages that an earlier catalog page had no room for; nothing names them any more. */
  datatype File = File(trees: map<string, Tree>, a: Alloc, catalog: PageID, lost: set<PageID>)

  function Height(t: Tree): nat
    decreases t
  {
    if t.Leaf? || t.kids == [] then 0 else 1 + Height(t.kids[0])
  }

  lemma {:induction false} BalancedHeight(t: Tree, h: nat)
    requires Balanced(t, h)
    ensures Height(t) == h
    decreases t
  {
    if t.Branch? {
      BalancedHeight(t.kids[0], h - 1);
    }
  }

  /** A search tree with all leaves at one depth. */
  ghost predicate ValidTree(cmp: Cmp, t: Tree) {
    Balanced(t, Height(t)) && WellShaped(t) && Ordered(cmp, t, Unbounded, Unbounded)
  }

  ghost predicate ValidFile(cmp: Cmp, f: File) {
    forall n :: n in f.trees ==> ValidTree(cmp, f.trees[n])
  }

  // ---------------------------------------------------------------- operations

  function InsertRoot(cmp: Cmp, t: Tree, key: Key, ptr: Pointer, g: nat, a: Alloc): (Tree, Alloc)
    requires WellShaped(t)
  {
    match Insert(cmp, t, key, ptr, g, a)
    case One(t', a') => (t', a')
    case Two(left, sep, right, a') =>
      var (id, a'') := Allocate(a');
      (Branch(id, g, [sep], [left, right]), a'')
  }

  /** The tree an insertion starts from: a new name gets an empty leaf. */
  function StartTree(f: File, name: string, g: nat): (Tree, Alloc) {
    if name in f.trees then (f.trees[name], f.a)
    else var (id, a) := Allocate(f.a); (Leaf(id, g, [], [], 0), a)
  }

  function InsertNamed(cmp: Cmp, f: File, name: string, key: Key, ptr: Pointer, g: nat): File
    requires name in f.trees ==> WellShaped(f.trees[name])
  {
    var (root, a) := StartTree(f, name, g);
    var (t, a') := InsertRoot(cmp, root, key, ptr, g, a);
    f.(trees := f.trees[name := t], a := a')
  }

  /** A root with one child gives way to it. */
  function Collapse(t: Tree, a: Alloc): (Tree, Alloc) {
    if t.Branch? && |t.keys| == 0 && |t.kids| == 1 then (t.kids[0], Orphan(a, t.id)) else (t, a)
  }

  datatype Outcome = Ok(f: File) | Failed

  function DeleteNamed(cmp: Cmp, f: File, name: string, key: Key, g: nat): Outcome
    requires name in f.trees ==> Balanced(f.trees[name], Height(f.trees[name]))
  {
    if name !in f.trees then Ok(f)
    else
      var t := f.trees[name];
      match Delete(cmp, t, key, g, f.a, Height(t))
      case Missing(a') => Ok(f.(a := a'))
      case Panic => Failed
      case Done(t', a') =>
        var (root, a'') := Collapse(t', a');
        Ok(f.(trees := f.trees[name := root], a := a''))
  }

  /** Commit: the old catalog and the orphans become free, and the new catalog takes a page. */
  function CommitPages(f: File): File {
    var a := Orphan(f.a, f.catalog);
    var (cat, a') := Allocate(Alloc(a.free + a.orphans, a.next, []));
    f.(a := a', catalog := cat)
  }

  datatype Op =
    | Put(name: string, key: Key, ptr: Pointer, gen: nat)
    | Drop(name: string, key: Key, gen: nat)
    | Commit

  ghost function Step(cmp: Cmp, f: File, op: Op): Outcome
    requires ValidFile(cmp, f)
  {
    match op
    case Put(name, key, ptr, g) => Ok(InsertNamed(cmp, f, name, key, ptr, g))
    case Drop(name, key, g) => DeleteNamed(cmp, f, name, key, g)
    case Commit => Ok(CommitPages(f))
  }

  // ---------------------------------------------------------------- meaning

  type Meaning = map<string, map<Key, Pointer>>

  ghost function MeaningOf(f: File): Meaning {
    map n | n in f.trees :: Contents(f.trees[n])
  }

  /** What a call does to the named maps. */
  function Apply(m: Meaning, op: Op): Meaning {
    match op
    case Put(name, key, ptr, _) => m[name := (if name in m then m[name] else map[])[key := ptr]]
    case Drop(name, key, _) => if name in m then m[name := m[name] - {key}] else m
    case Commit => m
  }

  // ---------------------------------------------------------------- ownership

  ghost function CountNames(trees: map<string, Tree>, p: PageID): nat
    decreases |trees|
  {
    if trees == map[] then 0
    else
      var n :| n in trees;
      Count(trees[n], p) + CountNames(trees - {n}, p)
  }

  lemma {:induction false} CountNamesOne(trees: map<string, Tree>, n: string, p: PageID)
    requires n in trees
    ensures CountNames(trees, p) == Count(trees[n], p) + CountNames(trees - {n}, p)
    decreases |trees|
  {
    var m :| m in trees && CountNames(trees, p) == Count(trees[m], p) + CountNames(trees - {m}, p);
    if m != n {
      CountNamesOne(trees - {m}, n, p);
      CountNamesOne(trees - {n}, m, p);
      assert trees - {m} - {n} == trees - {n} - {m};
    }
  }

  lemma {:induction false} CountNamesUpdate(trees: map<string, Tree>, n: string, t: Tree, p: PageID)
    ensures CountNames(trees[n := t], p) ==
            CountNames(trees, p) - (if n in trees then Count(trees[n], p) else 0) + Count(t, p)
  {
    CountNamesOne(trees[n := t], n, p);
    assert trees[n := t] - {n} == trees - {n};
    if n in trees {
      CountNamesOne(trees, n, p);
    } else {
      assert trees - {n} == trees;
    }
  }

  /** Owners of page `p`. The first catalog, on page 2, belongs to nobody. */
  ghost function Owners(f: File, p: PageID): nat {
    CountNames(f.trees, p) + Held(f.a, p) + (if f.catalog >= 3 then Is(f.catalog, p) else 0) +
      (if p in f.lost then 1 else 0)
  }

  /** Every page from 3 up to the end of the file has exactly one owner; no other page has any. */
  ghost predicate OwnedOnce(f: File) {
    f.a.next >= 3 && forall p: PageID :: Owners(f, p) == if 3 <= p < f.a.next then 1 else 0
  }

  /** The owner counts of page `p` in two files differ only if it was taken off the end in between. */
  ghost predicate Kept(f: File, f': File, p: PageID) {
    f.a.next <= f'.a.next && Owners(f', p) == Owners(f, p) + Fresh(f.a, f'.a, p)
  }

  lemma {:induction false} OwnedAfter(f: File, f': File)
    requires OwnedOnce(f) && forall p: PageID :: Kept(f, f', p)
    ensures OwnedOnce(f')
  {
    assert Kept(f, f', 0);
    forall p: PageID
      ensures Owners(f', p) == if 3 <= p < f'.a.next then 1 else 0
    {
      assert Kept(f, f', p);
    }
  }

  /** A call that conserves pages and replaces one tree keeps the owner counts. */
  lemma {:induction false} ReplaceKeeps(f: File, name: string, t: Tree, a: Alloc, p: PageID)
    requires Conserves(if name in f.trees then Count(f.trees[name], p) else 0, f.a, Count(t, p), a, p)
    ensures Kept(f, f.(trees := f.trees[name := t], a := a), p)
  {
    CountNamesUpdate(f.trees, name, t, p);
  }

  lemma {:induction false} TreeClean(f: File, n: string)
    requires OwnedOnce(f) && n in f.trees
    ensures Clean(f.trees[n], f.a)
  {
    forall q: PageID | q < 3
      ensures Count(f.trees[n], q) == 0 && Held(f.a, q) == 0
    {
      assert Owners(f, q) == 0;
      CountNamesOne(f.trees, n, q);
    }
  }

  // ---------------------------------------------------------------- insert

  /** A new root over the two halves of a split. */
  lemma {:induction false} NewRootValid(cmp: Cmp, r: Grown, id: PageID, g: nat, h: nat)
    requires TotalOrder(cmp) && r.Two? && GrownOrdered(cmp, r, Unbounded, Unbounded) && GrownBalanced(r, h)
    ensures var n := Branch(id, g, [r.sep], [r.t, r.rest]);
            && Ordered(cmp, n, Unbounded, Unbounded) && Balanced(n, h + 1)
            && Contents(n) == GrownContents(r)
  {
    var n := Branch(id, g, [r.sep], [r.t, r.rest]);
    ContentsTwo(r.t, r.rest, []);
    assert [r.t, r.rest] + [] == n.kids;
  }

  lemma {:induction false} InsertRootValid(cmp: Cmp, t: Tree, key: Key, ptr: Pointer, g: nat, a: Alloc)
    requires TotalOrder(cmp) && ValidTree(cmp, t)
    ensures ValidTree(cmp, InsertRoot(cmp, t, key, ptr, g, a).0)
    ensures Contents(InsertRoot(cmp, t, key, ptr, g, a).0) == Contents(t)[key := ptr]
  {
    var h := Height(t);
    var r := Insert(cmp, t, key, ptr, g, a);
    InsertOrdered(cmp, t, key, ptr, g, a, Unbounded, Unbounded);
    InsertContents(cmp, t, key, ptr, g, a, Unbounded, Unbounded);
    InsertBalanced(cmp, t, key, ptr, g, a, h);
    var (n, a') := InsertRoot(cmp, t, key, ptr, g, a);
    if r.Two? {
      NewRootValid(cmp, r, n.id, g, h);
    }
    HeightOf(cmp, n, if r.Two? then h + 1 else h);
  }

  lemma {:induction false} HeightOf(cmp: Cmp, t: Tree, h: nat)
    requires Balanced(t, h) && Ordered(cmp, t, Unbounded, Unbounded)
    ensures ValidTree(cmp, t)
  {
    BalancedHeight(t, h);
    BalancedWellShaped(t, h);
  }

  lemma {:induction false} CountTwo(t: Tree, u: Tree, p: PageID)
    ensures CountAll([t], p) == Count(t, p)
    ensures CountAll([t, u], p) == Count(t, p) + Count(u, p)
  {
    assert [t][1..] == [] && [t, u][1..] == [u] && [u][1..] == [];
    assert CountAll([u], p) == Count(u, p);
  }

  lemma {:induction false} InsertRootConserves(cmp: Cmp, t: Tree, key: Key, ptr: Pointer, g: nat, a: Alloc, p: PageID)
    requires WellShaped(t) && Clean(t, a)
    ensures var (n, a') := InsertRoot(cmp, t, key, ptr, g, a); Conserves(Count(t, p), a, Count(n, p), a', p)
  {
    var r := Insert(cmp, t, key, ptr, g, a);
    InsertConserves(cmp, t, key, ptr, g, a, p);
    if r.Two? {
      AllocateConserves(r.a, p);
      CountTwo(r.t, r.rest, p);
    }
  }

  /** Replacing one tree replaces one map. */
  lemma {:induction false} ReplaceMeaning(cmp: Cmp, f: File, name: string, t: Tree, a: Alloc)
    requires ValidFile(cmp, f) && ValidTree(cmp, t)
    ensures var f' := f.(trees := f.trees[name := t], a := a);
            ValidFile(cmp, f') && MeaningOf(f') == MeaningOf(f)[name := Contents(t)]
  {
  }

  lemma {:induction false} InsertNamedValid(cmp: Cmp, f: File, name: string, key: Key, ptr: Pointer, g: nat)
    requires TotalOrder(cmp) && ValidFile(cmp, f)
    ensures ValidFile(cmp, InsertNamed(cmp, f, name, key, ptr, g))
    ensures MeaningOf(InsertNamed(cmp, f, name, key, ptr, g)) == Apply(MeaningOf(f), Put(name, key, ptr, g))
  {
    var (root, a) := StartTree(f, name, g);
    InsertRootValid(cmp, root, key, ptr, g, a);
    var (t, a') := InsertRoot(cmp, root, key, ptr, g, a);
    ReplaceMeaning(cmp, f, name, t, a');
    assert name !in f.trees ==> Contents(root) == map[];
  }

  lemma {:induction false} InsertNamedKept(cmp: Cmp, f: File, name: string, key: Key, ptr: Pointer, g: nat, p: PageID)
    requires ValidFile(cmp, f) && OwnedOnce(f)
    ensures Kept(f, InsertNamed(cmp, f, name, key, ptr, g), p)
  {
    var (root, a) := StartTree(f, name, g);
    if name in f.trees {
      TreeClean(f, name);
    } else {
      NewRootClean(f, g);
      AllocateConserves(f.a, p);
    }
    InsertRootConserves(cmp, root, key, ptr, g, a, p);
    var (t, a') := InsertRoot(cmp, root, key, ptr, g, a);
    ReplaceKeeps(f, name, t, a', p);
  }

  lemma {:induction false} InsertNamedOwned(cmp: Cmp, f: File, name: string, key: Key, ptr: Pointer, g: nat)
    requires ValidFile(cmp, f) && OwnedOnce(f)
    ensures OwnedOnce(InsertNamed(cmp, f, name, key, ptr, g))
  {
    var f' := InsertNamed(cmp, f, name, key, ptr, g);
    forall p: PageID
      ensures Kept(f, f', p)
    {
      InsertNamedKept(cmp, f, name, key, ptr, g, p);
    }
    OwnedAfter(f, f');
  }

  lemma {:induction false} NewRootClean(f: File, g: nat)
    requires OwnedOnce(f)
    ensures var (id, a) := Allocate(f.a); Clean(Leaf(id, g, [], [], 0), a)
  {
    forall q: PageID | q < 3
      ensures Held(Allocate(f.a).1, q) == 0 && Is(Allocate(f.a).0, q) == 0
    {
      assert Owners(f, q) == 0;
      AllocateConserves(f.a, q);
    }
  }

  // ---------------------------------------------------------------- delete

  lemma {:induction false} CollapseValid(cmp: Cmp, t: Tree, a: Alloc)
    requires TotalOrder(cmp) && ValidTree(cmp, t)
    ensures ValidTree(cmp, Collapse(t, a).0) && Contents(Collapse(t, a).0) == Contents(t)
    ensures t.Branch? && |t.kids| == 1 ==>
            Collapse(t, a).0 == t.kids[0] && Height(Collapse(t, a).0) == Height(t) - 1
    ensures !(t.Branch? && |t.kids| == 1) ==> Collapse(t, a) == (t, a)
  {
    if t.Branch? && |t.keys| == 0 {
      ContentsOne(t.kids[0]);
      assert t.kids == [t.kids[0]];
      HeightOf(cmp, t.kids[0], Height(t) - 1);
    }
  }

  lemma {:induction false} CollapseConserves(t: Tree, a: Alloc, p: PageID)
    requires t.id >= 3
    ensures Conserves(Count(t, p), a, Count(Collapse(t, a).0, p), Collapse(t, a).1, p)
  {
    if t.Branch? && |t.keys| == 0 && |t.kids| == 1 {
      OrphanConserves(a, t.id, p);
      assert t.kids == [t.kids[0]];
      CountTwo(t.kids[0], t.kids[0], p);
    }
  }

  lemma {:induction false} DeleteNamedValid(cmp: Cmp, f: File, name: string, key: Key, g: nat)
    requires TotalOrder(cmp) && ValidFile(cmp, f) && DeleteNamed(cmp, f, name, key, g).Ok?
    ensures ValidFile(cmp, DeleteNamed(cmp, f, name, key, g).f)
    ensures MeaningOf(DeleteNamed(cmp, f, name, key, g).f) == Apply(MeaningOf(f), Drop(name, key, g))
  {
    if name in f.trees {
      var t := f.trees[name];
      DeleteMissing(cmp, t, key, g, f.a, Height(t), Unbounded, Unbounded);
      var r := Delete(cmp, t, key, g, f.a, Height(t));
      if r.Done? {
        DeleteRemoves(cmp, t, key, g, f.a, Height(t), Unbounded, Unbounded);
        HeightOf(cmp, r.t, Height(t));
        CollapseValid(cmp, r.t, r.a);
        ReplaceMeaning(cmp, f, name, Collapse(r.t, r.a).0, Collapse(r.t, r.a).1);
      } else {
        assert Contents(t) - {key} == Contents(t);
      }
    }
  }

  lemma {:induction false} DeleteNamedOwned(cmp: Cmp, f: File, name: string, key: Key, g: nat)
    requires ValidFile(cmp, f) && OwnedOnce(f)
    requires name in f.trees && Delete(cmp, f.trees[name], key, g, f.a, Height(f.trees[name])).Done?
    ensures OwnedOnce(DeleteNamed(cmp, f, name, key, g).f)
  {
    var t := f.trees[name];
    var r := Delete(cmp, t, key, g, f.a, Height(t));
    var f' := DeleteNamed(cmp, f, name, key, g).f;
    TreeClean(f, name);
    forall q: PageID
      ensures Conserves(Count(t, q), f.a, Count(r.t, q), r.a, q)
    {
      DeleteConserves(cmp, t, key, g, f.a, Height(t), q);
    }
    StepClean(t, f.a, r.t, r.a);
    TouchClean(r.t, g, r.a);
    forall p: PageID
      ensures Kept(f, f', p)
    {
      assert Conserves(Count(t, p), f.a, Count(r.t, p), r.a, p);
      CollapseConserves(r.t, r.a, p);
      ReplaceKeeps(f, name, f'.trees[name], f'.a, p);
    }
    OwnedAfter(f, f');
  }

  // ---------------------------------------------------------------- deleting an absent key

  /** Every node on the way to `key` was already written by generation `g`. */
  predicate PathCurrent(cmp: Cmp, t: Tree, key: Key, g: nat)
    requires WellShaped(t)
    decreases t
  {
    t.gen == g && (t.Branch? ==> PathCurrent(cmp, t.kids[UpperBound(cmp, t.keys, key)], key, g))
  }

  /** A miss leaves the allocator alone if the path is current; otherwise it orphans a page still in the tree. */
  lemma {:induction false} MissOrphans(cmp: Cmp, t: Tree, key: Key, g: nat, a: Alloc, h: nat) returns (p: PageID)
    requires Balanced(t, h) && WellShaped(t) && Clean(t, a)
    requires Delete(cmp, t, key, g, a, h).Missing?
    ensures a.orphans <= Delete(cmp, t, key, g, a, h).a.orphans
    ensures PathCurrent(cmp, t, key, g) ==> Delete(cmp, t, key, g, a, h).a == a
    ensures !PathCurrent(cmp, t, key, g) ==> Count(t, p) >= 1 && p in Delete(cmp, t, key, g, a, h).a.orphans
    decreases t
  {
    var (id, a1) := Touch(t.id, t.gen, g, a);
    TouchClean(t, g, a);
    p := t.id;
    assert t.gen != g ==> a1.orphans[|a1.orphans| - 1] == t.id;
    if t.Branch? {
      var i := UpperBound(cmp, t.keys, key);
      KidClean(t, i, g, a);
      var q := MissOrphans(cmp, t.kids[i], key, g, a1, h - 1);
      if t.gen == g {
        p := q;
        CountAround(t.kids, i, q);
      }
    }
  }

  /** Deleting an absent key keeps ownership exactly when the whole path is of the current generation. */
  lemma {:induction false} MissOwned(cmp: Cmp, f: File, name: string, key: Key, g: nat)
    requires TotalOrder(cmp) && ValidFile(cmp, f) && OwnedOnce(f)
    requires name in f.trees && key !in Contents(f.trees[name])
    ensures DeleteNamed(cmp, f, name, key, g).Ok?
    ensures OwnedOnce(DeleteNamed(cmp, f, name, key, g).f) <==> PathCurrent(cmp, f.trees[name], key, g)
  {
    var t := f.trees[name];
    DeleteMissing(cmp, t, key, g, f.a, Height(t), Unbounded, Unbounded);
    TreeClean(f, name);
    var p := MissOrphans(cmp, t, key, g, f.a, Height(t));
    var f' := DeleteNamed(cmp, f, name, key, g).f;
    if !PathCurrent(cmp, t, key, g) {
      CountNamesOne(f.trees, name, p);
      assert Owners(f', p) >= 2;
    }
  }

  // ---------------------------------------------------------------- commit

  lemma {:induction false} CommitOwned(f: File)
    requires OwnedOnce(f)
    ensures OwnedOnce(CommitPages(f))
    ensures CommitPages(f).catalog >= 3
  {
    var f' := CommitPages(f);
    var a := Orphan(f.a, f.catalog);
    var b := Alloc(a.free + a.orphans, a.next, []);
    forall p: PageID
      ensures f.a.next <= f'.a.next
      ensures Owners(f, p) + Fresh(f.a, f'.a, p) ==
              CountNames(f.trees, p) + Held(f'.a, p) + Is(f'.catalog, p) + (if p in f.lost then 1 else 0)
    {
      AllocateConserves(b, p);
      assert Held(b, p) == Held(a, p);
      if f.catalog >= 3 {
        OrphanConserves(f.a, f.catalog, p);
      }
    }
    assert f'.catalog < 3 ==> Owners(f, f'.catalog) == 0;
    assert forall p: PageID :: Kept(f, f', p);
    OwnedAfter(f, f');
  }

  /** From the second commit on, the new catalog is written over the old one. */
  lemma {:induction false} CommitReusesCatalog(f: File)
    requires f.catalog >= 3
    ensures CommitPages(f).catalog == f.catalog && CommitPages(f).a.next == f.a.next
    ensures CommitPages(f).a.free == f.a.free + f.a.orphans
  {
  }

  // ---------------------------------------------------------------- every call, every run

  /** The calls that keep the file sound, decided before the call. */
  ghost predicate Safe(cmp: Cmp, f: File, op: Op)
    requires ValidFile(cmp, f)
  {
    op.Drop? && op.name in f.trees ==>
      var t := f.trees[op.name];
      if op.key in Contents(t) then !BorrowFails(cmp, t, op.key) else PathCurrent(cmp, t, op.key, op.gen)
  }

  ghost predicate Sound(cmp: Cmp, f: File) {
    ValidFile(cmp, f) && OwnedOnce(f)
  }

  /** One call: it completes and leaves the file sound if and only if it is safe, and then it does what the maps do. */
  lemma {:induction false} StepSound(cmp: Cmp, f: File, op: Op)
    requires TotalOrder(cmp) && Sound(cmp, f)
    ensures Step(cmp, f, op).Ok? && Sound(cmp, Step(cmp, f, op).f) <==> Safe(cmp, f, op)
    ensures Step(cmp, f, op).Ok? ==> MeaningOf(Step(cmp, f, op).f) == Apply(MeaningOf(f), op)
  {
    match op
    case Put(name, key, ptr, g) =>
      InsertNamedValid(cmp, f, name, key, ptr, g);
      InsertNamedOwned(cmp, f, name, key, ptr, g);
    case Drop(name, key, g) =>
      DropSound(cmp, f, name, key, g);
    case Commit =>
      CommitOwned(f);
  }

  lemma {:induction false} DropSound(cmp: Cmp, f: File, name: string, key: Key, g: nat)
    requires TotalOrder(cmp) && Sound(cmp, f)
    ensures var r := DeleteNamed(cmp, f, name, key, g);
            && (r.Ok? && Sound(cmp, r.f) <==> Safe(cmp, f, Drop(name, key, g)))
            && (r.Ok? ==> MeaningOf(r.f) == Apply(MeaningOf(f), Drop(name, key, g)))
  {
    var r := DeleteNamed(cmp, f, name, key, g);
    if r.Ok? {
      DeleteNamedValid(cmp, f, name, key, g);
    }
    if name in f.trees {
      var t := f.trees[name];
      DeleteMissing(cmp, t, key, g, f.a, Height(t), Unbounded, Unbounded);
      if key in Contents(t) {
        DeletePanics(cmp, t, key, g, f.a, Height(t));
        if r.Ok? {
          DeleteNamedOwned(cmp, f, name, key, g);
        }
      } else {
        MissOwned(cmp, f, name, key, g);
      }
    }
  }

  /** A run of calls, up to one that fails or leaves something other than search trees. */
  ghost function Run(cmp: Cmp, f: File, ops: seq<Op>): Outcome
    requires ValidFile(cmp, f)
    decreases |ops|
  {
    if ops == [] then Ok(f)
    else
      match Step(cmp, f, ops[0])
      case Failed => Failed
      case Ok(f') => if ValidFile(cmp, f') then Run(cmp, f', ops[1..]) else Failed
  }

  /** Each call of a run is safe where it is made. */
  ghost predicate SafeRun(cmp: Cmp, f: File, ops: seq<Op>)
    requires ValidFile(cmp, f)
    decreases |ops|
  {
    ops == [] ||
    (Safe(cmp, f, ops[0]) &&
     match Step(cmp, f, ops[0])
     case Failed => true
     case Ok(f') => ValidFile(cmp, f') ==> SafeRun(cmp, f', ops[1..]))
  }

  function ApplyAll(m: Meaning, ops: seq<Op>): Meaning
    decreases |ops|
  {
    if ops == [] then m else ApplyAll(Apply(m, ops[0]), ops[1..])
  }

  /** A run of safe calls goes through, keeps the file sound, and its trees hold what the maps hold. */
  lemma {:induction false} RunSound(cmp: Cmp, f: File, ops: seq<Op>)
    requires TotalOrder(cmp) && Sound(cmp, f) && SafeRun(cmp, f, ops)
    ensures var r := Run(cmp, f, ops); r.Ok? && Sound(cmp, r.f) && MeaningOf(r.f) == ApplyAll(MeaningOf(f), ops)
    decreases |ops|
  {
    if ops != [] {
      StepSound(cmp, f, ops[0]);
      RunSound(cmp, Step(cmp, f, ops[0]).f, ops[1..]);
    }
  }

  /** In a sound file the allocator never hands out a page that is in use. */
  lemma {:induction false} AllocationIsFresh(f: File)
    requires OwnedOnce(f)
    ensures var p := Allocate(f.a).0;
            p >= 3 && p != f.catalog && p !in f.a.orphans && forall n :: n in f.trees ==> Count(f.trees[n], p) == 0
  {
    var (p, a) := Allocate(f.a);
    AllocateConserves(f.a, p);
    assert Owners(f, p) == if 3 <= p < f.a.next then 1 else 0;
    forall n | n in f.trees
      ensures Count(f.trees[n], p) == 0
    {
      CountNamesOne(f.trees, n, p);
    }
  }
}
