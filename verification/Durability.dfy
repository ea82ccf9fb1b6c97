/**
 What the calls on an index file keep between commits so that every commit is atomic.

 `Recoverable` ties the disk, the page cache, the dirty pages and the trees last committed
 together. Each insertion and deletion keeps it, a commit re-establishes it for the next
 generation, and it implies what `CommitCrash.CrashAtomic` asks for.
 */
module Durability {
  import opened Options
  import opened KeyOrder
  import opened PageFormat
  import opened CowTree
  import opened TreePages
  import opened TreeGens
  import opened PageStore
  import opened IndexFile
  import opened CommitCrash

  /** The cache agrees with the disk on every node page that is not dirty. */
  ghost predicate Coherent(disk: Disk, m: Store, dirty: set<PageID>, cat: PageID) {
    forall p :: p in m && p >= 3 && p != cat && p !in dirty ==> p in DiskNodes(disk) && DiskNodes(disk)[p] == m[p]
  }

  /** Page `p` holds a node of the committed trees, older than `g`, and nothing will hand it out or overwrite it. */
  ghost predicate Protected(disk: Disk, dirty: set<PageID>, f: File, g: nat, p: PageID) {
    && p >= 3 && p != f.catalog && Taken(f.a, p) && p !in dirty
    && p in DiskNodes(disk) && DiskNodes(disk)[p].gen < g
  }

  /** The superblock slots carry generations below `g`, and not the same one twice. */
  ghost predicate SlotsBelow(disk: Disk, g: nat) {
    && (forall s: PageID :: s < 2 && ValidSlot(disk, s) ==> disk[s].gen < g)
    && (ValidSlot(disk, 0) && ValidSlot(disk, 1) ==> disk[0].gen != disk[1].gen)
  }

  /** The disk shows the trees `durable`, and a commit under generation `g` may replace them by those of `f`. */
  ghost predicate Recoverable(disk: Disk, m: Store, dirty: set<PageID>, durable: Trees, f: File, g: nat) {
    && Shows(disk, durable) && Reopen(disk).value.catalog == f.catalog >= 2
    && (f.catalog == 2 ==> durable == map[])
    && AllStored(m, f.trees) && Coherent(disk, m, dirty, f.catalog)
    && (forall p :: p in dirty ==> p in m && p >= 3 && p != f.catalog)
    && (forall p :: Uses(durable, p) ==> Protected(disk, dirty, f, g, p))
    && SlotsBelow(disk, g)
    && (forall n :: n in f.trees ==> GenAtMost(f.trees[n], g))
  }

  // ---------------------------------------------------------------- ownership, tree by tree

  lemma {:induction false} OwnedApart(f: File, n: string)
    requires OwnedOnce(f) && n in f.trees
    ensures Apart(f.trees[n], f.a) && Clean(f.trees[n], f.a)
  {
    TreeClean(f, n);
    forall p: PageID
      ensures Count(f.trees[n], p) + Held(f.a, p) + (if p >= f.a.next then 1 else 0) <= 1
    {
      assert Owners(f, p) == if 3 <= p < f.a.next then 1 else 0;
      CountNamesOne(f.trees, n, p);
    }
  }

  lemma {:induction false} OwnedElsewhere(f: File, n: string, k: string, p: PageID)
    requires OwnedOnce(f) && n in f.trees && k in f.trees && n != k && Count(f.trees[k], p) >= 1
    ensures Count(f.trees[n], p) == 0
  {
    CountNamesOne(f.trees, n, p);
    CountNamesOne(f.trees - {n}, k, p);
    assert Owners(f, p) <= 1;
  }

  /** A page of a tree is no one else's; a page on offer is nobody's. */
  lemma {:induction false} PageOwned(f: File, p: PageID)
    requires OwnedOnce(f)
    ensures Uses(f.trees, p) ==> 3 <= p < f.a.next && p != f.catalog && Taken(f.a, p)
    ensures !Taken(f.a, p) ==> p >= 3 && p != f.catalog && !Uses(f.trees, p)
  {
    assert Owners(f, p) == if 3 <= p < f.a.next then 1 else 0;
    assert Owners(f, f.catalog) == if 3 <= f.catalog < f.a.next then 1 else 0;
    forall n | n in f.trees && Count(f.trees[n], p) >= 1
      ensures CountNames(f.trees, p) >= 1
    {
      CountNamesOne(f.trees, n, p);
    }
  }

  /** An operation on one tree leaves the pages of the others alone. */
  lemma {:induction false} OthersStored(m: Store, d: set<PageID>, m': Store, d': set<PageID>, w: set<PageID>, f: File,
                                        n: string, g: nat)
    requires OwnedOnce(f) && n in f.trees && AllStored(m, f.trees)
    requires Wrote(m, d, m', d', w) && Permitted(m, w, f.trees[n], f.a, g)
    ensures forall k :: k in f.trees && k != n ==> Stored(m', f.trees[k])
  {
    forall k | k in f.trees && k != n
      ensures Stored(m', f.trees[k])
    {
      forall p | Count(f.trees[k], p) >= 1
        ensures Count(f.trees[n], p) == 0 && Taken(f.a, p)
      {
        OwnedElsewhere(f, n, k, p);
        assert Uses(f.trees, p);
        PageOwned(f, p);
      }
      StoredElsewhere(m, d, m', d', w, f.trees[n], f.a, g, f.trees[k]);
    }
  }

  // ---------------------------------------------------------------- calls

  /** The pages a call under generation `g` may write: pages on offer, and pages of the trees that `g` wrote. */
  ghost predicate MayWrite(m: Store, f: File, w: set<PageID>, g: nat) {
    forall p :: p in w ==> !Taken(f.a, p) || (Uses(f.trees, p) && p in m && m[p].gen == g)
  }

  /** No call writes a page of the committed trees. */
  lemma {:induction false} WritesMissDurable(disk: Disk, m: Store, dirty: set<PageID>, durable: Trees, f: File, g: nat,
                                             w: set<PageID>, p: PageID)
    requires Recoverable(disk, m, dirty, durable, f, g) && OwnedOnce(f) && MayWrite(m, f, w, g) && p in w
    requires forall q :: q in DiskNodes(disk) ==> q in m
    ensures !Uses(durable, p) && p >= 3 && p != f.catalog
  {
    PageOwned(f, p);
  }

  lemma {:induction false} CallRecoverable(disk: Disk, m: Store, d: set<PageID>, m': Store, d': set<PageID>,
                                           w: set<PageID>, durable: Trees, f: File, f': File, g: nat)
    requires Recoverable(disk, m, d, durable, f, g) && OwnedOnce(f)
    requires forall q :: q in DiskNodes(disk) ==> q in m
    requires Wrote(m, d, m', d', w) && MayWrite(m, f, w, g) && Later(f.a, f'.a) && f'.catalog == f.catalog
    requires AllStored(m', f'.trees) && forall n :: n in f'.trees ==> GenAtMost(f'.trees[n], g)
    ensures Recoverable(disk, m', d', durable, f', g)
  {
    forall p | p in w
      ensures !Uses(durable, p) && p >= 3 && p != f.catalog
    {
      WritesMissDurable(disk, m, d, durable, f, g, w, p);
    }
    forall p | Uses(durable, p)
      ensures Protected(disk, d', f', g, p)
    {
      assert Protected(disk, d, f, g, p);
    }
  }

  /** A page that is not cached needs no writing even if it is marked dirty. */
  lemma {:induction false} DirtyCached(disk: Disk, cache: Store, dirty: set<PageID>, durable: Trees, f: File, g: nat)
    requires Recoverable(disk, DiskNodes(disk) + cache, dirty, durable, f, g)
    ensures Recoverable(disk, DiskNodes(disk) + cache, dirty * cache.Keys, durable, f, g)
  {
    forall p | Uses(durable, p)
      ensures Protected(disk, dirty * cache.Keys, f, g, p)
    {
      assert Protected(disk, dirty, f, g, p);
    }
  }

  /** A later generation may take over. */
  lemma {:induction false} RecoverableLater(disk: Disk, m: Store, dirty: set<PageID>, durable: Trees, f: File, g: nat,
                                            g': nat)
    requires Recoverable(disk, m, dirty, durable, f, g) && g <= g'
    ensures Recoverable(disk, m, dirty, durable, f, g')
  {
    forall n | n in f.trees
      ensures GenAtMost(f.trees[n], g')
    {
      GenWeaken(f.trees[n], g, g');
    }
    forall p | Uses(durable, p)
      ensures Protected(disk, dirty, f, g', p)
    {
      assert Protected(disk, dirty, f, g, p);
    }
  }

  // ---------------------------------------------------------------- new roots

  /** A new name starts with an empty leaf on a page of its own. */
  lemma {:induction false} StartSound(cmp: Cmp, f: File, name: string, g: nat)
    requires Sound(cmp, f) && name !in f.trees
    ensures var (t, a) := StartTree(f, name, g);
            && Sound(cmp, f.(trees := f.trees[name := t], a := a)) && Later(f.a, a) && !Taken(f.a, t.id)
            && MeaningOf(f.(trees := f.trees[name := t], a := a)) == MeaningOf(f)[name := map[]]
            && NodeOf(t) == LeafNode(g, [], [], 0) && t.Leaf? && t.id == Allocate(f.a).0 && a == Allocate(f.a).1
  {
    var (t, a) := StartTree(f, name, g);
    var f' := f.(trees := f.trees[name := t], a := a);
    LaterTouch(0, 0, 0, f.a);
    forall p: PageID
      ensures Kept(f, f', p)
    {
      AllocateConserves(f.a, p);
      ReplaceKeeps(f, name, t, a, p);
    }
    OwnedAfter(f, f');
  }

  lemma {:induction false} FreshTreeStored(m: Store, d: set<PageID>, m': Store, d': set<PageID>, f: File, name: string,
                                           t: Tree)
    requires OwnedOnce(f) && AllStored(m, f.trees) && t.Leaf? && !Taken(f.a, t.id)
    requires Wrote(m, d, m', d', {t.id}) && m'[t.id] == NodeOf(t)
    ensures AllStored(m', f.trees[name := t])
  {
    forall n | n in f.trees
      ensures Stored(m', f.trees[n])
    {
      forall p | Count(f.trees[n], p) >= 1
        ensures p in m' && (p in m ==> m'[p] == m[p])
      {
        assert Uses(f.trees, p);
        PageOwned(f, p);
        StoredIn(m, f.trees[n], p);
      }
      StoredFrame(m, m', f.trees[n]);
    }
  }

  lemma {:induction false} RootsUpdate(trees: Trees, name: string, t: Tree)
    ensures Roots(trees[name := t]) == Roots(trees)[name := t.id]
  {
  }

  /** Starting a tree keeps everything the file promises. */
  lemma {:induction false} StartKeeps(cmp: Cmp, disk: Disk, m: Store, d: set<PageID>, m': Store, d': set<PageID>,
                                      durable: Trees, f: File, f': File, name: string, g: nat)
    requires Sound(cmp, f) && AllStored(m, f.trees) && name !in f.trees && DiskNodes(disk).Keys <= m.Keys
    requires var (t, a) := StartTree(f, name, g);
             f' == f.(trees := f.trees[name := t], a := a) && Wrote(m, d, m', d', {t.id})
               && m'[t.id] == LeafNode(g, [], [], 0)
    ensures Sound(cmp, f') && AllStored(m', f'.trees) && MeaningOf(f') == MeaningOf(f)[name := map[]]
    ensures Roots(f'.trees) == Roots(f.trees)[name := f'.trees[name].id]
    ensures !Recoverable(disk, m, d, durable, f, g) || Recoverable(disk, m', d', durable, f', g)
  {
    StartSound(cmp, f, name, g);
    var t := f'.trees[name];
    RootsUpdate(f.trees, name, t);
    FreshTreeStored(m, d, m', d', f, name, t);
    if Recoverable(disk, m, d, durable, f, g) {
      CallRecoverable(disk, m, d, m', d', {t.id}, durable, f, f', g);
    }
  }

  /** The page for a new root is in neither half of the split below it. */
  lemma {:induction false} NewRootPage(cmp: Cmp, t: Tree, key: Key, ptr: Pointer, g: nat, a: Alloc)
    requires WellShaped(t) && Apart(t, a) && Clean(t, a) && Insert(cmp, t, key, ptr, g, a).Two?
    ensures var r := Insert(cmp, t, key, ptr, g, a);
            var id := Allocate(r.a).0;
            Count(r.t, id) == 0 && Count(r.rest, id) == 0 && !Taken(a, id)
  {
    var r := Insert(cmp, t, key, ptr, g, a);
    var id := Allocate(r.a).0;
    InsertConserves(cmp, t, key, ptr, g, a, id);
    AllocateConserves(r.a, id);
    LaterInsert(cmp, t, key, ptr, g, a);
  }

  /** Replacing one stored tree by another, the other trees being out of reach. */
  lemma {:induction false} ReplaceStored(m: Store, d: set<PageID>, m': Store, d': set<PageID>, w: set<PageID>, f: File,
                                         n: string, g: nat, t: Tree)
    requires OwnedOnce(f) && n in f.trees && AllStored(m, f.trees)
    requires Wrote(m, d, m', d', w) && Permitted(m, w, f.trees[n], f.a, g) && Stored(m', t)
    ensures AllStored(m', f.trees[n := t]) && MayWrite(m, f, w, g)
  {
    OthersStored(m, d, m', d', w, f, n, g);
    forall p | p in w && Taken(f.a, p)
      ensures Uses(f.trees, p)
    {
      assert Count(f.trees[n], p) >= 1;
    }
  }

  /** An insertion into a new index is one into the index just started. */
  lemma {:induction false} InsertStarted(cmp: Cmp, f: File, f': File, name: string, key: Key, ptr: Pointer, g: nat)
    requires (name in f.trees ==> WellShaped(f.trees[name])) && name in f'.trees && WellShaped(f'.trees[name])
    requires var (t, a) := StartTree(f, name, g); f' == f.(trees := f.trees[name := t], a := a)
    ensures InsertNamed(cmp, f', name, key, ptr, g) == InsertNamed(cmp, f, name, key, ptr, g)
  {
    var (t, a) := InsertRoot(cmp, f'.trees[name], key, ptr, g, f'.a);
    assert f'.trees[name := t] == f.trees[name := t];
  }

  /** An insertion at a root keeps generations and takes pages only from the allocator. */
  lemma {:induction false} InsertRootGen(cmp: Cmp, t: Tree, key: Key, ptr: Pointer, g: nat, a: Alloc)
    requires WellShaped(t)
    ensures var (t', a') := InsertRoot(cmp, t, key, ptr, g, a); Later(a, a') && (GenAtMost(t, g) ==> GenAtMost(t', g))
  {
    LaterInsert(cmp, t, key, ptr, g, a);
    LaterTouch(0, 0, 0, Insert(cmp, t, key, ptr, g, a).a);
    if GenAtMost(t, g) {
      InsertGen(cmp, t, key, ptr, g, a);
    }
  }

  /** A call that replaces one tree keeps the file recoverable. */
  lemma {:induction false} ReplaceRecoverable(disk: Disk, m: Store, d: set<PageID>, m': Store, d': set<PageID>,
                                              w: set<PageID>, durable: Trees, f: File, name: string, t: Tree, a: Alloc,
                                              g: nat)
    requires OwnedOnce(f) && AllStored(m, f.trees) && name in f.trees && DiskNodes(disk).Keys <= m.Keys
    requires Wrote(m, d, m', d', w) && Permitted(m, w, f.trees[name], f.a, g) && Stored(m', t)
    requires Later(f.a, a) && (GenAtMost(f.trees[name], g) ==> GenAtMost(t, g))
    ensures var f' := f.(trees := f.trees[name := t], a := a);
            && AllStored(m', f'.trees) && Roots(f'.trees) == Roots(f.trees)[name := t.id]
            && (!Recoverable(disk, m, d, durable, f, g) || Recoverable(disk, m', d', durable, f', g))
  {
    var f' := f.(trees := f.trees[name := t], a := a);
    ReplaceStored(m, d, m', d', w, f, name, g, t);
    RootsUpdate(f.trees, name, t);
    if Recoverable(disk, m, d, durable, f, g) {
      CallRecoverable(disk, m, d, m', d', w, durable, f, f', g);
    }
  }

  lemma {:induction false} InsertKeeps(cmp: Cmp, disk: Disk, m: Store, d: set<PageID>, m': Store, d': set<PageID>,
                                       w: set<PageID>, durable: Trees, f: File, f': File, name: string, key: Key,
                                       ptr: Pointer, g: nat)
    requires TotalOrder(cmp) && Sound(cmp, f) && AllStored(m, f.trees) && name in f.trees
    requires DiskNodes(disk).Keys <= m.Keys
    requires var (t, a) := InsertRoot(cmp, f.trees[name], key, ptr, g, f.a);
             f' == f.(trees := f.trees[name := t], a := a)
    requires Wrote(m, d, m', d', w) && Permitted(m, w, f.trees[name], f.a, g) && Stored(m', f'.trees[name])
    ensures f' == InsertNamed(cmp, f, name, key, ptr, g)
    ensures Sound(cmp, f') && AllStored(m', f'.trees) && MeaningOf(f') == Apply(MeaningOf(f), Put(name, key, ptr, g))
    ensures Roots(f'.trees) == Roots(f.trees)[name := f'.trees[name].id]
    ensures !Recoverable(disk, m, d, durable, f, g) || Recoverable(disk, m', d', durable, f', g)
  {
    StepSound(cmp, f, Put(name, key, ptr, g));
    InsertRootGen(cmp, f.trees[name], key, ptr, g, f.a);
    ReplaceRecoverable(disk, m, d, m', d', w, durable, f, name, f'.trees[name], f'.a, g);
  }

  lemma {:induction false} DeleteRootGen(cmp: Cmp, t: Tree, key: Key, g: nat, a: Alloc, h: nat)
    requires Balanced(t, h) && !Delete(cmp, t, key, g, a, h).Panic?
    ensures var r := Delete(cmp, t, key, g, a, h);
            var (t', a') := if r.Done? then Collapse(r.t, r.a) else (t, r.a);
            Later(a, a') && (GenAtMost(t, g) ==> GenAtMost(t', g))
  {
    LaterDelete(cmp, t, key, g, a, h);
    if GenAtMost(t, g) && Delete(cmp, t, key, g, a, h).Done? {
      DeleteGen(cmp, t, key, g, a, h);
    }
  }

  lemma {:induction false} DeleteKeeps(cmp: Cmp, disk: Disk, m: Store, d: set<PageID>, m': Store, d': set<PageID>,
                                       w: set<PageID>, durable: Trees, f: File, f': File, name: string, key: Key,
                                       g: nat)
    requires TotalOrder(cmp) && Sound(cmp, f) && AllStored(m, f.trees) && name in f.trees
    requires DiskNodes(disk).Keys <= m.Keys
    requires var r := Delete(cmp, f.trees[name], key, g, f.a, Height(f.trees[name]));
             !r.Panic? && var (t, a) := if r.Done? then Collapse(r.t, r.a) else (f.trees[name], r.a);
             f' == f.(trees := f.trees[name := t], a := a)
    requires Wrote(m, d, m', d', w) && Permitted(m, w, f.trees[name], f.a, g) && Stored(m', f'.trees[name])
    ensures DeleteNamed(cmp, f, name, key, g) == Ok(f')
    ensures AllStored(m', f'.trees) && Roots(f'.trees) == Roots(f.trees)[name := f'.trees[name].id]
    ensures f'.trees[name] == f.trees[name] ==> Roots(f'.trees) == Roots(f.trees)
    ensures !Recoverable(disk, m, d, durable, f, g) || Recoverable(disk, m', d', durable, f', g)
  {
    DeleteRootGen(cmp, f.trees[name], key, g, f.a, Height(f.trees[name]));
    DeleteNamedIs(cmp, f, f', name, key, g);
    ReplaceRecoverable(disk, m, d, m', d', w, durable, f, name, f'.trees[name], f'.a, g);
  }

  lemma {:induction false} DeleteNamedIs(cmp: Cmp, f: File, f': File, name: string, key: Key, g: nat)
    requires name in f.trees && Balanced(f.trees[name], Height(f.trees[name]))
    requires var r := Delete(cmp, f.trees[name], key, g, f.a, Height(f.trees[name]));
             !r.Panic? && var (t, a) := if r.Done? then Collapse(r.t, r.a) else (f.trees[name], r.a);
             f' == f.(trees := f.trees[name := t], a := a)
    ensures DeleteNamed(cmp, f, name, key, g) == Ok(f')
    ensures f'.trees[name] == f.trees[name] ==> Roots(f'.trees) == Roots(f.trees)
  {
    assert f.trees[name := f.trees[name]] == f.trees;
  }

  // ---------------------------------------------------------------- commit

  lemma {:induction false} RecoverableReady(disk: Disk, m: Store, dirty: set<PageID>, durable: Trees, f: File, g: nat)
    requires Recoverable(disk, m, dirty, durable, f, g) && OwnedOnce(f)
    ensures Ready(disk, m, dirty, durable, f.trees, f.catalog)
    ensures CatalogPlace(durable, f.trees, f.catalog, CommitPages(f).catalog)
  {
    forall p | Uses(f.trees, p)
      ensures p >= 3 && p != f.catalog && p in m
    {
      PageOwned(f, p);
      var n :| n in f.trees && Count(f.trees[n], p) >= 1;
      StoredIn(m, f.trees[n], p);
    }
    forall p | Uses(durable, p)
      ensures Protected(disk, dirty, f, g, p)
    {
    }
    CommitOwned(f);
    PageOwned(CommitPages(f), CommitPages(f).catalog);
    if f.catalog >= 3 {
      CommitReusesCatalog(f);
    }
  }

  /** The writes of a commit of `f` under generation `g`. */
  function WritesOf(disk: Disk, m: Store, order: seq<PageID>, f: File, keep: nat, g: nat): seq<Write>
    requires keep <= |CommitPages(f).a.free| && forall i :: 0 <= i < |order| ==> order[i] in m
  {
    var f' := CommitPages(f);
    CommitWrites(disk, m, order, CatalogWrite(f.trees, f'.catalog, f'.a.free, keep), g, f'.a.next)
  }

  /** Crash atomicity of a commit, from the state that every call keeps. */
  lemma {:induction false} CommitAtomic(disk: Disk, m: Store, dirty: set<PageID>, durable: Trees, f: File, g: nat,
                                        order: seq<PageID>, keep: nat, k: nat, torn: bool)
    requires Recoverable(disk, m, dirty, durable, f, g) && OwnedOnce(f) && Lists(order, dirty)
    requires keep <= |CommitPages(f).a.free| && k <= |order| + 2
    ensures var ws := WritesOf(disk, m, order, f, keep, g);
            var d := CrashDisk(disk, ws, k, torn);
            && (Shows(d, durable) || Shows(d, f.trees))
            && (k == |ws| ==> Shows(d, f.trees))
  {
    RecoverableReady(disk, m, dirty, durable, f, g);
    var f' := CommitPages(f);
    CrashAtomic(disk, m, dirty, durable, f.trees, f.catalog, order, CatalogWrite(f.trees, f'.catalog, f'.a.free, keep),
                g, f'.a.next, k, torn);
  }

  /** Where page `p` stands after a commit. */
  lemma {:induction false} CommitPageWise(disk: Disk, m: Store, order: seq<PageID>, w: Write, g: nat, next: PageID,
                                          p: PageID)
    requires forall i :: 0 <= i < |order| ==> order[i] in m && order[i] >= 3
    requires w.at >= 3 && p >= 3
    ensures var d := WriteAll(disk, CommitWrites(disk, m, order, w, g, next));
            if p == w.at then p in d && d[p] == w.page
            else if p in order then p in d && d[p] == NodePage(m[p])
            else (p in d <==> p in disk) && (p in disk ==> d[p] == disk[p])
  {
    var ws := CommitWrites(disk, m, order, w, g, next);
    var nodes := NodeWrites(m, order);
    assert ws[..|ws| - 1] == nodes + [w];
    assert (nodes + [w])[..|nodes|] == nodes;
    AfterNodeWrites(disk, m, order, p);
  }

  /** A commit leaves the cache in agreement with the disk. */
  lemma {:induction false} CommitCoherent(disk: Disk, cache: Store, dirty: set<PageID>, cat: PageID,
                                          order: seq<PageID>, w: Write, g: nat, next: PageID)
    requires Coherent(disk, DiskNodes(disk) + cache, dirty, cat) && Lists(order, dirty) && dirty <= cache.Keys
    requires (forall p :: p in dirty ==> p >= 3) && w.at >= 3 && (cat >= 3 ==> w.at == cat)
    ensures var disk' := WriteAll(disk, CommitWrites(disk, DiskNodes(disk) + cache, order, w, g, next));
            Coherent(disk', DiskNodes(disk') + cache, {}, w.at)
  {
    var m := DiskNodes(disk) + cache;
    var disk' := WriteAll(disk, CommitWrites(disk, m, order, w, g, next));
    var m' := DiskNodes(disk') + cache;
    forall p | p in m' && p >= 3 && p != w.at
      ensures p in DiskNodes(disk') && DiskNodes(disk')[p] == m'[p]
    {
      CommitPageWise(disk, m, order, w, g, next, p);
    }
  }

  /** After a commit the disk shows the new trees and the next generation may start. */
  lemma {:induction false} CommitRecoverable(disk: Disk, cache: Store, dirty: set<PageID>, durable: Trees, f: File,
                                             g: nat, order: seq<PageID>, keep: nat)
    requires var m := DiskNodes(disk) + cache;
             && Recoverable(disk, m, dirty, durable, f, g) && Lists(order, dirty) && dirty <= cache.Keys
    requires OwnedOnce(f) && keep <= |CommitPages(f).a.free|
    ensures var disk' := WriteAll(disk, WritesOf(disk, DiskNodes(disk) + cache, order, f, keep, g));
            Recoverable(disk', DiskNodes(disk') + cache, {}, f.trees, CommitPages(f), g + 1)
  {
    var m := DiskNodes(disk) + cache;
    var f' := CommitPages(f);
    var disk' := WriteAll(disk, WritesOf(disk, m, order, f, keep, g));
    CommitShows(disk, m, dirty, durable, f, g, order, keep);
    CommitOwned(f);
    if f.catalog >= 3 {
      CommitReusesCatalog(f);
    }
    CommitCoherent(disk, cache, dirty, f.catalog, order, CatalogWrite(f.trees, f'.catalog, f'.a.free, keep), g,
                   f'.a.next);
    FreshlyCommitted(disk', DiskNodes(disk') + cache, f', g);
  }

  lemma {:induction false} FreshlyCommitted(disk: Disk, m: Store, f: File, g: nat)
    requires Shows(disk, f.trees) && SlotsBelow(disk, g + 1) && Coherent(disk, m, {}, f.catalog)
    requires DiskNodes(disk).Keys <= m.Keys
    requires Reopen(disk).value.catalog == f.catalog >= 2 && (f.catalog == 2 ==> f.trees == map[]) && OwnedOnce(f)
    requires forall n :: n in f.trees ==> GenAtMost(f.trees[n], g)
    ensures Recoverable(disk, m, {}, f.trees, f, g + 1)
  {
    forall n | n in f.trees
      ensures Stored(m, f.trees[n]) && GenAtMost(f.trees[n], g + 1)
    {
      CoherentStored(disk, m, f, n);
      GenWeaken(f.trees[n], g, g + 1);
    }
    forall p | Uses(f.trees, p)
      ensures Protected(disk, {}, f, g + 1, p)
    {
      PageOwned(f, p);
      var n :| n in f.trees && Count(f.trees[n], p) >= 1;
      StoredGen(DiskNodes(disk), f.trees[n], g, p);
    }
  }

  lemma {:induction false} CoherentStored(disk: Disk, m: Store, f: File, n: string)
    requires OwnedOnce(f) && n in f.trees && Stored(DiskNodes(disk), f.trees[n])
    requires Coherent(disk, m, {}, f.catalog) && DiskNodes(disk).Keys <= m.Keys
    ensures Stored(m, f.trees[n])
  {
    forall p | Count(f.trees[n], p) >= 1
      ensures p in m && (p in DiskNodes(disk) ==> m[p] == DiskNodes(disk)[p])
    {
      assert Uses(f.trees, p);
      PageOwned(f, p);
      StoredIn(DiskNodes(disk), f.trees[n], p);
    }
    StoredFrame(DiskNodes(disk), m, f.trees[n]);
  }

  /** The superblocks after a whole commit, and what opening the file then finds. */
  lemma {:induction false} CommitShows(disk: Disk, m: Store, dirty: set<PageID>, durable: Trees, f: File, g: nat,
                                       order: seq<PageID>, keep: nat)
    requires Recoverable(disk, m, dirty, durable, f, g) && OwnedOnce(f) && Lists(order, dirty)
    requires keep <= |CommitPages(f).a.free|
    ensures var disk' := WriteAll(disk, WritesOf(disk, m, order, f, keep, g));
            var f' := CommitPages(f);
            && Shows(disk', f.trees) && SlotsBelow(disk', g + 1)
            && Reopen(disk') == Some(Opened(Roots(f.trees), f'.a.free[..keep], f'.a.next, g, f'.catalog))
  {
    var f' := CommitPages(f);
    var w := CatalogWrite(f.trees, f'.catalog, f'.a.free, keep);
    var nodes := NodeWrites(m, order);
    var d := WriteAll(disk, nodes)[w.at := w.page];
    RecoverableReady(disk, m, dirty, durable, f, g);
    CatalogWritten(disk, m, dirty, durable, f.trees, f.catalog, order, w);
    var ws := WritesOf(disk, m, order, f, keep, g);
    assert ws[..|ws| - 1] == nodes + [w];
    assert (nodes + [w])[..|nodes|] == nodes;
    SuperWritten(d, g, w.at, f'.a.next, f.trees);
  }

  // ---------------------------------------------------------------- what reopening finds

  /** The file as opening finds it when the catalog page had room for `keep` of its free pages. */
  function Reread(f: File, keep: nat): File
    requires keep <= |f.a.free|
  {
    f.(a := Alloc(f.a.free[..keep], f.a.next, []), lost := f.lost + set p | p in f.a.free[keep..])
  }

  /** Opening the disk finds the file `f`, and its pages have one owner each. */
  ghost predicate ShowsFile(disk: Disk, f: File) {
    && Shows(disk, f.trees) && OwnedOnce(f) && f.a.orphans == []
    && var o := Reopen(disk).value; o.free == f.a.free && o.next == f.a.next && o.catalog == f.catalog
  }

  /** Cutting the free list short loses pages; it never makes two owners of one page. */
  lemma {:induction false} RereadOwned(f: File, keep: nat)
    requires OwnedOnce(f) && f.a.orphans == [] && keep <= |f.a.free|
    ensures OwnedOnce(Reread(f, keep))
  {
    var f' := Reread(f, keep);
    var tail: seq<PageID> := f.a.free[keep..];
    assert f.a.free == f.a.free[..keep] + tail;
    forall p: PageID
      ensures Owners(f', p) == Owners(f, p)
    {
      assert multiset(f.a.free)[p] == multiset(f.a.free[..keep])[p] + multiset(tail)[p];
      assert multiset(tail)[p] >= 1 <==> p in tail;
      assert Owners(f, p) <= 1;
    }
  }

  /** A commit stopped between the catalog and the superblock: the new catalog under the old end of file. */
  function Window(f: File, next: PageID): File {
    CommitPages(f).(a := CommitPages(f).a.(next := next))
  }

  /** Reopened there, the trees are the new ones, but the allocator is right only if no page was taken off the end. */
  lemma {:induction false} WindowOwned(f: File, next: PageID)
    requires OwnedOnce(f) && 3 <= next <= f.a.next && f.catalog >= 3
    ensures OwnedOnce(Window(f, next)) <==> next == f.a.next
  {
    CommitOwned(f);
    CommitReusesCatalog(f);
    var f', v := CommitPages(f), Window(f, next);
    assert forall p: PageID :: Owners(v, p) == Owners(f', p);
    assert Owners(f', next) == if 3 <= next < f'.a.next then 1 else 0;
  }

  /** What reopening finds at each point of a commit that started from the file `base`. */
  lemma {:induction false} CrashReopens(disk: Disk, m: Store, dirty: set<PageID>, base: File, f: File, g: nat,
                                        order: seq<PageID>, keep: nat, k: nat, torn: bool)
    requires Recoverable(disk, m, dirty, base.trees, f, g) && OwnedOnce(f) && Lists(order, dirty)
    requires ShowsFile(disk, base)
    requires keep <= |CommitPages(f).a.free| && k <= |order| + 2
    ensures var f' := CommitPages(f);
            var d := CrashDisk(disk, WritesOf(disk, m, order, f, keep, g), k, torn);
            if k <= |order| || (k == |order| + 1 && f.catalog == 2) then ShowsFile(d, base)
            else Shows(d, f.trees) && (k == |order| + 2 || base.a.next == f'.a.next ==> ShowsFile(d, Reread(f', keep)))
  {
    var f' := CommitPages(f);
    CommitOwned(f);
    RereadOwned(f', keep);
    if k <= |order| {
      StopAtNodes(disk, m, dirty, base, f, g, order, keep, k, torn);
    } else if k == |order| + 1 {
      StopAtCatalog(disk, m, dirty, base, f, g, order, keep, torn);
    } else {
      var ws := WritesOf(disk, m, order, f, keep, g);
      assert ws[..k] == ws;
      CommitShows(disk, m, dirty, base.trees, f, g, order, keep);
    }
  }

  lemma {:induction false} StopAtNodes(disk: Disk, m: Store, dirty: set<PageID>, base: File, f: File, g: nat,
                                       order: seq<PageID>, keep: nat, k: nat, torn: bool)
    requires Recoverable(disk, m, dirty, base.trees, f, g) && OwnedOnce(f) && Lists(order, dirty)
    requires ShowsFile(disk, base)
    requires keep <= |CommitPages(f).a.free| && k <= |order|
    ensures ShowsFile(CrashDisk(disk, WritesOf(disk, m, order, f, keep, g), k, torn), base)
  {
    RecoverableReady(disk, m, dirty, base.trees, f, g);
    assert WritesOf(disk, m, order, f, keep, g)[..k] == NodeWrites(m, order[..k]);
    NodesOnly(disk, m, dirty, base.trees, f.trees, f.catalog, order[..k]);
  }

  lemma {:induction false} StopAtCatalog(disk: Disk, m: Store, dirty: set<PageID>, base: File, f: File, g: nat,
                                         order: seq<PageID>, keep: nat, torn: bool)
    requires Recoverable(disk, m, dirty, base.trees, f, g) && OwnedOnce(f) && Lists(order, dirty)
    requires ShowsFile(disk, base)
    requires keep <= |CommitPages(f).a.free|
    ensures var f' := CommitPages(f);
            var d := CrashDisk(disk, WritesOf(disk, m, order, f, keep, g), |order| + 1, torn);
            Shows(d, if f.catalog >= 3 then f.trees else base.trees) &&
            var o := Reopen(d).value;
            if f.catalog >= 3 then o.free == f'.a.free[..keep] && o.next == base.a.next && o.catalog == f'.catalog
            else o.free == base.a.free && o.next == base.a.next && o.catalog == base.catalog
  {
    var f' := CommitPages(f);
    var w := CatalogWrite(f.trees, f'.catalog, f'.a.free, keep);
    var nodes := NodeWrites(m, order);
    var d := WriteAll(disk, nodes)[w.at := w.page];
    RecoverableReady(disk, m, dirty, base.trees, f, g);
    CatalogReopens(disk, m, dirty, base, f, order, w);
    var ws := WritesOf(disk, m, order, f, keep, g);
    assert ws[..|order| + 1] == nodes + [w];
    assert (nodes + [w])[..|nodes|] == nodes;
    if torn {
      SuperTorn(d, if f.catalog >= 3 then f.trees else base.trees);
    }
  }

  lemma {:induction false} CatalogReopens(disk: Disk, m: Store, dirty: set<PageID>, base: File, f: File,
                                          order: seq<PageID>, w: Write)
    requires Ready(disk, m, dirty, base.trees, f.trees, f.catalog) && Lists(order, dirty) && ShowsFile(disk, base)
    requires CatalogPlace(base.trees, f.trees, f.catalog, w.at) && w.page.CatalogPage? && w.page.roots == Roots(f.trees)
    ensures var d := WriteAll(disk, NodeWrites(m, order))[w.at := w.page];
            Shows(d, if f.catalog >= 3 then f.trees else base.trees) &&
            var o := Reopen(d).value;
            if f.catalog >= 3 then o.free == w.page.free && o.next == base.a.next && o.catalog == f.catalog
            else o.free == base.a.free && o.next == base.a.next && o.catalog == base.catalog
    ensures var d := WriteAll(disk, NodeWrites(m, order))[w.at := w.page];
            && TargetSlot(d) == TargetSlot(disk) && Reopen(d).value.catalog >= 2
            && (forall s: PageID :: s < 2 ==> (s in d <==> s in disk) && (s in disk ==> d[s] == disk[s]))
  {
    CatalogWritten(disk, m, dirty, base.trees, f.trees, f.catalog, order, w);
    AfterNodeWrites(disk, m, order, 2);
  }

  // ---------------------------------------------------------------- the commit as a whole

  /** The disk shows one of two sets of trees. */
  ghost predicate AfterCrash(disk: Disk, before: Trees, after: Trees) {
    Shows(disk, before) || Shows(disk, after)
  }

  lemma {:induction false} CommitKeeps(cmp: Cmp, disk: Disk, cache: Store, dirty: set<PageID>, base: File, f: File,
                                       g: nat, order: seq<PageID>, keep: nat)
    requires Sound(cmp, f) && keep <= |CommitPages(f).a.free|
    requires Recoverable(disk, DiskNodes(disk) + cache, dirty, base.trees, f, g) && ShowsFile(disk, base)
    requires Lists(order, dirty) && dirty <= cache.Keys
    ensures var ws := WritesOf(disk, DiskNodes(disk) + cache, order, f, keep, g);
            var disk' := WriteAll(disk, ws);
            && (forall k: nat, torn :: k <= |ws| ==> AfterCrash(CrashDisk(disk, ws, k, torn), base.trees, f.trees))
            && Sound(cmp, CommitPages(f)) && ShowsFile(disk', Reread(CommitPages(f), keep))
            && Recoverable(disk', DiskNodes(disk') + cache, {}, f.trees, CommitPages(f), g + 1)
  {
    var m := DiskNodes(disk) + cache;
    var ws := WritesOf(disk, m, order, f, keep, g);
    forall k: nat, torn | k <= |ws|
      ensures AfterCrash(CrashDisk(disk, ws, k, torn), base.trees, f.trees)
    {
      CommitAtomic(disk, m, dirty, base.trees, f, g, order, keep, k, torn);
    }
    CommitRecoverable(disk, cache, dirty, base.trees, f, g, order, keep);
    CommitOwned(f);
    CrashReopens(disk, m, dirty, base, f, g, order, keep, |order| + 2, false);
    assert ws[..|ws|] == ws;
  }

  /** A commit leaves the trees on their pages, under any generation. */
  lemma {:induction false} CommitStored(disk: Disk, cache: Store, f: File, g: nat, order: seq<PageID>, keep: nat)
    requires var m := DiskNodes(disk) + cache;
             && OwnedOnce(f) && AllStored(m, f.trees) && keep <= |CommitPages(f).a.free|
             && forall i :: 0 <= i < |order| ==> order[i] in m && order[i] >= 3
    ensures OwnedOnce(CommitPages(f))
    ensures AllStored(DiskNodes(WriteAll(disk, WritesOf(disk, DiskNodes(disk) + cache, order, f, keep, g))) + cache,
                      f.trees)
  {
    var m, f' := DiskNodes(disk) + cache, CommitPages(f);
    var w := CatalogWrite(f.trees, f'.catalog, f'.a.free, keep);
    var disk' := WriteAll(disk, WritesOf(disk, m, order, f, keep, g));
    CommitOwned(f);
    PageOwned(f', f'.catalog);
    forall n | n in f.trees
      ensures Stored(DiskNodes(disk') + cache, f.trees[n])
    {
      forall p | Count(f.trees[n], p) >= 1
        ensures p in DiskNodes(disk') + cache && (p in m ==> (DiskNodes(disk') + cache)[p] == m[p])
      {
        assert Uses(f'.trees, p);
        PageOwned(f', p);
        StoredIn(m, f.trees[n], p);
        CommitPageWise(disk, m, order, w, g, f'.a.next, p);
      }
      StoredFrame(m, DiskNodes(disk') + cache, f.trees[n]);
    }
  }

  /** A commit under a generation above all on disk: atomic, and any later one may commit next. */
  lemma {:induction false} CommitRising(cmp: Cmp, disk: Disk, cache: Store, dirty: set<PageID>, base: File, f: File,
                                        g: nat, order: seq<PageID>, keep: nat)
    requires Sound(cmp, f) && keep <= |CommitPages(f).a.free|
    requires Recoverable(disk, DiskNodes(disk) + cache, dirty, base.trees, f, g) && ShowsFile(disk, base)
    requires Lists(order, dirty * cache.Keys)
    ensures var ws := WritesOf(disk, DiskNodes(disk) + cache, order, f, keep, g);
            var disk' := WriteAll(disk, ws);
            && (forall k: nat, torn :: k <= |ws| ==> AfterCrash(CrashDisk(disk, ws, k, torn), base.trees, f.trees))
            && ShowsFile(disk', Reread(CommitPages(f), keep))
            && forall h: nat :: !(h > g) || Recoverable(disk', DiskNodes(disk') + cache, {}, f.trees, CommitPages(f), h)
  {
    DirtyCached(disk, cache, dirty, base.trees, f, g);
    CommitKeeps(cmp, disk, cache, dirty * cache.Keys, base, f, g, order, keep);
    var disk' := WriteAll(disk, WritesOf(disk, DiskNodes(disk) + cache, order, f, keep, g));
    forall h: nat | h > g
      ensures Recoverable(disk', DiskNodes(disk') + cache, {}, f.trees, CommitPages(f), h)
    {
      RecoverableLater(disk', DiskNodes(disk') + cache, {}, f.trees, CommitPages(f), g + 1, h);
    }
  }

  lemma {:induction false} FailureRising(disk: Disk, cache: Store, dirty: set<PageID>, durable: Trees, f: File, g: nat,
                                         order: seq<PageID>)
    requires Recoverable(disk, DiskNodes(disk) + cache, dirty, durable, f, g) && OwnedOnce(f)
    requires forall i :: 0 <= i < |order| ==> order[i] in dirty * cache.Keys
    ensures var ws := NodeWrites(DiskNodes(disk) + cache, order);
            forall k: nat :: k <= |ws| ==> Shows(WriteAll(disk, ws[..k]), durable)
  {
    DirtyCached(disk, cache, dirty, durable, f, g);
    RecoverableReady(disk, DiskNodes(disk) + cache, dirty * cache.Keys, durable, f, g);
    NodeCrashes(disk, DiskNodes(disk) + cache, dirty * cache.Keys, durable, f, order);
  }

  lemma {:induction false} NodeCrashes(disk: Disk, m: Store, dirty: set<PageID>, durable: Trees, f: File,
                                       order: seq<PageID>)
    requires Ready(disk, m, dirty, durable, f.trees, f.catalog)
    requires forall i :: 0 <= i < |order| ==> order[i] in dirty
    ensures var ws := NodeWrites(m, order); forall k: nat :: k <= |ws| ==> Shows(WriteAll(disk, ws[..k]), durable)
  {
    var ws := NodeWrites(m, order);
    forall k: nat | k <= |ws|
      ensures Shows(WriteAll(disk, ws[..k]), durable)
    {
      assert ws[..k] == NodeWrites(m, order[..k]);
      NodesOnly(disk, m, dirty, durable, f.trees, f.catalog, order[..k]);
    }
  }

  // ---------------------------------------------------------------- opening

  function NewDisk(): Disk {
    map[2 := CatalogPage(map[], []), 0 := SuperPage(1, 2, 3), 1 := Torn]
  }

  function NewFile(): File {
    File(map[], Alloc([], 3, []), 2, {})
  }

  lemma {:induction false} NewFileRecoverable(cmp: Cmp, m: Store)
    requires m == DiskNodes(NewDisk()) + map[]
    ensures Sound(cmp, NewFile()) && ShowsFile(NewDisk(), NewFile())
    ensures Recoverable(NewDisk(), m, {}, map[], NewFile(), 2)
  {
    assert Roots(map[]) == map[];
    FreshlyCommitted(NewDisk(), m, NewFile(), 1);
  }

  /** The disk shows the intact file `f`, all of whose nodes and superblocks are of generation `g` or earlier. */
  ghost predicate Reopenable(cmp: Cmp, disk: Disk, f: File, g: nat) {
    && ShowsFile(disk, f) && ValidFile(cmp, f) && SlotsBelow(disk, g + 1)
    && f.catalog >= 2 && (f.catalog == 2 ==> f.trees == map[])
    && (forall n :: n in f.trees ==> GenAtMost(f.trees[n], g))
  }

  /** A file stays reopenable under the generation of its last commit. */
  lemma {:induction false} CommitReopenable(cmp: Cmp, disk: Disk, cache: Store, dirty: set<PageID>, base: File,
                                            f: File, g: nat, order: seq<PageID>, keep: nat)
    requires Sound(cmp, f) && keep <= |CommitPages(f).a.free|
    requires Recoverable(disk, DiskNodes(disk) + cache, dirty, base.trees, f, g) && ShowsFile(disk, base)
    requires Lists(order, dirty) && dirty <= cache.Keys
    ensures Reopenable(cmp, WriteAll(disk, WritesOf(disk, DiskNodes(disk) + cache, order, f, keep, g)),
                       Reread(CommitPages(f), keep), g)
  {
    CommitKeeps(cmp, disk, cache, dirty, base, f, g, order, keep);
    CommitOwned(f);
  }
}
