/**
 The index file as the program runs it: a page cache with dirty pages over a disk of whole pages,
 edited in place. Its methods are proved to compute the functions of `CowTree` and `IndexFile`.
 */
module PagedFile {
  import opened Options
  import opened KeyOrder
  import opened PageFormat
  import opened CowTree
  import opened TreeOrder
  import opened TreePages
  import opened TreeGens
  import opened PageStore
  import opened IndexFile
  import opened CommitCrash
  import opened Durability
  import opened TreeChain
  import opened TreeRange

  class DiskBPlusTree {
    const cmp: Cmp
    var disk: Disk
    var nodes: Store
    var dirty: set<PageID>
    var free: seq<PageID>
    var next: PageID
    var orphans: seq<PageID>
    var catalog: map<string, PageID>
    var catalogRoot: PageID
    var generation: nat

    /** The named trees on the pages, the pages nothing names, and the file as opening the disk would find it. */
    ghost var trees: Trees
    ghost var lost: set<PageID>
    ghost var durable: File

    /** What `getNode` answers for each page: the cache, and the disk behind it. */
    ghost function View(): Store
      reads this`disk, this`nodes
    {
      DiskNodes(disk) + nodes
    }

    ghost function A(): Alloc
      reads this`free, this`next, this`orphans
    {
      Alloc(free, next, orphans)
    }

    ghost function F(): File
      reads this`free, this`next, this`orphans, this`trees, this`catalogRoot, this`lost
    {
      File(trees, A(), catalogRoot, lost)
    }

    /** The catalog leads to search trees that lie whole on the pages, every page has one owner. */
    ghost predicate Valid()
      reads this
    {
      TotalOrder(cmp) && Sound(cmp, F()) && catalog == Roots(trees) && AllStored(View(), trees)
    }

    /** A commit under generation `g` would be atomic. */
    ghost predicate RecoverableAt(g: nat)
      reads this
    {
      Recoverable(disk, View(), dirty, durable.trees, F(), g) && ShowsFile(disk, durable)
    }

    // ------------------------------------------------------------ opening

    /** A new file: an empty catalog on page 2 and one valid superblock. */
    constructor Create(cmp: Cmp)
      requires TotalOrder(cmp)
      ensures Valid() && this.cmp == cmp && trees == map[] && dirty == {} && generation == 1
      ensures forall g: nat :: g < 2 || RecoverableAt(g)
    {
      this.cmp := cmp;
      disk := NewDisk();
      nodes, dirty, free, next, orphans := map[], {}, [], 3, [];
      catalog, catalogRoot, generation := map[], 2, 1;
      trees, lost := map[], {};
      durable := NewFile();
      new;
      NewFileRecoverable(cmp, View());
      forall g: nat | g >= 2
        ensures RecoverableAt(g)
      {
        RecoverableLater(disk, View(), dirty, durable.trees, F(), 2, g);
      }
    }

    /** Take up the state that opening an existing file found. `f` is the file it shows, if it is intact. */
    constructor Resume(cmp: Cmp, d: Disk, o: Opened, ghost f: File)
      requires Reopen(d) == Some(o)
      ensures this.cmp == cmp && disk == d && catalog == o.roots && free == o.free && next == o.next
      ensures generation == o.gen && catalogRoot == o.catalog
      ensures dirty == {} && orphans == [] && View() == DiskNodes(d)
      ensures !(TotalOrder(cmp) && ShowsFile(d, f) && ValidFile(cmp, f)) || (F() == f && durable == f && Valid())
      ensures forall g: nat :: !Reopenable(cmp, d, f, g) || RecoverableAt(g + 1)
    {
      this.cmp := cmp;
      disk := d;
      nodes, dirty, free, next, orphans := map[], {}, o.free, o.next, [];
      catalog, catalogRoot, generation := o.roots, o.catalog, o.gen;
      trees, lost := f.trees, f.lost;
      durable := f;
      new;
      assert View() == DiskNodes(d);
      if ShowsFile(d, f) {
        assert F() == f;
      }
      forall g: nat | Reopenable(cmp, d, f, g)
        ensures RecoverableAt(g + 1)
      {
        FreshlyCommitted(d, View(), f, g);
      }
    }

    /** Open an existing file: fails exactly when no superblock is valid or its catalog cannot be read. */
    static method Open(cmp: Cmp, d: Disk, ghost f: File) returns (r: Option<DiskBPlusTree>)
      requires TotalOrder(cmp)
      ensures r.Some? <==> Reopen(d).Some?
      ensures r.Some? ==>
                && fresh(r.value) && r.value.disk == d && r.value.catalog == Reopen(d).value.roots
                && r.value.generation == Reopen(d).value.gen
      ensures ShowsFile(d, f) && ValidFile(cmp, f) ==> r.Some? && r.value.F() == f && r.value.Valid()
      ensures r.Some? ==> forall g: nat :: !Reopenable(cmp, d, f, g) || r.value.RecoverableAt(g + 1)
    {
      var found := Reopen(d);
      if found.None? { return None; }
      var tree := new DiskBPlusTree.Resume(cmp, d, found.value, f);
      r := Some(tree);
    }

    // ------------------------------------------------------------ pages

    /** Read through the cache; `None` for a page that cannot be read as a node. */
    method ReadNode(p: PageID) returns (n: Option<Node>)
      modifies this`nodes
      ensures View() == old(View())
      ensures n == if p in View() then Some(View()[p]) else None
    {
      if p in nodes { return Some(nodes[p]); }
      if !(p in disk && disk[p].NodePage?) { return None; }
      nodes := nodes[p := disk[p].node];
      n := Some(nodes[p]);
    }

    method GetNode(p: PageID) returns (n: Node)
      requires p in View()
      modifies this`nodes
      ensures View() == old(View()) && n == View()[p]
    {
      var found := ReadNode(p);
      n := found.value;
    }

    method WriteNode(p: PageID, n: Node)
      modifies this`nodes, this`dirty
      ensures View() == old(View())[p := n] && dirty == old(dirty) + {p}
      ensures Wrote(old(View()), old(dirty), View(), dirty, {p})
    {
      nodes := nodes[p := n];
      dirty := dirty + {p};
      assert View() == old(View())[p := n];
    }

    method AllocatePageID() returns (p: PageID)
      modifies this`free, this`next
      ensures (p, A()) == Allocate(old(A()))
    {
      if |free| > 0 {
        p := free[|free| - 1];
        free := free[..|free| - 1];
      } else {
        p := next;
        next := next + 1;
      }
    }

    method MarkOrphaned(p: PageID)
      modifies this`orphans
      ensures A() == Orphan(old(A()), p)
    {
      if p < 3 { return; }
      orphans := orphans + [p];
    }

    /** The page on which generation `g` writes node `n` of page `id`: in place, or an empty copy on a new page. */
    method Touch(id: PageID, n: Node, g: nat) returns (newId: PageID)
      requires id in View() && View()[id] == n
      modifies this`nodes, this`dirty, this`free, this`next, this`orphans
      ensures (newId, A()) == CowTree.Touch(id, n.gen, g, old(A()))
      ensures Wrote(old(View()), old(dirty), View(), dirty, {newId}) && TakenKept(old(View()), View(), old(A()))
    {
      if n.gen == g {
        newId := id;
        dirty := dirty + {id};
      } else {
        newId := AllocatePageID();
        if n.LeafNode? {
          WriteNode(newId, LeafNode(g, [], [], n.right));
        } else {
          WriteNode(newId, InternalNode(g, [], []));
        }
        MarkOrphaned(id);
      }
    }

    // ------------------------------------------------------------ insert

    /** Split the node of page `id` by count; the right half goes to a new page. */
    method Split(id: PageID, n: Node, g: nat) returns (sep: Key, rightId: PageID, ghost left: Node, ghost right: Node)
      requires |n.keys| > 0 && (n.LeafNode? ==> |n.ptrs| == |n.keys|)
      requires (n.InternalNode? ==> |n.children| == |n.keys| + 1)
      modifies this`nodes, this`dirty, this`free, this`next
      ensures (rightId, A()) == Allocate(old(A()))
      ensures sep == n.keys[|n.keys| / 2]
      ensures var mid := |n.keys| / 2;
              if n.LeafNode? then
                left == LeafNode(g, n.keys[..mid], n.ptrs[..mid], rightId)
                  && right == LeafNode(g, n.keys[mid..], n.ptrs[mid..], n.right)
              else
                left == InternalNode(g, n.keys[..mid], n.children[..mid + 1]) &&
                right == InternalNode(g, n.keys[mid + 1..], n.children[mid + 1..])
      ensures View() == old(View())[rightId := right][id := left]
      ensures Wrote(old(View()), old(dirty), View(), dirty, {id, rightId})
    {
      var mid := |n.keys| / 2;
      sep := n.keys[mid];
      rightId := AllocatePageID();
      var l, r;
      if n.LeafNode? {
        r := LeafNode(g, n.keys[mid..], n.ptrs[mid..], n.right);
        l := LeafNode(g, n.keys[..mid], n.ptrs[..mid], rightId);
      } else {
        r := InternalNode(g, n.keys[mid + 1..], n.children[mid + 1..]);
        l := InternalNode(g, n.keys[..mid], n.children[..mid + 1]);
      }
      left, right := l, r;
      WriteTwo(id, l, rightId, r);
    }

    method WriteTwo(p: PageID, n: Node, q: PageID, n': Node)
      modifies this`nodes, this`dirty
      ensures View() == old(View())[q := n'][p := n]
      ensures Wrote(old(View()), old(dirty), View(), dirty, {p, q})
    {
      WriteNode(q, n');
      ghost var m1, d1 := View(), dirty;
      WriteNode(p, n);
      WroteTwice(old(View()), old(dirty), m1, d1, {q}, View(), dirty, {p});
      assert {q} + {p} == {p, q};
    }

    /** Write the edited node, and split it if it does not serialize. `t` is the node with its subtrees. */
    method Settle(id: PageID, n: Node, g: nat, ghost t: Tree)
      returns (didSplit: bool, sep: Key, rightId: PageID, ghost r: Grown, ghost w: set<PageID>)
      requires NodeOf(t) == n && t.id == id && t.gen == g && Apart(t, A())
      requires |t.keys| > 0 || Fits(t.Leaf?, t.keys)
      requires t.Leaf? ==> |t.ptrs| == |t.keys|
      requires t.Branch? ==> |t.kids| == |t.keys| + 1
      requires KidsStored(View(), t)
      modifies this`nodes, this`dirty, this`free, this`next
      ensures r == CowTree.Settle(t, g, old(A())) && A() == r.a
      ensures Stored(View(), r.t) && (r.Two? ==> Stored(View(), r.rest))
      ensures r.t.id == id && didSplit == r.Two? && (didSplit ==> sep == r.sep && rightId == r.rest.id)
      ensures Wrote(old(View()), old(dirty), View(), dirty, w)
      ensures forall p :: p in w && p != id ==> !Taken(old(A()), p)
    {
      r := CowTree.Settle(t, g, A());
      SettleStored(View(), t, g, A());
      if Fits(n.LeafNode?, n.keys) {
        WriteNode(id, n);
        didSplit, sep, rightId, w := false, [], 0, {id};
      } else {
        SplitNodes(t, g, A());
        ghost var left, right;
        sep, rightId, left, right := Split(id, n, g);
        didSplit, w := true, {id, rightId};
      }
    }

    /** Put `ptr` under `key` in the leaf `n`, to be written to page `id`. */
    method InsertIntoLeaf(id: PageID, n: Node, key: Key, ptr: Pointer, g: nat, ghost t: Tree)
      returns (didSplit: bool, sep: Key, rightId: PageID, ghost r: Grown, ghost w: set<PageID>)
      requires TotalOrder(cmp) && n.LeafNode? && t.Leaf? && WellShaped(t) && Increasing(cmp, t.keys)
      requires t == Leaf(id, g, n.keys, n.ptrs, n.right) && Apart(t, A())
      modifies this`nodes, this`dirty, this`free, this`next
      ensures r == CowTree.Settle(LeafPut(cmp, t, key, ptr), g, old(A())) && A() == r.a
      ensures Stored(View(), r.t) && (r.Two? ==> Stored(View(), r.rest))
      ensures r.t.id == id && didSplit == r.Two? && (didSplit ==> sep == r.sep && rightId == r.rest.id)
      ensures Wrote(old(View()), old(dirty), View(), dirty, w)
      ensures forall p :: p in w && p != id ==> !Taken(old(A()), p)
    {
      var i := SearchLeaf(cmp, n.keys, key);
      var keys, ptrs := n.keys, n.ptrs;
      if i < |keys| && keys[i] == key {
        ptrs := ptrs[i := ptr];
      } else {
        keys := InsertAt(keys, i, key);
        ptrs := InsertAt(ptrs, i, ptr);
      }
      ghost var t' := LeafPut(cmp, t, key, ptr);
      assert forall p: PageID :: Count(t', p) == Count(t, p);
      didSplit, sep, rightId, r, w := Settle(id, LeafNode(g, keys, ptrs, n.right), g, t');
    }

    /** Put back what an insertion made of child `i` of the branch `n`, to be written to page `id`. */
    method InsertIntoBranch(id: PageID, n: Node, i: nat, newChild: PageID, childSplit: bool, childSep: Key,
                            rightChild: PageID, g: nat, ghost t: Tree, ghost child: Grown)
      returns (didSplit: bool, sep: Key, rightId: PageID, ghost r: Grown, ghost w: set<PageID>)
      requires n.InternalNode? && t.Branch? && WellShaped(t) && i < |t.kids|
      requires t.id == id && t.gen == g && n.keys == t.keys && n.children == Ids(t.kids)
      requires newChild == child.t.id && childSplit == child.Two?
      requires childSplit ==> childSep == child.sep && rightChild == child.rest.id
      requires Apart(BranchPut(t, i, child), A()) && KidsStored(View(), BranchPut(t, i, child))
      modifies this`nodes, this`dirty, this`free, this`next
      ensures r == CowTree.Settle(BranchPut(t, i, child), g, old(A())) && A() == r.a
      ensures Stored(View(), r.t) && (r.Two? ==> Stored(View(), r.rest))
      ensures r.t.id == id && didSplit == r.Two? && (didSplit ==> sep == r.sep && rightId == r.rest.id)
      ensures Wrote(old(View()), old(dirty), View(), dirty, w)
      ensures forall p :: p in w && p != id ==> !Taken(old(A()), p)
    {
      var keys, children := n.keys, n.children[i := newChild];
      if childSplit {
        keys := InsertAt(keys, i, childSep);
        children := InsertAt(children, i + 1, rightChild);
      }
      ghost var t' := BranchPut(t, i, child);
      assert children == Ids(t'.kids);
      didSplit, sep, rightId, r, w := Settle(id, InternalNode(g, keys, children), g, t');
    }

    method InsertRecursive(id: PageID, key: Key, ptr: Pointer, g: nat, ghost t: Tree, ghost lo: Bound, ghost hi: Bound)
      returns (newId: PageID, didSplit: bool, sep: Key, rightId: PageID, ghost r: Grown, ghost w: set<PageID>)
      requires TotalOrder(cmp) && WellShaped(t) && Ordered(cmp, t, lo, hi)
      requires t.id == id && Stored(View(), t) && Apart(t, A()) && Clean(t, A())
      modifies this`nodes, this`dirty, this`free, this`next, this`orphans
      ensures r == Insert(cmp, t, key, ptr, g, old(A())) && A() == r.a
      ensures Stored(View(), r.t) && (r.Two? ==> Stored(View(), r.rest))
      ensures newId == r.t.id && didSplit == r.Two? && (didSplit ==> sep == r.sep && rightId == r.rest.id)
      ensures Wrote(old(View()), old(dirty), View(), dirty, w) && Permitted(old(View()), w, t, old(A()), g)
      decreases t
    {
      ghost var m, d, a := View(), dirty, A();
      var node := GetNode(id);
      newId := Touch(id, node, g);
      ghost var m1, d1, a1 := View(), dirty, A();
      if node.LeafNode? {
        LeafApart(t, g, a, Moved(t, newId, g));
        didSplit, sep, rightId, r, w := InsertIntoLeaf(newId, node, key, ptr, g, Moved(t, newId, g));
        LeafBack(m, d, m1, d1, View(), dirty, w, t, g, a);
        w := {newId} + w;
      } else {
        var i := SearchInternal(cmp, node.keys, key);
        GoDown(m, d, m1, d1, t, i, g, a);
        var newChild, childSplit, childSep, rightChild;
        ghost var child, w1;
        newChild, childSplit, childSep, rightChild, child, w1 :=
          InsertRecursive(node.children[i], key, ptr, g, t.kids[i], KidLo(t.keys, lo, i), KidHi(t.keys, hi, i));
        ghost var m2, d2 := View(), dirty;
        DescendStored(m1, d1, m2, d2, w1, t, i, g, a, child);
        InsertDescendApart(cmp, t, i, key, ptr, g, a);
        didSplit, sep, rightId, r, w :=
          InsertIntoBranch(newId, node, i, newChild, childSplit, childSep, rightChild, g, Moved(t, newId, g), child);
        LaterInsert(cmp, t.kids[i], key, ptr, g, a1);
        ComeBack(m, d, m1, d1, m2, d2, w1, View(), dirty, w, t, i, g, a, child.a);
        w := {newId} + w1 + w;
      }
    }

    // ------------------------------------------------------------ delete

    /** As `Touch`, the copy on a new page being complete. */
    method TouchCopy(id: PageID, n: Node, g: nat) returns (newId: PageID)
      modifies this`nodes, this`dirty, this`free, this`next, this`orphans
      requires id in View() && View()[id] == n
      ensures (newId, A()) == CowTree.Touch(id, n.gen, g, old(A()))
      ensures Wrote(old(View()), old(dirty), View(), dirty, {newId})
    {
      if n.gen == g {
        newId := id;
        dirty := dirty + {id};
      } else {
        newId := AllocatePageID();
        if n.LeafNode? {
          WriteNode(newId, LeafNode(g, n.keys, n.ptrs, n.right));
        } else {
          WriteNode(newId, InternalNode(g, n.keys, n.children));
        }
        MarkOrphaned(id);
      }
    }

    /** Give children `l` and `l + 1` of `t` pages of the current generation. */
    method TouchTwo(leftId: PageID, left: Node, rightId: PageID, right: Node, g: nat, ghost t: Tree, ghost l: nat)
      returns (lid: PageID, rid: PageID)
      requires t.Branch? && l + 1 < |t.kids| && Apart(t, A()) && Clean(t, A()) && KidsStored(View(), t)
      requires leftId == t.kids[l].id && left == NodeOf(t.kids[l])
      requires rightId == t.kids[l + 1].id && right == NodeOf(t.kids[l + 1])
      modifies this`nodes, this`dirty, this`free, this`next, this`orphans
      ensures (lid, rid) == JoinIds(t, l, g, old(A()))
      ensures A() == CowTree.Touch(rightId, right.gen, g, CowTree.Touch(leftId, left.gen, g, old(A())).1).1
      ensures Wrote(old(View()), old(dirty), View(), dirty, {lid, rid})
    {
      ghost var m, d := View(), dirty;
      JoinIdsDistinct(t, l, g, A());
      assert Stored(m, t.kids[l]) && Stored(m, t.kids[l + 1]);
      lid := TouchCopy(leftId, left, g);
      ghost var m1, d1 := View(), dirty;
      rid := TouchCopy(rightId, right, g);
      WroteTwice(m, d, m1, d1, {lid}, View(), dirty, {rid});
      assert {lid} + {rid} == {lid, rid};
    }

    /** Merge children `l` and `l + 1` of the node on page `id`, or move one entry from right to left. */
    method MergeOrRedistribute(id: PageID, n: Node, l: nat, left: Node, right: Node, g: nat, ghost t: Tree,
                               ghost h: nat)
      returns (panicked: bool, ghost r: Shrunk, ghost w: set<PageID>)
      requires Balanced(t, h) && t.Branch? && l + 1 < |t.kids| && t.id == id && t.gen == g && NodeOf(t) == n
      requires left == NodeOf(t.kids[l]) && right == NodeOf(t.kids[l + 1])
      requires KidsStored(View(), t) && Apart(t, A()) && Clean(t, A())
      modifies this`nodes, this`dirty, this`free, this`next, this`orphans
      ensures r == Join(t, l, g, old(A()), h) && panicked == r.Panic?
      ensures !panicked ==> A() == r.a && Stored(View(), r.t) && r.t.id == id
      ensures !panicked ==> Wrote(old(View()), old(dirty), View(), dirty, w) && KidWrites(w, t, old(A()), g)
    {
      ghost var m, d, a := View(), dirty, A();
      r := Join(t, l, g, a, h);
      JoinReady(t, l, g, a, h);
      var lid, rid := TouchTwo(n.children[l], left, n.children[l + 1], right, g, t, l);
      ghost var m1, d1 := View(), dirty;
      var j := JoinPages(n, l, left, right, lid, rid, g);
      panicked, w := j.OutOfRange?, {id, lid, rid};
      if !panicked {
        WriteJoined(id, lid, rid, j);
        FinishJoin(m, d, m1, d1, View(), dirty, t, l, g, a, h);
      }
    }

    method WriteJoined(id: PageID, lid: PageID, rid: PageID, j: Joined)
      requires !j.OutOfRange? && lid != rid && id != lid && id != rid && rid in View() && rid in dirty
      modifies this`nodes, this`dirty, this`orphans
      ensures A() == if j.Merged? then Orphan(old(A()), rid) else old(A())
      ensures Wrote(old(View()), old(dirty), View(), dirty, {id, lid, rid})
      ensures View()[id] == j.parent && View()[lid] == j.left && (j.Evened? ==> View()[rid] == j.right)
    {
      ghost var m, d := View(), dirty;
      WriteTwo(id, j.parent, lid, j.left);
      if j.Merged? {
        MarkOrphaned(rid);
        WroteAlso(m, d, View(), dirty, {id, lid}, rid);
      } else {
        ghost var m1, d1 := View(), dirty;
        WriteNode(rid, j.right);
        WroteTwice(m, d, m1, d1, {id, lid}, View(), dirty, {rid});
      }
      assert {id, lid} + {rid} == {id, lid, rid};
    }

    method HandleUnderflow(id: PageID, n: Node, i: nat, g: nat, ghost t: Tree, ghost h: nat)
      returns (panicked: bool, ghost r: Shrunk, ghost w: set<PageID>)
      requires Balanced(t, h) && t.Branch? && i < |t.kids| && t.id == id && t.gen == g && NodeOf(t) == n
      requires Stored(View(), t) && Apart(t, A()) && Clean(t, A())
      modifies this`nodes, this`dirty, this`free, this`next, this`orphans
      ensures r == Rebalance(t, i, g, old(A()), h) && panicked == r.Panic?
      ensures !panicked ==> A() == r.a && Stored(View(), r.t) && r.t.id == id
      ensures !panicked ==> Wrote(old(View()), old(dirty), View(), dirty, w) && KidWrites(w, t, old(A()), g)
    {
      panicked, r, w := false, Done(t, A()), {};
      assert Stored(View(), t.kids[i]);
      var child := GetNode(n.children[i]);
      if |child.keys| >= 2 { return; }
      if i > 0 {
        assert Stored(View(), t.kids[i - 1]);
        var left := GetNode(n.children[i - 1]);
        panicked, r, w := MergeOrRedistribute(id, n, i - 1, left, child, g, t, h);
      } else if i < |n.children| - 1 {
        assert Stored(View(), t.kids[i + 1]);
        var right := GetNode(n.children[i + 1]);
        panicked, r, w := MergeOrRedistribute(id, n, i, child, right, g, t, h);
      }
    }

    /** Remove `key` from the leaf `n`, already touched as page `touched`. */
    method DeleteFromLeaf(id: PageID, touched: PageID, n: Node, key: Key, g: nat, ghost t: Tree, ghost h: nat,
                          ghost m: Store, ghost d: set<PageID>, ghost a: Alloc)
      returns (newId: PageID, found: bool, ghost w: set<PageID>)
      requires TotalOrder(cmp) && Balanced(t, h) && t.Leaf? && Increasing(cmp, t.keys)
      requires t.id == id && NodeOf(t) == n && Stored(m, t) && Apart(t, a)
      requires (touched, A()) == CowTree.Touch(id, t.gen, g, a)
      requires Wrote(m, d, View(), dirty, {touched}) && TakenKept(m, View(), a)
      modifies this`nodes, this`dirty
      ensures var r := Delete(cmp, t, key, g, a, h);
              && !r.Panic? && found == r.Done? && A() == r.a
              && Wrote(m, d, View(), dirty, w) && Permitted(m, w, t, a, g)
              && (r.Done? ==> Stored(View(), r.t) && newId == r.t.id && newId in w)
              && (r.Missing? ==> newId == id && TakenKept(m, View(), a))
    {
      ghost var m1, d1 := View(), dirty;
      var i := SearchLeaf(cmp, n.keys, key);
      found := i < |n.keys| && n.keys[i] == key;
      if found {
        WriteNode(touched, LeafNode(g, RemoveAt(n.keys, i), RemoveAt(n.ptrs, i), n.right));
      }
      LeafBack(m, d, m1, d1, View(), dirty, {touched}, t, g, a);
      newId, w := if found then touched else id, {touched} + {touched};
    }

    method DeleteRecursive(id: PageID, key: Key, g: nat, ghost t: Tree, ghost h: nat, ghost lo: Bound, ghost hi: Bound)
      returns (newId: PageID, found: bool, panicked: bool, ghost r: Shrunk, ghost w: set<PageID>)
      requires TotalOrder(cmp) && Balanced(t, h) && Ordered(cmp, t, lo, hi)
      requires t.id == id && Stored(View(), t) && Apart(t, A()) && Clean(t, A())
      modifies this`nodes, this`dirty, this`free, this`next, this`orphans
      ensures r == Delete(cmp, t, key, g, old(A()), h) && panicked == r.Panic? && found == r.Done?
      ensures !panicked ==> A() == r.a
      ensures !panicked ==>
                && Wrote(old(View()), old(dirty), View(), dirty, w)
                && Permitted(old(View()), w, t, old(A()), g)
      ensures r.Done? ==> Stored(View(), r.t) && newId == r.t.id && newId in w
      ensures r.Missing? ==> newId == id && TakenKept(old(View()), View(), old(A()))
      decreases t, 2
    {
      ghost var m, d, a := View(), dirty, A();
      r := Delete(cmp, t, key, g, a, h);
      var node := GetNode(id);
      var touched := Touch(id, node, g);
      if node.LeafNode? {
        newId, found, w := DeleteFromLeaf(id, touched, node, key, g, t, h, m, d, a);
        panicked := false;
      } else {
        newId, found, panicked, w := DeleteFromBranch(id, touched, node, key, g, t, h, lo, hi, m, d, a);
      }
    }

    /** Delete below the branch `node`, already touched as page `touched`. */
    method DeleteFromBranch(id: PageID, touched: PageID, node: Node, key: Key, g: nat, ghost t: Tree, ghost h: nat,
                            ghost lo: Bound, ghost hi: Bound, ghost m: Store, ghost d: set<PageID>, ghost a: Alloc)
      returns (newId: PageID, found: bool, panicked: bool, ghost w: set<PageID>)
      requires TotalOrder(cmp) && Balanced(t, h) && Ordered(cmp, t, lo, hi)
      requires t.Branch? && t.id == id && NodeOf(t) == node && Stored(m, t) && Apart(t, a) && Clean(t, a)
      requires (touched, A()) == CowTree.Touch(id, t.gen, g, a)
      requires Wrote(m, d, View(), dirty, {touched}) && TakenKept(m, View(), a)
      modifies this`nodes, this`dirty, this`free, this`next, this`orphans
      ensures var r := Delete(cmp, t, key, g, a, h);
              && panicked == r.Panic? && found == r.Done?
              && (!panicked ==> A() == r.a && Wrote(m, d, View(), dirty, w) && Permitted(m, w, t, a, g))
              && (r.Done? ==> Stored(View(), r.t) && newId == r.t.id && newId in w)
              && (r.Missing? ==> newId == id && TakenKept(m, View(), a))
      decreases t, 1
    {
      ghost var m1, d1 := View(), dirty;
      var i, newChild;
      ghost var child, w1;
      i, newChild, found, panicked, child, w1 := DeleteChild(node, key, g, t, h, lo, hi, m, d, a);
      BalancedWellShaped(t, h);
      DeleteBranch(cmp, t, key, g, a, h);
      newId, found, panicked, w :=
        DeleteUp(id, touched, node, i, newChild, found, panicked, g, t, h, m, d, a, m1, d1, w1, child,
                 Delete(cmp, t, key, g, a, h));
    }

    /** The part of a deletion below a branch, once the branch has its page. */
    method DeleteChild(node: Node, key: Key, g: nat, ghost t: Tree, ghost h: nat, ghost lo: Bound, ghost hi: Bound,
                       ghost m: Store, ghost d: set<PageID>, ghost a: Alloc)
      returns (i: nat, newChild: PageID, found: bool, panicked: bool, ghost r: Shrunk, ghost w: set<PageID>)
      requires TotalOrder(cmp) && Balanced(t, h) && Ordered(cmp, t, lo, hi)
      requires t.Branch? && NodeOf(t) == node && Stored(m, t) && Apart(t, a) && Clean(t, a)
      requires A() == CowTree.Touch(t.id, t.gen, g, a).1
      requires Wrote(m, d, View(), dirty, {CowTree.Touch(t.id, t.gen, g, a).0})
      modifies this`nodes, this`dirty, this`free, this`next, this`orphans
      ensures i == UpperBound(cmp, t.keys, key)
      ensures r == Delete(cmp, t.kids[i], key, g, old(A()), h - 1) && panicked == r.Panic? && found == r.Done?
      ensures !panicked ==> A() == r.a
      ensures !panicked ==>
                && Wrote(old(View()), old(dirty), View(), dirty, w)
                && Permitted(old(View()), w, t.kids[i], old(A()), g)
      ensures r.Done? ==> Stored(View(), r.t) && newChild == r.t.id && newChild in w
      ensures r.Missing? ==> TakenKept(old(View()), View(), old(A()))
      decreases t, 0
    {
      i := SearchInternal(cmp, node.keys, key);
      GoDown(m, d, View(), dirty, t, i, g, a);
      newChild, found, panicked, r, w :=
        DeleteRecursive(node.children[i], key, g, t.kids[i], h - 1, KidLo(t.keys, lo, i), KidHi(t.keys, hi, i));
    }

    /** The part of a deletion above the child. */
    method DeleteUp(id: PageID, touched: PageID, node: Node, i: nat, newChild: PageID, childFound: bool,
                    childPanicked: bool, g: nat, ghost t: Tree, ghost h: nat, ghost m: Store, ghost d: set<PageID>,
                    ghost a: Alloc, ghost m1: Store, ghost d1: set<PageID>, ghost w1: set<PageID>, ghost child: Shrunk,
                    ghost r: Shrunk)
      returns (newId: PageID, found: bool, panicked: bool, ghost w: set<PageID>)
      requires t.Branch? && i < |t.kids| && WellShaped(t) && t.id == id && NodeOf(t) == node && Stored(m, t)
      requires Apart(t, a) && Clean(t, a)
      requires touched == CowTree.Touch(id, t.gen, g, a).0 && Wrote(m, d, m1, d1, {touched}) && TakenKept(m, m1, a)
      requires childPanicked == child.Panic? && childFound == child.Done? && BranchDeletes(t, i, g, a, h, child, r)
      requires !child.Panic? ==>
                 && A() == child.a && Wrote(m1, d1, View(), dirty, w1)
                 && Permitted(m1, w1, t.kids[i], CowTree.Touch(id, t.gen, g, a).1, g)
      requires child.Done? ==> Stored(View(), child.t) && newChild == child.t.id && newChild in w1
      requires child.Missing? ==> TakenKept(m1, View(), CowTree.Touch(id, t.gen, g, a).1)
      modifies this`nodes, this`dirty, this`free, this`next, this`orphans
      ensures panicked == r.Panic? && found == r.Done?
      ensures !panicked ==> A() == r.a && Wrote(m, d, View(), dirty, w) && Permitted(m, w, t, a, g)
      ensures r.Done? ==> Stored(View(), r.t) && newId == r.t.id && newId in w
      ensures r.Missing? ==> newId == id && TakenKept(m, View(), a)
    {
      newId, found, panicked, w := id, false, childPanicked, {};
      if panicked { return; }
      if !childFound {
        ComeBack(m, d, m1, d1, View(), dirty, w1, View(), dirty, {}, t, i, g, a, CowTree.Touch(id, t.gen, g, a).1);
        MissUp(m, m1, View(), t, g, a);
        w := {touched} + w1 + {};
      } else {
        newId := touched;
        TouchKidsStored(m, m1, t, g, a);
        panicked, w := DeleteJoin(touched, InternalNode(g, node.keys, node.children[i := newChild]), i, g, t, h, m, d,
                                  a, m1, d1, w1, child);
        found := !panicked;
      }
    }

    /**
     The part of a deletion above a child that lost its key: write the branch, rebalance it, and account for
     all writes.
     */
    method DeleteJoin(touched: PageID, node: Node, i: nat, g: nat, ghost t: Tree, ghost h: nat, ghost m: Store,
                      ghost d: set<PageID>, ghost a: Alloc, ghost m1: Store, ghost d1: set<PageID>,
                      ghost w1: set<PageID>, ghost child: Shrunk)
      returns (panicked: bool, ghost w: set<PageID>)
      requires t.Branch? && i < |t.kids| && WellShaped(t) && Stored(m, t) && Apart(t, a) && Clean(t, a)
      requires KidsStored(m1, t)
      requires touched == CowTree.Touch(t.id, t.gen, g, a).0 && Wrote(m, d, m1, d1, {touched})
      requires Wrote(m1, d1, View(), dirty, w1) && Permitted(m1, w1, t.kids[i], CowTree.Touch(t.id, t.gen, g, a).1, g)
      requires child.Done? && Stored(View(), child.t) && child.t.id in w1 && child.a == A()
      requires Later(CowTree.Touch(t.id, t.gen, g, a).1, A())
      requires node == InternalNode(g, t.keys, Ids(t.kids)[i := child.t.id])
      requires var n := Branch(touched, g, t.keys, t.kids[i := child.t]);
               Balanced(n, h) && Apart(n, A()) && Clean(n, A()) && NotBelow(n, touched)
      modifies this`nodes, this`dirty, this`free, this`next, this`orphans
      ensures var n := Branch(touched, g, t.keys, t.kids[i := child.t]);
              var r := Rebalance(n, i, g, child.a, h);
              && panicked == r.Panic?
              && (!panicked ==> A() == r.a && Stored(View(), r.t) && r.t.id == touched && touched in w)
              && (!panicked ==> Wrote(m, d, View(), dirty, w) && Permitted(m, w, t, a, g))
    {
      ghost var m2, d2 := View(), dirty;
      ghost var n := Branch(touched, g, t.keys, t.kids[i := child.t]);
      ReplaceKidNode(t, i, child.t, touched, g);
      DescendStored(m1, d1, m2, d2, w1, t, i, g, a, One(child.t, child.a));
      panicked, w := FinishDelete(touched, node, i, g, n, h);
      if !panicked {
        ComeBackJoined(m, d, m1, d1, m2, d2, w1, View(), dirty, w, t, i, g, a, child.a, child.t, n);
        w := {touched} + w1 + w;
      }
    }

    /** Write the branch with its child replaced, and rebalance it. */
    method FinishDelete(id: PageID, n: Node, i: nat, g: nat, ghost t: Tree, ghost h: nat)
      returns (panicked: bool, ghost w: set<PageID>)
      requires Balanced(t, h) && t.Branch? && i < |t.kids| && t.id == id && t.gen == g && NodeOf(t) == n
      requires KidsStored(View(), t) && NotBelow(t, id) && Apart(t, A()) && Clean(t, A())
      modifies this`nodes, this`dirty, this`free, this`next, this`orphans
      ensures panicked == Rebalance(t, i, g, old(A()), h).Panic?
      ensures !panicked ==>
                var r := Rebalance(t, i, g, old(A()), h);
                && A() == r.a && Stored(View(), r.t) && r.t.id == id
                && Wrote(old(View()), old(dirty), View(), dirty, w) && KidWrites(w, t, old(A()), g)
    {
      ghost var m, d, a := View(), dirty, A();
      StoreOne(m, t);
      WriteNode(id, n);
      ghost var m1, d1 := View(), dirty;
      ghost var r;
      panicked, r, w := HandleUnderflow(id, n, i, g, t, h);
      if !panicked {
        WroteTwice(m, d, m1, d1, {id}, View(), dirty, w);
        w := {id} + w;
      }
    }

    // ------------------------------------------------------------ named indexes

    method StartRoot(name: string, g: nat) returns (id: PageID)
      modifies this`nodes, this`dirty, this`free, this`next, this`catalog
      ensures (id, A()) == Allocate(old(A())) && catalog == old(catalog)[name := id]
      ensures Wrote(old(View()), old(dirty), View(), dirty, {id}) && View()[id] == LeafNode(g, [], [], 0)
    {
      id := AllocatePageID();
      WriteNode(id, LeafNode(g, [], [], 0));
      catalog := catalog[name := id];
    }

    /** The root of a named tree; a new name gets an empty leaf. */
    method EnsureRoot(name: string, g: nat) returns (id: PageID)
      requires Valid()
      modifies this`nodes, this`dirty, this`free, this`next, this`catalog, this`trees
      ensures Valid() && name in trees && trees[name].id == id && trees == old(trees)[name := trees[name]]
      ensures (trees[name], A()) == StartTree(old(F()), name, g)
      ensures !old(RecoverableAt(g)) || RecoverableAt(g)
    {
      if name in catalog {
        id := catalog[name];
        assert trees == trees[name := trees[name]];
      } else {
        ghost var f, m, d := F(), View(), dirty;
        id := StartRoot(name, g);
        trees := trees[name := StartTree(f, name, g).0];
        StartKeeps(cmp, disk, m, d, View(), dirty, durable.trees, f, F(), name, g);
      }
    }

    /** Insert below the root on page `rootId`; a root that splits gets a new root above it. */
    method InsertAtRoot(rootId: PageID, key: Key, ptr: Pointer, g: nat, ghost t: Tree)
      returns (newRoot: PageID, ghost r: Tree, ghost w: set<PageID>)
      requires TotalOrder(cmp) && WellShaped(t) && Ordered(cmp, t, Unbounded, Unbounded)
      requires t.id == rootId && Stored(View(), t) && Apart(t, A()) && Clean(t, A())
      modifies this`nodes, this`dirty, this`free, this`next, this`orphans
      ensures (r, A()) == InsertRoot(cmp, t, key, ptr, g, old(A())) && newRoot == r.id && Stored(View(), r)
      ensures Wrote(old(View()), old(dirty), View(), dirty, w) && Permitted(old(View()), w, t, old(A()), g)
    {
      ghost var m, d, a := View(), dirty, A();
      var left, didSplit, sep, right;
      ghost var grown;
      left, didSplit, sep, right, grown, w := InsertRecursive(rootId, key, ptr, g, t, Unbounded, Unbounded);
      newRoot, r := left, grown.t;
      if didSplit {
        NewRootPage(cmp, t, key, ptr, g, a);
        ghost var m1, d1 := View(), dirty;
        newRoot := NewRoot(sep, left, right, g, grown);
        r := Branch(newRoot, g, [sep], [grown.t, grown.rest]);
        WroteTwice(m, d, m1, d1, w, View(), dirty, {newRoot});
        w := w + {newRoot};
      }
    }

    method NewRoot(sep: Key, left: PageID, right: PageID, g: nat, ghost grown: Grown) returns (id: PageID)
      requires grown.Two? && grown.t.id == left && grown.rest.id == right && grown.a == A()
      requires Stored(View(), grown.t) && Stored(View(), grown.rest)
      requires Count(grown.t, Allocate(A()).0) == 0 && Count(grown.rest, Allocate(A()).0) == 0
      modifies this`nodes, this`dirty, this`free, this`next
      ensures (id, A()) == Allocate(old(A())) && Wrote(old(View()), old(dirty), View(), dirty, {id})
      ensures Stored(View(), Branch(id, g, [sep], [grown.t, grown.rest]))
    {
      ghost var m := View();
      id := AllocatePageID();
      WriteNode(id, InternalNode(g, [sep], [left, right]));
      ghost var root := Branch(id, g, [sep], [grown.t, grown.rest]);
      StoredWrite(m, grown.t, id, NodeOf(root));
      StoredWrite(m, grown.rest, id, NodeOf(root));
    }

    method InsertIntoNamed(name: string, rootId: PageID, key: Key, ptr: Pointer, g: nat)
      returns (newRoot: PageID, ghost w: set<PageID>)
      requires TotalOrder(cmp) && name in trees && WellShaped(trees[name])
      requires Ordered(cmp, trees[name], Unbounded, Unbounded)
      requires trees[name].id == rootId && Stored(View(), trees[name]) && Apart(trees[name], A())
      requires Clean(trees[name], A())
      modifies this`nodes, this`dirty, this`free, this`next, this`orphans, this`catalog, this`trees
      ensures name in trees && trees == old(trees)[name := trees[name]]
      ensures (trees[name], A()) == InsertRoot(cmp, old(trees[name]), key, ptr, g, old(A()))
      ensures Stored(View(), trees[name]) && catalog == old(catalog)[name := trees[name].id]
      ensures newRoot == trees[name].id
      ensures Wrote(old(View()), old(dirty), View(), dirty, w)
      ensures Permitted(old(View()), w, old(trees[name]), old(A()), g)
    {
      ghost var t;
      newRoot, t, w := InsertAtRoot(rootId, key, ptr, g, trees[name]);
      SetRoot(name, newRoot, t);
    }

    method SetRoot(name: string, root: PageID, ghost t: Tree)
      modifies this`catalog, this`trees
      ensures catalog == old(catalog)[name := root] && trees == old(trees)[name := t] && View() == old(View())
      ensures A() == old(A())
    {
      catalog := catalog[name := root];
      trees := trees[name := t];
    }

    method InsertExisting(name: string, rootId: PageID, key: Key, ptr: Pointer, g: nat) returns (newRoot: PageID)
      requires Valid() && name in trees && trees[name].id == rootId
      modifies this`nodes, this`dirty, this`free, this`next, this`orphans, this`catalog, this`trees
      ensures Valid() && F() == InsertNamed(cmp, old(F()), name, key, ptr, g) && name in catalog
      ensures newRoot == catalog[name]
      ensures !old(RecoverableAt(g)) || RecoverableAt(g)
    {
      ghost var f, m, d := F(), View(), dirty;
      OwnedApart(f, name);
      ghost var w;
      newRoot, w := InsertIntoNamed(name, rootId, key, ptr, g);
      InsertKeeps(cmp, disk, m, d, View(), dirty, w, durable.trees, f, F(), name, key, ptr, g);
    }

    /** Set `key` to `ptr` in the index `name`. */
    method InsertNamedNoCommit(name: string, key: Key, ptr: Pointer, g: nat) returns (newRoot: PageID)
      requires Valid()
      modifies this`nodes, this`dirty, this`free, this`next, this`orphans, this`catalog, this`trees
      ensures Valid() && F() == InsertNamed(cmp, old(F()), name, key, ptr, g) && name in catalog
      ensures newRoot == catalog[name]
      ensures MeaningOf(F()) == Apply(old(MeaningOf(F())), Put(name, key, ptr, g))
      ensures !old(RecoverableAt(g)) || RecoverableAt(g)
    {
      ghost var f := F();
      InsertNamedValid(cmp, f, name, key, ptr, g);
      var rootId := EnsureRoot(name, g);
      InsertStarted(cmp, f, F(), name, key, ptr, g);
      newRoot := InsertExisting(name, rootId, key, ptr, g);
    }

    /** Delete below the root on page `rootId`; a root left with one child gives way to it. */
    method DeleteAtRoot(rootId: PageID, key: Key, g: nat, ghost t: Tree, ghost h: nat)
      returns (newRoot: PageID, found: bool, panicked: bool, ghost r: Shrunk, ghost root: Tree, ghost w: set<PageID>)
      requires TotalOrder(cmp) && Balanced(t, h) && Ordered(cmp, t, Unbounded, Unbounded)
      requires t.id == rootId && Stored(View(), t) && Apart(t, A()) && Clean(t, A())
      modifies this`nodes, this`dirty, this`free, this`next, this`orphans
      ensures r == Delete(cmp, t, key, g, old(A()), h) && panicked == r.Panic? && found == r.Done?
      ensures (!panicked ==> newRoot == root.id)
      ensures r.Done? ==> (root, A()) == Collapse(r.t, r.a)
      ensures r.Missing? ==> root == t && A() == r.a
      ensures !panicked ==> Stored(View(), root)
      ensures !panicked ==>
                && Wrote(old(View()), old(dirty), View(), dirty, w)
                && Permitted(old(View()), w, t, old(A()), g)
    {
      ghost var m, a := View(), A();
      newRoot, found, panicked, r, w := DeleteRecursive(rootId, key, g, t, h, Unbounded, Unbounded);
      root := if r.Done? then r.t else t;
      if found {
        newRoot, root := CollapseRoot(newRoot, r.t);
      } else if !panicked {
        StoredTakenKept(m, View(), t, a);
      }
    }

    method CollapseRoot(id: PageID, ghost t: Tree) returns (newRoot: PageID, ghost root: Tree)
      requires t.id == id && Stored(View(), t)
      modifies this`nodes, this`orphans
      ensures (root, A()) == Collapse(t, old(A())) && newRoot == root.id
      ensures View() == old(View()) && Stored(View(), root)
    {
      var node := GetNode(id);
      newRoot, root := id, t;
      if node.InternalNode? && |node.keys| == 0 && |node.children| == 1 {
        newRoot, root := node.children[0], t.kids[0];
        MarkOrphaned(id);
      }
    }

    method DeleteFromNamed(name: string, rootId: PageID, key: Key, g: nat)
      returns (newRoot: PageID, panicked: bool, ghost r: Shrunk, ghost w: set<PageID>)
      requires TotalOrder(cmp) && name in trees && Balanced(trees[name], Height(trees[name]))
      requires Ordered(cmp, trees[name], Unbounded, Unbounded)
      requires trees[name].id == rootId && Stored(View(), trees[name]) && Apart(trees[name], A())
      requires Clean(trees[name], A())
      modifies this`nodes, this`dirty, this`free, this`next, this`orphans, this`catalog, this`trees
      ensures r == Delete(cmp, old(trees[name]), key, g, old(A()), Height(old(trees[name]))) && panicked == r.Panic?
      ensures !panicked ==>
                && name in trees && trees == old(trees)[name := trees[name]] && Stored(View(), trees[name])
                && newRoot == trees[name].id
      ensures r.Done? ==> (trees[name], A()) == Collapse(r.t, r.a) && catalog == old(catalog)[name := newRoot]
      ensures r.Missing? ==> trees[name] == old(trees[name]) && A() == r.a && catalog == old(catalog)
      ensures !panicked ==>
                && Wrote(old(View()), old(dirty), View(), dirty, w)
                && Permitted(old(View()), w, old(trees[name]), old(A()), g)
    {
      var found;
      ghost var root;
      newRoot, found, panicked, r, root, w := DeleteAtRoot(rootId, key, g, trees[name], Height(trees[name]));
      if found {
        SetRoot(name, newRoot, root);
      } else {
        assert trees == trees[name := trees[name]];
      }
    }

    method DeleteExisting(name: string, key: Key, g: nat) returns (newRoot: PageID, panicked: bool)
      requires Valid() && name in trees
      modifies this`nodes, this`dirty, this`free, this`next, this`orphans, this`catalog, this`trees
      ensures panicked == DeleteNamed(cmp, old(F()), name, key, g).Failed?
      ensures !panicked ==> F() == DeleteNamed(cmp, old(F()), name, key, g).f && catalog == Roots(trees)
      ensures panicked || AllStored(View(), trees)
      ensures panicked || !old(RecoverableAt(g)) || RecoverableAt(g)
    {
      ghost var f, m, d := F(), View(), dirty;
      OwnedApart(f, name);
      ghost var r, w;
      newRoot, panicked, r, w := DeleteFromNamed(name, catalog[name], key, g);
      if !panicked {
        DeleteKeeps(cmp, disk, m, d, View(), dirty, w, durable.trees, f, F(), name, key, g);
      }
    }

    /** Remove `key` from the index `name`. */
    method DeleteNamedNoCommit(name: string, key: Key, g: nat) returns (newRoot: PageID, panicked: bool)
      requires Valid()
      modifies this`nodes, this`dirty, this`free, this`next, this`orphans, this`catalog, this`trees
      ensures panicked == DeleteNamed(cmp, old(F()), name, key, g).Failed?
      ensures !panicked ==>
                && F() == DeleteNamed(cmp, old(F()), name, key, g).f
                && MeaningOf(F()) == Apply(old(MeaningOf(F())), Drop(name, key, g))
      ensures !panicked && Valid() <==> Safe(cmp, old(F()), Drop(name, key, g))
      ensures panicked || !old(RecoverableAt(g)) || RecoverableAt(g)
    {
      DropSound(cmp, F(), name, key, g);
      newRoot, panicked := 0, false;
      if name in catalog {
        newRoot, panicked := DeleteExisting(name, key, g);
      }
    }

    // ------------------------------------------------------------ lookup

    /** The pointer under `key` in the index `name`: exactly what the map it stands for holds. */
    method FindNamed(name: string, key: Key) returns (r: Option<Pointer>)
      requires Valid()
      modifies this`nodes
      ensures View() == old(View()) && Valid()
      ensures r == if name in trees && key in Contents(trees[name]) then Some(Contents(trees[name])[key]) else None
    {
      if name !in catalog { return None; }
      r := FindBelow(catalog[name], key, trees[name]);
      FindIsLookup(cmp, trees[name], Unbounded, Unbounded, key);
    }

    /** The descent from the root on page `id`. */
    method FindBelow(id: PageID, key: Key, ghost root: Tree) returns (r: Option<Pointer>)
      requires TotalOrder(cmp) && Stored(View(), root) && root.id == id && WellShaped(root)
      requires Ordered(cmp, root, Unbounded, Unbounded)
      modifies this`nodes
      ensures View() == old(View()) && r == Find(cmp, root, key)
    {
      ghost var m, t, lo, hi := View(), root, Unbounded, Unbounded;
      var node := GetNode(id);
      while node.InternalNode?
        invariant View() == m
        invariant Stored(m, t) && node == NodeOf(t) && WellShaped(t) && Ordered(cmp, t, lo, hi)
        invariant Find(cmp, t, key) == Find(cmp, root, key)
        decreases t
      {
        var i := SearchInternal(cmp, node.keys, key);
        assert Stored(m, t.kids[i]);
        node := GetNode(node.children[i]);
        t, lo, hi := t.kids[i], KidLo(t.keys, lo, i), KidHi(t.keys, hi, i);
      }
      var i := SearchLeaf(cmp, node.keys, key);
      r := if i < |node.keys| && node.keys[i] == key then Some(node.ptrs[i]) else None;
    }

    // ------------------------------------------------------------ range scans

    /**
     Visit the entries of the index `name` from `start` to `end`, in order, until the visitor stops; empty
     bounds are open.
     */
    method RangeNamed(name: string, start: Key, end: Key, visit: Visitor) returns (seen: seq<Entry>)
      requires Valid() && EmptyFirst(cmp) && (name in trees ==> Chained(trees[name], 0))
      modifies this`nodes
      ensures View() == old(View()) && Valid()
      ensures name !in trees ==> seen == []
      ensures name in trees ==> seen == Shown(Between(cmp, Entries(trees[name]), start, end), visit, [])
    {
      if name !in catalog { return []; }
      ghost var t := trees[name];
      OwnedApart(F(), name);
      NoZero(t);
      seen := Scan(catalog[name], start, end, visit, t);
      EntriesAscend(cmp, t, Unbounded, Unbounded);
      VisitIsBetween(cmp, Entries(t), start, end, visit, []);
    }

    /** Go down to the first leaf that may hold the start, then follow the chain of leaves. */
    method Scan(id: PageID, start: Key, end: Key, visit: Visitor, ghost root: Tree) returns (seen: seq<Entry>)
      requires TotalOrder(cmp) && EmptyFirst(cmp) && Stored(View(), root) && root.id == id && WellShaped(root)
      requires Ordered(cmp, root, Unbounded, Unbounded) && NoPageZero(root) && Chained(root, 0)
      modifies this`nodes
      ensures View() == old(View()) && seen == Visit(cmp, Entries(root), start, end, visit, []).0
    {
      var leaf;
      ghost var leaves;
      leaf, leaves := Descend(id, start, end, visit, root);
      seen := FollowChain(leaf, start, end, visit, leaves);
    }

    /** The first loop of a scan: the leaves from the one found on, and a visit of them is a visit of all entries. */
    method Descend(id: PageID, start: Key, ghost end: Key, ghost visit: Visitor, ghost root: Tree)
      returns (leaf: PageID, ghost leaves: seq<Tree>)
      requires TotalOrder(cmp) && EmptyFirst(cmp) && Stored(View(), root) && root.id == id && WellShaped(root)
      requires Ordered(cmp, root, Unbounded, Unbounded) && NoPageZero(root) && Chained(root, 0)
      modifies this`nodes
      ensures View() == old(View()) && AllShaped(leaves) && LeafRow(View(), leaves) && ChainedRow(leaves, 0)
      ensures leaf == FirstOf(leaves, 0)
      ensures Visit(cmp, EntriesRow(leaves), start, end, visit, []) == Visit(cmp, Entries(root), start, end, visit, [])
    {
      ghost var m, t, lo, hi := View(), root, Unbounded, Unbounded;
      ghost var tail: seq<Tree> := [];
      ghost var skipped: seq<Entry> := [];
      leaf := id;
      var node := GetNode(leaf);
      while node.InternalNode?
        invariant View() == m && leaf == t.id && node == NodeOf(t)
        invariant Descending(cmp, m, t, tail) && Ordered(cmp, t, lo, hi)
        invariant Entries(root) == skipped + (Entries(t) + EntriesRow(tail)) && AllBelow(cmp, skipped, start)
        decreases t
      {
        var i := SearchInternal(cmp, node.keys, start);
        ghost var more;
        more, tail := DescendStep(cmp, m, t, lo, hi, tail, start);
        MoreSkipped(cmp, skipped, more, Entries(t.kids[i]) + EntriesRow(tail), start);
        skipped := skipped + more;
        leaf := node.children[i];
        node := GetNode(leaf);
        t, lo, hi := t.kids[i], KidLo(t.keys, lo, i), KidHi(t.keys, hi, i);
      }
      leaves := [t] + tail;
      DescendEnd(cmp, m, t, tail);
      SkipPrefix(cmp, skipped, EntriesRow(leaves), start, end, visit);
    }

    /** The second loop of a scan: leaf after leaf along the right siblings. */
    method FollowChain(id: PageID, start: Key, end: Key, visit: Visitor, ghost leaves: seq<Tree>)
      returns (seen: seq<Entry>)
      requires AllShaped(leaves) && LeafRow(View(), leaves) && ChainedRow(leaves, 0) && id == FirstOf(leaves, 0)
      modifies this`nodes
      ensures View() == old(View()) && seen == Visit(cmp, EntriesRow(leaves), start, end, visit, []).0
    {
      ghost var m, rest := View(), leaves;
      var cur := id;
      seen := [];
      while cur != 0
        invariant View() == m && AllShaped(rest) && LeafRow(m, rest) && ChainedRow(rest, 0) && cur == FirstOf(rest, 0)
        invariant Visit(cmp, EntriesRow(rest), start, end, visit, seen) ==
                  Visit(cmp, EntriesRow(leaves), start, end, visit, [])
        decreases |rest|
      {
        var node := GetNode(cur);
        assert node == NodeOf(rest[0]);
        NextLeaf(cmp, rest, start, end, visit, seen);
        var stop;
        seen, stop := VisitLeaf(node.keys, node.ptrs, start, end, visit, seen);
        if stop { return; }
        cur, rest := node.right, rest[1..];
      }
    }

    /** The entries of one leaf. */
    method VisitLeaf(keys: seq<Key>, ptrs: seq<Pointer>, start: Key, end: Key, visit: Visitor, before: seq<Entry>)
      returns (seen: seq<Entry>, stop: bool)
      requires |keys| == |ptrs|
      ensures (seen, stop) == Visit(cmp, LeafEntries(keys, ptrs), start, end, visit, before)
    {
      ghost var es := LeafEntries(keys, ptrs);
      seen, stop := before, false;
      for i := 0 to |keys|
        invariant Visit(cmp, es[i..], start, end, visit, seen) == Visit(cmp, es, start, end, visit, before) && !stop
      {
        assert es[i..][0] == es[i] && es[i..][1..] == es[i + 1..];
        if start != [] && cmp(keys[i], start) < 0 {
          continue;
        }
        if end != [] && cmp(keys[i], end) > 0 {
          return seen, true;
        }
        var goOn := visit(seen, (keys[i], ptrs[i]));
        seen := seen + [(keys[i], ptrs[i])];
        if !goOn {
          return seen, true;
        }
      }
    }

    // ------------------------------------------------------------ commit

    /** The old catalog and all orphans become free. */
    method Recycle()
      modifies this`free, this`orphans
      ensures var a := Orphan(old(A()), catalogRoot); A() == Alloc(a.free + a.orphans, a.next, [])
    {
      MarkOrphaned(catalogRoot);
      free := free + orphans;
      orphans := [];
    }

    /** Write the cached dirty nodes, in some order, up to the first one that does not serialize. */
    method WriteDirty(ghost m: Store) returns (ok: bool, ghost order: seq<PageID>)
      requires m == View()
      modifies this`disk, this`dirty
      ensures forall i :: 0 <= i < |order| ==> order[i] in m && order[i] in old(dirty) * nodes.Keys
      ensures disk == WriteAll(old(disk), NodeWrites(m, order)) && dirty == {}
      ensures ok <==> forall p :: p in old(dirty) && p in nodes ==> Fits(nodes[p].LeafNode?, nodes[p].keys)
      ensures ok ==> Lists(order, old(dirty) * nodes.Keys)
    {
      var todo := dirty;
      dirty, order := {}, [];
      while todo != {}
        invariant todo <= old(dirty) && dirty == {}
        invariant forall i :: 0 <= i < |order| ==> order[i] in m && order[i] in old(dirty) * nodes.Keys
        invariant forall p :: p in old(dirty) && p in nodes && p !in todo ==>
                  p in order && Fits(nodes[p].LeafNode?, nodes[p].keys)
        invariant disk == WriteAll(old(disk), NodeWrites(m, order))
        decreases todo
      {
        var p :| p in todo;
        if p in nodes {
          if !Fits(nodes[p].LeafNode?, nodes[p].keys) {
            return false, order;
          }
          disk := disk[p := NodePage(nodes[p])];
          assert NodeWrites(m, order + [p])[..|order|] == NodeWrites(m, order);
          order := order + [p];
        }
        todo := todo - {p};
      }
      ok := true;
    }

    /** Write the catalog and then the superblock. */
    method WriteCatalog(g: nat) returns (ok: bool)
      requires Allocate(A()).0 >= 2
      modifies this`disk, this`free, this`next, this`catalogRoot, this`generation
      ensures A() == Allocate(old(A())).1
      ensures ok <==> CatalogEnd(catalog.Keys) <= CATALOG_LIMIT
      ensures !ok ==> disk == old(disk) && catalogRoot == old(catalogRoot)
      ensures ok ==>
                && catalogRoot == Allocate(old(A())).0 && generation == g
                && var page := CatalogPage(catalog, free[..FreeKept(catalog.Keys, free)]);
                disk == old(disk)[catalogRoot := page][TargetSlot(old(disk)) := SuperPage(g, catalogRoot, next)]
    {
      var at := AllocatePageID();
      var end;
      ok, end := LayOutRoots(catalog.Keys);
      if !ok { return; }
      var room := FreeRoom(end);
      var kept := if |free| > room then free[..room] else free;
      assert kept == free[..FreeKept(catalog.Keys, free)];
      disk := disk[at := CatalogPage(catalog, kept)];
      var target := TargetSlot(disk);
      disk := disk[target := SuperPage(g, at, next)];
      catalogRoot, generation := at, g;
    }

    /** Every page a commit is to write serializes. */
    ghost predicate Serializes()
      reads this
    {
      && (forall p :: p in dirty && p in nodes ==> Fits(nodes[p].LeafNode?, nodes[p].keys))
      && CatalogEnd(catalog.Keys) <= CATALOG_LIMIT
    }

    /** All writes of a commit. */
    method WritePages(g: nat) returns (ok: bool, ghost order: seq<PageID>)
      requires CommitPages(F()).catalog >= 2 && catalog == Roots(trees)
      requires forall p :: p in dirty ==> p >= 2
      modifies this`disk, this`dirty, this`free, this`next, this`orphans, this`catalogRoot, this`generation
      ensures ok == old(Serializes())
      ensures forall i :: 0 <= i < |order| ==> order[i] in old(View()) && order[i] in old(dirty) * nodes.Keys
      ensures !ok ==> disk == WriteAll(old(disk), NodeWrites(old(View()), order))
      ensures ok ==>
                && Lists(order, old(dirty) * nodes.Keys) && F() == CommitPages(old(F())) && dirty == {}
                && generation == g
                && disk == WriteAll(old(disk),
                                    WritesOf(old(disk), old(View()), order, old(F()), FreeKept(catalog.Keys, free), g))
    {
      ghost var m := View();
      ok, order := WriteNodes(m);
      if ok {
        SlotsStay(old(disk), m, order);
        ok := WriteCatalog(g);
        if ok {
          CommitUnfolds(old(disk), m, order, CatalogWrite(trees, catalogRoot, free, FreeKept(catalog.Keys, free)), g,
                        next);
        }
      }
    }

    method WriteNodes(ghost m: Store) returns (ok: bool, ghost order: seq<PageID>)
      requires m == View()
      modifies this`disk, this`dirty, this`free, this`orphans
      ensures var a := Orphan(old(A()), catalogRoot); A() == Alloc(a.free + a.orphans, a.next, [])
      ensures forall i :: 0 <= i < |order| ==> order[i] in m && order[i] in old(dirty) * nodes.Keys
      ensures disk == WriteAll(old(disk), NodeWrites(m, order)) && dirty == {}
      ensures ok <==> forall p :: p in old(dirty) && p in nodes ==> Fits(nodes[p].LeafNode?, nodes[p].keys)
      ensures ok ==> Lists(order, old(dirty) * nodes.Keys)
    {
      Recycle();
      ok, order := WriteDirty(m);
    }

    /** Commit under any generation, in some order of the dirty pages. */
    method WriteAny(g: nat) returns (ok: bool, ghost order: seq<PageID>, ghost ws: seq<Write>)
      requires Valid() && forall p :: p in dirty ==> p >= 3
      modifies this`disk, this`dirty, this`free, this`next, this`orphans, this`catalogRoot, this`generation,
        this`durable
      ensures ok == old(Serializes()) && disk == WriteAll(old(disk), ws)
      ensures ok ==>
                && F() == CommitPages(old(F())) && generation == g && dirty == {}
                && durable == Reread(F(), FreeKept(catalog.Keys, free))
                && Lists(order, old(dirty) * nodes.Keys)
                && ws == WritesOf(old(disk), old(View()), order, old(F()), FreeKept(catalog.Keys, free), g)
      ensures !ok ==>
                && durable == old(durable) && (forall i :: 0 <= i < |order| ==>
                                               order[i] in old(View()) && order[i] in old(dirty) * nodes.Keys)
                && ws == NodeWrites(old(View()), order)
      ensures !ok || Valid()
    {
      ghost var m, f, d := View(), F(), disk;
      CommitOwned(f);
      PageOwned(CommitPages(f), CommitPages(f).catalog);
      ok, order := WritePages(g);
      if ok {
        ghost var keep := FreeKept(catalog.Keys, free);
        ws := WritesOf(d, m, order, f, keep, g);
        durable := Reread(F(), keep);
        CommitStored(d, nodes, f, g, order, keep);
      } else {
        ws := NodeWrites(m, order);
      }
    }

    /**
     Commit under generation `g`. If `g` is above all generations on disk: wherever it stops, reopening
     the disk shows the trees before it or the trees after it; if it reports failure, the trees before
     it; and any later generation may commit next.
     */
    method WriteNewState(g: nat) returns (ok: bool, ghost order: seq<PageID>, ghost ws: seq<Write>)
      requires Valid() && forall p :: p in dirty ==> p >= 3
      modifies this`disk, this`dirty, this`free, this`next, this`orphans, this`catalogRoot, this`generation,
        this`durable
      ensures ok == old(Serializes()) && disk == WriteAll(old(disk), ws)
      ensures ok ==>
                && F() == CommitPages(old(F())) && generation == g
                && durable == Reread(F(), FreeKept(catalog.Keys, free))
      ensures ok ==>
                && Lists(order, old(dirty) * nodes.Keys)
                && ws == WritesOf(old(disk), old(View()), order, old(F()), FreeKept(catalog.Keys, free), g)
      ensures !ok || Valid()
      ensures !ok || !old(RecoverableAt(g)) || forall h: nat :: !(h > g) || RecoverableAt(h)
      ensures ok && old(RecoverableAt(g)) ==>
                forall k: nat, torn :: k <= |ws| ==>
                  AfterCrash(CrashDisk(old(disk), ws, k, torn), old(durable.trees), trees)
      ensures !ok && old(RecoverableAt(g)) ==> forall k: nat :: k <= |ws| ==>
              Shows(WriteAll(old(disk), ws[..k]), old(durable.trees))
    {
      ghost var f, d, base, marked, rising := F(), disk, durable, dirty, RecoverableAt(g);
      ok, order, ws := WriteAny(g);
      if rising {
        if ok {
          CommitRising(cmp, d, nodes, marked, base, f, g, order, FreeKept(catalog.Keys, free));
        } else {
          FailureRising(d, nodes, marked, base.trees, f, g, order);
        }
      }
    }
  }
}
