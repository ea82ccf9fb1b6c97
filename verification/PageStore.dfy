/**
 Trees laid out on pages: when a page store holds a tree, and why writes to other pages leave it alone.
 */
module PageStore {
  import opened KeyOrder
  import opened PageFormat
  import opened CowTree
  import opened TreePages

  type Store = map<PageID, Node>

  function Ids(kids: seq<Tree>): (r: seq<PageID>)
    ensures |r| == |kids| && forall i :: 0 <= i < |kids| ==> r[i] == kids[i].id
  {
    seq(|kids|, i requires 0 <= i < |kids| => kids[i].id)
  }

  /** The node at the root of `t`, as a page holds it. */
  function NodeOf(t: Tree): Node {
    match t
    case Leaf(_, gen, keys, ptrs, right) => LeafNode(gen, keys, ptrs, right)
    case Branch(_, gen, keys, kids) => InternalNode(gen, keys, Ids(kids))
  }

  /** Every node of `t` is on its page. */
  ghost predicate Stored(m: Store, t: Tree)
    decreases t
  {
    && t.id in m && m[t.id] == NodeOf(t)
    && (t.Branch? ==> forall i :: 0 <= i < |t.kids| ==> Stored(m, t.kids[i]))
  }

  /** No page of `t` is shared inside `t`, held by the allocator, or beyond the end of the file. */
  ghost predicate Apart(t: Tree, a: Alloc) {
    forall p: PageID :: Count(t, p) + Held(a, p) + (if p >= a.next then 1 else 0) <= 1
  }

  /** A page the allocator cannot hand out. */
  ghost predicate Taken(a: Alloc, p: PageID) {
    p !in a.free && p < a.next
  }

  // ---------------------------------------------------------------- frames

  lemma {:induction false} CountKid(t: Tree, i: nat, p: PageID)
    requires t.Branch? && i < |t.kids|
    ensures Count(t.kids[i], p) + Is(t.id, p) <= Count(t, p)
  {
    CountAround(t.kids, i, p);
  }

  lemma {:induction false} CountTwoKids(t: Tree, i: nat, j: nat, p: PageID)
    requires t.Branch? && i < j < |t.kids|
    ensures Count(t.kids[i], p) + Count(t.kids[j], p) + Is(t.id, p) <= Count(t, p)
  {
    CountAround(t.kids, i, p);
    CountAround(t.kids[i + 1..], j - i - 1, p);
    assert t.kids[i + 1..][j - i - 1] == t.kids[j];
  }

  /** A tree is still stored after writes that miss its pages. */
  lemma {:induction false} StoredFrame(m: Store, m': Store, t: Tree)
    requires Stored(m, t)
    requires forall p :: Count(t, p) >= 1 ==> p in m' && (p in m ==> m'[p] == m[p])
    ensures Stored(m', t)
    decreases t
  {
    assert Count(t, t.id) >= 1;
    if t.Branch? {
      forall i | 0 <= i < |t.kids|
        ensures Stored(m', t.kids[i])
      {
        forall p | Count(t.kids[i], p) >= 1
          ensures p in m' && (p in m ==> m'[p] == m[p])
        {
          CountKid(t, i, p);
        }
        StoredFrame(m, m', t.kids[i]);
      }
    }
  }

  lemma {:induction false} StoredIn(m: Store, t: Tree, p: PageID)
    requires Stored(m, t) && Count(t, p) >= 1
    ensures p in m
    decreases t
  {
    if t.Branch? && p != t.id {
      var i := CountWitness(t.kids, p);
      StoredIn(m, t.kids[i], p);
    }
  }

  lemma {:induction false} CountWitness(kids: seq<Tree>, p: PageID) returns (i: nat)
    requires CountAll(kids, p) >= 1
    ensures i < |kids| && Count(kids[i], p) >= 1
  {
    if Count(kids[0], p) >= 1 {
      i := 0;
    } else {
      i := CountWitness(kids[1..], p);
      i := i + 1;
    }
  }

  /** One write to a page outside `t`. */
  lemma {:induction false} StoredWrite(m: Store, t: Tree, p: PageID, n: Node)
    requires Stored(m, t) && Count(t, p) == 0
    ensures Stored(m[p := n], t)
  {
    forall q | Count(t, q) >= 1
      ensures q in m[p := n] && (q in m ==> m[p := n][q] == m[q])
    {
      StoredIn(m, t, q);
    }
    StoredFrame(m, m[p := n], t);
  }

  // ---------------------------------------------------------------- apartness

  lemma {:induction false} ApartAfter(t: Tree, a: Alloc, n: Tree, b: Alloc)
    requires Apart(t, a) && forall p: PageID :: Conserves(Count(t, p), a, Count(n, p), b, p)
    ensures Apart(n, b)
  {
    forall p: PageID
      ensures Count(n, p) + Held(b, p) + (if p >= b.next then 1 else 0) <= 1
    {
      assert Conserves(Count(t, p), a, Count(n, p), b, p);
    }
  }

  lemma {:induction false} KidApart(t: Tree, i: nat, g: nat, a: Alloc)
    requires t.Branch? && i < |t.kids| && Apart(t, a) && Clean(t, a)
    ensures var (id, a1) := Touch(t.id, t.gen, g, a); Apart(t.kids[i], a1)
  {
    var (id, a1) := Touch(t.id, t.gen, g, a);
    TouchClean(t, g, a);
    forall p: PageID
      ensures Count(t.kids[i], p) + Held(a1, p) + (if p >= a1.next then 1 else 0) <= 1
    {
      TouchConserves(t.id, t.gen, g, a, p);
      CountKid(t, i, p);
    }
  }

  /** The pages of a kid's siblings are out of the reach of an operation on the kid. */
  lemma {:induction false} SiblingTaken(t: Tree, i: nat, j: nat, g: nat, a: Alloc, p: PageID)
    requires t.Branch? && i < |t.kids| && j < |t.kids| && i != j && Apart(t, a) && Clean(t, a)
    requires Count(t.kids[j], p) >= 1
    ensures var (id, a1) := Touch(t.id, t.gen, g, a);
            Count(t.kids[i], p) == 0 && Taken(a1, p) && p != id && p != t.id
  {
    TouchClean(t, g, a);
    TouchConserves(t.id, t.gen, g, a, p);
    if i < j {
      CountTwoKids(t, i, j, p);
    } else {
      CountTwoKids(t, j, i, p);
    }
  }

  /** A page just obtained is in no tree and out of the allocator's hands. */
  lemma {:induction false} AllocateApart(t: Tree, a: Alloc)
    requires Apart(t, a)
    ensures var (q, b) := Allocate(a); Count(t, q) == 0 && Apart(t, b) && Held(b, q) == 0 && q < b.next && !Taken(a, q)
  {
    var (q, b) := Allocate(a);
    AllocateConserves(a, q);
    forall p: PageID
      ensures Count(t, p) + Held(b, p) + (if p >= b.next then 1 else 0) <= 1
    {
      AllocateConserves(a, p);
    }
  }

  /** Taken pages stay taken, and what becomes taken came from the allocator. */
  lemma {:induction false} TouchTaken(id: PageID, gen: nat, g: nat, a: Alloc, p: PageID)
    requires Taken(a, p)
    ensures Taken(Touch(id, gen, g, a).1, p) && (p == Touch(id, gen, g, a).0 ==> p == id && gen == g)
  {
  }

  // ---------------------------------------------------------------- writes

  /** The store and the dirty set after writing the pages `w`. */
  ghost predicate Wrote(m: Store, d: set<PageID>, m': Store, d': set<PageID>, w: set<PageID>) {
    && d' == d + w && m'.Keys == m.Keys + w
    && forall p :: p in m && p !in w ==> m'[p] == m[p]
  }

  /** Generation `g` may write these pages on behalf of `t`: new pages, and pages of `t` it wrote itself. */
  ghost predicate Permitted(m: Store, w: set<PageID>, t: Tree, a: Alloc, g: nat) {
    forall p :: p in w ==> !Taken(a, p) || (Count(t, p) >= 1 && p in m && m[p].gen == g)
  }

  /** Pages outside `t` that the allocator cannot hand out are not among the permitted writes. */
  lemma {:induction false} StoredElsewhere(m: Store, d: set<PageID>, m': Store, d': set<PageID>, w: set<PageID>,
                                           t: Tree, a: Alloc, g: nat, u: Tree)
    requires Wrote(m, d, m', d', w) && Permitted(m, w, t, a, g)
    requires Stored(m, u) && forall p :: Count(u, p) >= 1 ==> Count(t, p) == 0 && Taken(a, p)
    ensures Stored(m', u)
  {
    forall p | Count(u, p) >= 1
      ensures p in m' && (p in m ==> m'[p] == m[p])
    {
      StoredIn(m, u, p);
    }
    StoredFrame(m, m', u);
  }

  /** The writes below a child, seen from the parent. */
  lemma {:induction false} PermittedKid(m: Store, m1: Store, w: set<PageID>, t: Tree, i: nat, a: Alloc, g: nat)
    requires t.Branch? && i < |t.kids| && Apart(t, a) && Clean(t, a)
    requires var (id, a1) := Touch(t.id, t.gen, g, a);
             && Permitted(m1, w, t.kids[i], a1, g)
             && (forall p :: p in m1 && p != id ==> p in m && m1[p] == m[p])
    ensures Permitted(m, w, t, a, g)
  {
    var (id, a1) := Touch(t.id, t.gen, g, a);
    TouchClean(t, g, a);
    forall p | p in w && Taken(a, p)
      ensures Count(t, p) >= 1 && p in m && m[p].gen == g
    {
      TouchTaken(t.id, t.gen, g, a, p);
      CountKid(t, i, p);
      TouchConserves(t.id, t.gen, g, a, p);
    }
  }

  // ---------------------------------------------------------------- writing a node over stored children

  ghost predicate KidsStored(m: Store, t: Tree) {
    t.Branch? ==> forall i :: 0 <= i < |t.kids| ==> Stored(m, t.kids[i])
  }

  /** Page `p` is not below the root of `t`. */
  ghost predicate NotBelow(t: Tree, p: PageID) {
    t.Branch? ==> CountAll(t.kids, p) == 0
  }

  lemma {:induction false} KidsStoredWrite(m: Store, t: Tree, p: PageID, n: Node)
    requires KidsStored(m, t) && NotBelow(t, p)
    ensures KidsStored(m[p := n], t)
  {
    if t.Branch? {
      forall i | 0 <= i < |t.kids|
        ensures Stored(m[p := n], t.kids[i])
      {
        CountAround(t.kids, i, p);
        StoredWrite(m, t.kids[i], p, n);
      }
    }
  }

  lemma {:induction false} StoreOne(m: Store, t: Tree)
    requires KidsStored(m, t) && NotBelow(t, t.id)
    ensures Stored(m[t.id := NodeOf(t)], t)
  {
    KidsStoredWrite(m, t, t.id, NodeOf(t));
  }

  lemma {:induction false} StoreTwo(m: Store, t: Tree, u: Tree)
    requires KidsStored(m, t) && KidsStored(m, u) && t.id != u.id
    requires NotBelow(t, t.id) && NotBelow(t, u.id) && NotBelow(u, t.id) && NotBelow(u, u.id)
    ensures Stored(m[u.id := NodeOf(u)][t.id := NodeOf(t)], t) && Stored(m[u.id := NodeOf(u)][t.id := NodeOf(t)], u)
  {
    var m1 := m[u.id := NodeOf(u)];
    KidsStoredWrite(m, t, u.id, NodeOf(u));
    StoreOne(m1, t);
    StoreOne(m, u);
    KidsStoredWrite(m1, u, t.id, NodeOf(t));
  }

  /** The pages of the two halves, as slices of the page that was split. */
  lemma {:induction false} SplitNodes(t: Tree, g: nat, a: Alloc)
    requires |t.keys| > 0 && !Fits(t.Leaf?, t.keys) && t.gen == g
    requires t.Leaf? ==> |t.ptrs| == |t.keys|
    requires t.Branch? ==> |t.kids| == |t.keys| + 1
    ensures var r, n, mid := Settle(t, g, a), NodeOf(t), |t.keys| / 2;
            if t.Leaf? then
              && NodeOf(r.t) == LeafNode(g, n.keys[..mid], n.ptrs[..mid], r.rest.id)
              && NodeOf(r.rest) == LeafNode(g, n.keys[mid..], n.ptrs[mid..], n.right)
            else
              && NodeOf(r.t) == InternalNode(g, n.keys[..mid], n.children[..mid + 1])
              && NodeOf(r.rest) == InternalNode(g, n.keys[mid + 1..], n.children[mid + 1..])
  {
  }

  /** The halves of a split: their children are stored, and neither root page is below either. */
  lemma {:induction false} SettleStored(m: Store, t: Tree, g: nat, a: Alloc)
    requires KidsStored(m, t) && Apart(t, a)
    requires |t.keys| > 0 || Fits(t.Leaf?, t.keys)
    requires t.Leaf? ==> |t.ptrs| == |t.keys|
    requires t.Branch? ==> |t.kids| == |t.keys| + 1
    ensures var r := Settle(t, g, a);
            if r.One? then Stored(m[t.id := NodeOf(t)], t)
            else
              && r.t.id == t.id && r.rest.id == Allocate(a).0 && !Taken(a, r.rest.id) && r.rest.id != t.id
              && Stored(m[r.rest.id := NodeOf(r.rest)][t.id := NodeOf(r.t)], r.t)
              && Stored(m[r.rest.id := NodeOf(r.rest)][t.id := NodeOf(r.t)], r.rest)
  {
    var r := Settle(t, g, a);
    assert Count(t, t.id) >= 1;
    if r.One? {
      StoreOne(m, t);
    } else {
      AllocateApart(t, a);
      if t.Branch? {
        var mid := |t.keys| / 2;
        assert t.kids == r.t.kids + r.rest.kids;
        CountConcat(r.t.kids, r.rest.kids, t.id);
        CountConcat(r.t.kids, r.rest.kids, r.rest.id);
      }
      StoreTwo(m, r.t, r.rest);
    }
  }

  // ---------------------------------------------------------------- one level of an operation

  /** Giving the root a page leaves its children where they are. */
  lemma {:induction false} TouchKidsStored(m: Store, m1: Store, t: Tree, g: nat, a: Alloc)
    requires Stored(m, t) && Apart(t, a) && Clean(t, a) && m.Keys <= m1.Keys
    requires var (id, a1) := Touch(t.id, t.gen, g, a); forall p :: p in m && p != id ==> m1[p] == m[p]
    ensures KidsStored(m1, t)
  {
    var (id, a1) := Touch(t.id, t.gen, g, a);
    TouchClean(t, g, a);
    if t.Branch? {
      forall i | 0 <= i < |t.kids|
        ensures Stored(m1, t.kids[i])
      {
        forall p | Count(t.kids[i], p) >= 1
          ensures p in m1 && (p in m ==> m1[p] == m[p])
        {
          CountKid(t, i, p);
          TouchConserves(t.id, t.gen, g, a, p);
          StoredIn(m, t.kids[i], p);
        }
        StoredFrame(m, m1, t.kids[i]);
      }
    }
  }

  /** After an operation on child `i`, all children of the rewritten node are stored. */
  lemma {:induction false} DescendStored(m1: Store, d1: set<PageID>, m2: Store, d2: set<PageID>, w: set<PageID>,
                                         t: Tree, i: nat, g: nat, a: Alloc, child: Grown)
    requires t.Branch? && i < |t.kids| && WellShaped(t) && Apart(t, a) && Clean(t, a) && KidsStored(m1, t)
    requires Wrote(m1, d1, m2, d2, w) && Permitted(m1, w, t.kids[i], Touch(t.id, t.gen, g, a).1, g)
    requires Stored(m2, child.t) && (child.Two? ==> Stored(m2, child.rest))
    ensures KidsStored(m2, BranchPut(Moved(t, Touch(t.id, t.gen, g, a).0, g), i, child))
  {
    var (id, a1) := Touch(t.id, t.gen, g, a);
    forall j | 0 <= j < |t.kids| && j != i
      ensures Stored(m2, t.kids[j])
    {
      forall p | Count(t.kids[j], p) >= 1
        ensures Count(t.kids[i], p) == 0 && Taken(a1, p)
      {
        SiblingTaken(t, i, j, g, a, p);
      }
      StoredElsewhere(m1, d1, m2, d2, w, t.kids[i], a1, g, t.kids[j]);
    }
    var n := BranchPut(Moved(t, id, g), i, child);
    forall j | 0 <= j < |n.kids|
      ensures Stored(m2, n.kids[j])
    {
      if child.Two? && j > i + 1 {
        assert n.kids[j] == t.kids[j - 1];
      }
    }
  }

  /** The rewritten node does not share pages with the allocator. */
  lemma {:induction false} DescendApart(t: Tree, i: nat, g: nat, a: Alloc, child: Grown)
    requires t.Branch? && i < |t.kids| && WellShaped(t) && Apart(t, a) && Clean(t, a)
    requires forall p: PageID ::
             Conserves(Count(t.kids[i], p), Touch(t.id, t.gen, g, a).1, GrownCount(child, p), child.a, p)
    ensures var n := BranchPut(Moved(t, Touch(t.id, t.gen, g, a).0, g), i, child);
            Apart(n, child.a) && Clean(n, child.a)
  {
    var n := BranchPut(Moved(t, Touch(t.id, t.gen, g, a).0, g), i, child);
    forall p: PageID
      ensures Conserves(Count(t, p), a, Count(n, p), child.a, p)
    {
      DescendConserves(t, i, g, a, child, p);
    }
    ApartAfter(t, a, n, child.a);
    StepClean(t, a, n, child.a);
  }

  lemma {:induction false} WroteTwice(m: Store, d: set<PageID>, m1: Store, d1: set<PageID>, w1: set<PageID>,
                                      m2: Store, d2: set<PageID>, w2: set<PageID>)
    requires Wrote(m, d, m1, d1, w1) && Wrote(m1, d1, m2, d2, w2)
    ensures Wrote(m, d, m2, d2, w1 + w2)
  {
  }

  /** The page a touch writes is permitted. */
  lemma {:induction false} TouchPermitted(m: Store, t: Tree, g: nat, a: Alloc)
    requires Stored(m, t) && Apart(t, a)
    ensures Permitted(m, {Touch(t.id, t.gen, g, a).0}, t, a, g)
  {
    if t.gen != g {
      AllocateApart(t, a);
    }
    assert Count(t, t.id) >= 1;
  }

  /** Once allocation has moved on from `a` to `b`, the pages still to be had are among those `a` offered. */
  ghost predicate Later(a: Alloc, b: Alloc) {
    a.next <= b.next && forall p :: p in b.free ==> p in a.free
  }

  lemma {:induction false} LaterTouch(id: PageID, gen: nat, g: nat, a: Alloc)
    ensures Later(a, Allocate(a).1) && Later(a, Touch(id, gen, g, a).1)
  {
  }

  lemma {:induction false} LaterSettle(t: Tree, g: nat, a: Alloc)
    requires |t.keys| > 0 || Fits(t.Leaf?, t.keys)
    requires t.Leaf? ==> |t.ptrs| == |t.keys|
    requires t.Branch? ==> |t.kids| == |t.keys| + 1
    ensures Later(a, Settle(t, g, a).a)
  {
    LaterTouch(t.id, t.gen, g, a);
  }

  lemma {:induction false} LaterInsert(cmp: Cmp, t: Tree, key: Key, ptr: Pointer, g: nat, a: Alloc)
    requires WellShaped(t)
    ensures Later(a, Insert(cmp, t, key, ptr, g, a).a)
    decreases t
  {
    var (id, a1) := Touch(t.id, t.gen, g, a);
    LaterTouch(t.id, t.gen, g, a);
    if t.Leaf? {
      LaterSettle(LeafPut(cmp, Moved(t, id, g), key, ptr), g, a1);
    } else {
      var i := UpperBound(cmp, t.keys, key);
      LaterInsert(cmp, t.kids[i], key, ptr, g, a1);
      var child := Insert(cmp, t.kids[i], key, ptr, g, a1);
      LaterSettle(BranchPut(Moved(t, id, g), i, child), g, child.a);
    }
  }

  /** Writing the node itself and pages obtained later is permitted. */
  lemma {:induction false} PermittedLater(m: Store, w: set<PageID>, id: PageID, t: Tree, g: nat, a: Alloc, b: Alloc)
    requires Permitted(m, {id}, t, a, g) && Later(a, b)
    requires forall p :: p in w && p != id ==> !Taken(b, p)
    ensures Permitted(m, w, t, a, g)
  {
    assert id in {id};
  }

  /** A single node moved to its page shares nothing with the allocator. */
  lemma {:induction false} LeafApart(t: Tree, g: nat, a: Alloc, n: Tree)
    requires t.Leaf? && Apart(t, a) && Clean(t, a) && n.Leaf? && n.id == Touch(t.id, t.gen, g, a).0
    ensures Apart(n, Touch(t.id, t.gen, g, a).1)
  {
    TouchClean(t, g, a);
    forall p: PageID
      ensures Conserves(Count(t, p), a, Count(n, p), Touch(t.id, t.gen, g, a).1, p)
    {
      TouchConserves(t.id, t.gen, g, a, p);
    }
    ApartAfter(t, a, n, Touch(t.id, t.gen, g, a).1);
  }

  lemma {:induction false} InsertDescendApart(cmp: Cmp, t: Tree, i: nat, key: Key, ptr: Pointer, g: nat, a: Alloc)
    requires t.Branch? && i < |t.kids| && WellShaped(t) && Apart(t, a) && Clean(t, a)
    ensures var (id, a1) := Touch(t.id, t.gen, g, a);
            var child := Insert(cmp, t.kids[i], key, ptr, g, a1);
            Apart(BranchPut(Moved(t, id, g), i, child), child.a)
  {
    var a1 := Touch(t.id, t.gen, g, a).1;
    var child := Insert(cmp, t.kids[i], key, ptr, g, a1);
    KidClean(t, i, g, a);
    forall p: PageID
      ensures Conserves(Count(t.kids[i], p), a1, GrownCount(child, p), child.a, p)
    {
      InsertConserves(cmp, t.kids[i], key, ptr, g, a1, p);
    }
    DescendApart(t, i, g, a, child);
  }

  /** Going down: what an operation on child `i` may rely on once the root has its page. */
  lemma {:induction false} GoDown(m: Store, d: set<PageID>, m1: Store, d1: set<PageID>, t: Tree, i: nat, g: nat,
                                  a: Alloc)
    requires t.Branch? && i < |t.kids| && Stored(m, t) && Apart(t, a) && Clean(t, a)
    requires Wrote(m, d, m1, d1, {Touch(t.id, t.gen, g, a).0})
    ensures var a1 := Touch(t.id, t.gen, g, a).1;
            Stored(m1, t.kids[i]) && Apart(t.kids[i], a1) && Clean(t.kids[i], a1)
    ensures KidsStored(m1, t)
  {
    KidApart(t, i, g, a);
    KidClean(t, i, g, a);
    TouchKidsStored(m, m1, t, g, a);
  }

  /** Coming back: the writes for the root, below the child, and to finish the node, all together. */
  lemma {:induction false} ComeBack(m: Store, d: set<PageID>, m1: Store, d1: set<PageID>, m2: Store, d2: set<PageID>,
                                    w1: set<PageID>, m3: Store, d3: set<PageID>, w2: set<PageID>, t: Tree, i: nat,
                                    g: nat, a: Alloc, b: Alloc)
    requires t.Branch? && i < |t.kids| && Stored(m, t) && Apart(t, a) && Clean(t, a)
    requires Wrote(m, d, m1, d1, {Touch(t.id, t.gen, g, a).0})
    requires Wrote(m1, d1, m2, d2, w1) && Permitted(m1, w1, t.kids[i], Touch(t.id, t.gen, g, a).1, g)
    requires Wrote(m2, d2, m3, d3, w2)
    requires Later(Touch(t.id, t.gen, g, a).1, b)
    requires forall p :: p in w2 && p != Touch(t.id, t.gen, g, a).0 ==> !Taken(b, p)
    ensures var w := {Touch(t.id, t.gen, g, a).0} + w1 + w2; Wrote(m, d, m3, d3, w) && Permitted(m, w, t, a, g)
  {
    var id := Touch(t.id, t.gen, g, a).0;
    TouchPermitted(m, t, g, a);
    LaterTouch(t.id, t.gen, g, a);
    PermittedKid(m, m1, w1, t, i, a, g);
    PermittedLater(m, w2, id, t, g, a, b);
    WroteTwice(m, d, m1, d1, {id}, m2, d2, w1);
    WroteTwice(m, d, m2, d2, {id} + w1, m3, d3, w2);
  }

  /** The same for a leaf. */
  lemma {:induction false} LeafBack(m: Store, d: set<PageID>, m1: Store, d1: set<PageID>, m2: Store, d2: set<PageID>,
                                    w: set<PageID>, t: Tree, g: nat, a: Alloc)
    requires Stored(m, t) && Apart(t, a)
    requires Wrote(m, d, m1, d1, {Touch(t.id, t.gen, g, a).0}) && Wrote(m1, d1, m2, d2, w)
    requires forall p :: p in w && p != Touch(t.id, t.gen, g, a).0 ==> !Taken(Touch(t.id, t.gen, g, a).1, p)
    ensures var w' := {Touch(t.id, t.gen, g, a).0} + w; Wrote(m, d, m2, d2, w') && Permitted(m, w', t, a, g)
  {
    var (id, a1) := Touch(t.id, t.gen, g, a);
    TouchPermitted(m, t, g, a);
    LaterTouch(t.id, t.gen, g, a);
    PermittedLater(m, w, id, t, g, a, a1);
    WroteTwice(m, d, m1, d1, {id}, m2, d2, w);
  }

  // ---------------------------------------------------------------- joining two children

  /** A touched node is on its own page, which `g` wrote, or on one the allocator had to offer. */
  lemma {:induction false} TouchSource(id: PageID, gen: nat, g: nat, a: Alloc)
    ensures var p := Touch(id, gen, g, a).0; (p == id && gen == g) || !Taken(a, p)
  {
  }

  lemma {:induction false} OfferedAbsent(t: Tree, a: Alloc, p: PageID)
    requires Apart(t, a) && !Taken(a, p)
    ensures Count(t, p) == 0
  {
  }

  /** The pages the two neighbours are rewritten on. */
  function JoinIds(t: Tree, l: nat, g: nat, a: Alloc): (PageID, PageID)
    requires t.Branch? && l + 1 < |t.kids|
  {
    var (lid, a1) := Touch(t.kids[l].id, t.kids[l].gen, g, a);
    (lid, Touch(t.kids[l + 1].id, t.kids[l + 1].gen, g, a1).0)
  }

  lemma {:induction false} JoinIdsSource(t: Tree, l: nat, g: nat, a: Alloc)
    requires t.Branch? && l + 1 < |t.kids| && Apart(t, a)
    ensures var (lid, rid) := JoinIds(t, l, g, a);
            && ((lid == t.kids[l].id && t.kids[l].gen == g) || (!Taken(a, lid) && Count(t, lid) == 0))
            && ((rid == t.kids[l + 1].id && t.kids[l + 1].gen == g) || (!Taken(a, rid) && Count(t, rid) == 0))
  {
    var left, right := t.kids[l], t.kids[l + 1];
    var (lid, a1) := Touch(left.id, left.gen, g, a);
    var rid := Touch(right.id, right.gen, g, a1).0;
    TouchSource(left.id, left.gen, g, a);
    TouchSource(right.id, right.gen, g, a1);
    LaterTouch(left.id, left.gen, g, a);
    if !Taken(a, lid) {
      OfferedAbsent(t, a, lid);
    }
    if !Taken(a, rid) {
      OfferedAbsent(t, a, rid);
    }
  }

  lemma {:induction false} JoinIdsDistinct(t: Tree, l: nat, g: nat, a: Alloc)
    requires t.Branch? && l + 1 < |t.kids| && Apart(t, a) && Clean(t, a)
    ensures var (lid, rid) := JoinIds(t, l, g, a);
            lid != rid && lid != t.id && rid != t.id && lid != t.kids[l + 1].id
  {
    var left, right := t.kids[l], t.kids[l + 1];
    var (lid, a1) := Touch(left.id, left.gen, g, a);
    JoinIdsSource(t, l, g, a);
    assert Count(left, left.id) >= 1 && Count(right, right.id) >= 1 && Count(t, t.id) >= 1;
    CountTwoKids(t, l, l + 1, left.id);
    CountTwoKids(t, l, l + 1, right.id);
    NeighboursClean(t, l, g, a);
    TouchConserves(left.id, left.gen, g, a, lid);
    TouchSource(right.id, right.gen, g, a1);
  }

  /** Pages of `t` other than the three rewritten nodes keep their contents. */
  ghost predicate Elsewhere(t: Tree, l: nat, p: PageID)
    requires t.Branch? && l + 1 < |t.kids|
  {
    Count(t, p) >= 1 && p != t.id && p != t.kids[l].id && p != t.kids[l + 1].id
  }

  lemma {:induction false} KidElsewhere(t: Tree, l: nat, a: Alloc, j: nat, p: PageID)
    requires t.Branch? && l + 1 < |t.kids| && Apart(t, a) && j < |t.kids| && j != l && j != l + 1
    requires Count(t.kids[j], p) >= 1
    ensures Elsewhere(t, l, p)
  {
    CountKid(t, j, p);
    forall k | k == l || k == l + 1
      ensures p != t.kids[k].id
    {
      assert Count(t.kids[k], t.kids[k].id) >= 1;
      if j < k {
        CountTwoKids(t, j, k, p);
      } else {
        CountTwoKids(t, k, j, p);
      }
    }
  }

  lemma {:induction false} GrandkidElsewhere(t: Tree, l: nat, a: Alloc, k: nat, j: nat, p: PageID)
    requires t.Branch? && l + 1 < |t.kids| && Apart(t, a) && (k == l || k == l + 1)
    requires t.kids[k].Branch? && j < |t.kids[k].kids| && Count(t.kids[k].kids[j], p) >= 1
    ensures Elsewhere(t, l, p)
  {
    CountKid(t.kids[k], j, p);
    CountKid(t, k, p);
    assert Count(t.kids[l], t.kids[l].id) >= 1 && Count(t.kids[l + 1], t.kids[l + 1].id) >= 1;
    CountTwoKids(t, l, l + 1, p);
  }

  lemma {:induction false} StoredJoinFrame(m: Store, m': Store, t: Tree, l: nat, g: nat, a: Alloc, u: Tree)
    requires t.Branch? && l + 1 < |t.kids| && Apart(t, a) && m.Keys <= m'.Keys
    requires var (lid, rid) := JoinIds(t, l, g, a);
             forall p :: p in m && p != t.id && p != lid && p != rid ==> m'[p] == m[p]
    requires Stored(m, u) && forall p :: Count(u, p) >= 1 ==> Elsewhere(t, l, p)
    ensures Stored(m', u)
  {
    JoinIdsSource(t, l, g, a);
    forall p | Count(u, p) >= 1
      ensures p in m' && (p in m ==> m'[p] == m[p])
    {
      StoredIn(m, u, p);
    }
    StoredFrame(m, m', u);
  }

  /** After the three pages are written, all other children and grandchildren are still stored. */
  lemma {:induction false} JoinKidsKept(m: Store, m': Store, t: Tree, l: nat, g: nat, a: Alloc)
    requires t.Branch? && l + 1 < |t.kids| && Apart(t, a) && KidsStored(m, t) && m.Keys <= m'.Keys
    requires var (lid, rid) := JoinIds(t, l, g, a);
             forall p :: p in m && p != t.id && p != lid && p != rid ==> m'[p] == m[p]
    ensures forall j :: 0 <= j < |t.kids| && j != l && j != l + 1 ==> Stored(m', t.kids[j])
    ensures KidsStored(m', t.kids[l]) && KidsStored(m', t.kids[l + 1])
  {
    forall j | 0 <= j < |t.kids| && j != l && j != l + 1
      ensures Stored(m', t.kids[j])
    {
      forall p | Count(t.kids[j], p) >= 1
        ensures Elsewhere(t, l, p)
      {
        KidElsewhere(t, l, a, j, p);
      }
      StoredJoinFrame(m, m', t, l, g, a, t.kids[j]);
    }
    forall k, j | (k == l || k == l + 1) && t.kids[k].Branch? && 0 <= j < |t.kids[k].kids|
      ensures Stored(m', t.kids[k].kids[j])
    {
      forall p | Count(t.kids[k].kids[j], p) >= 1
        ensures Elsewhere(t, l, p)
      {
        GrandkidElsewhere(t, l, a, k, j, p);
      }
      assert Stored(m, t.kids[k]);
      StoredJoinFrame(m, m', t, l, g, a, t.kids[k].kids[j]);
    }
  }

  /** The joined node is stored once its three pages are. */
  lemma {:induction false} JoinStored(m: Store, m': Store, t: Tree, l: nat, g: nat, a: Alloc, h: nat)
    requires Balanced(t, h) && t.Branch? && l + 1 < |t.kids| && Apart(t, a) && KidsStored(m, t) && m.Keys <= m'.Keys
    requires Join(t, l, g, a, h).Done?
    requires var (lid, rid) := JoinIds(t, l, g, a);
             var n := Join(t, l, g, a, h).t;
             && (forall p :: p in m && p != t.id && p != lid && p != rid ==> m'[p] == m[p])
             && t.id in m' && m'[t.id] == NodeOf(n)
             && lid in m' && m'[lid] == NodeOf(n.kids[l])
             && (|n.kids| == |t.kids| ==> rid in m' && m'[rid] == NodeOf(n.kids[l + 1]))
    ensures Stored(m', Join(t, l, g, a, h).t)
  {
    var n := Join(t, l, g, a, h).t;
    var left, right := t.kids[l], t.kids[l + 1];
    assert Balanced(left, h - 1) && Balanced(right, h - 1);
    JoinKidsKept(m, m', t, l, g, a);
    assert Stored(m', n.kids[l]);
    forall j | 0 <= j < |n.kids|
      ensures Stored(m', n.kids[j])
    {
      if j > l && |n.kids| < |t.kids| {
        assert n.kids[j] == t.kids[j + 1];
      }
    }
  }

  /** The edits of the merge step on the parent's page and the pages of two neighbours. */
  datatype Joined =
    | Merged(parent: Node, left: Node)
    | Evened(parent: Node, left: Node, right: Node)
    | OutOfRange

  predicate Siblings(p: Node, l: nat, left: Node, right: Node) {
    && p.InternalNode? && |p.children| == |p.keys| + 1 && l + 1 < |p.children|
    && (if left.LeafNode? then right.LeafNode? && |right.ptrs| == |right.keys|
        else right.InternalNode? && |right.children| == |right.keys| + 1)
  }

  function JoinPages(p: Node, l: nat, left: Node, right: Node, lid: PageID, rid: PageID, g: nat): Joined
    requires Siblings(p, l, left, right)
  {
    var fused := InternalNode(g, RemoveAt(p.keys, l), p.children[..l] + [lid] + p.children[l + 2..]);
    if left.LeafNode? then
      if |left.keys| + |right.keys| <= 20 then
        Merged(fused, LeafNode(g, left.keys + right.keys, left.ptrs + right.ptrs, right.right))
      else if |right.keys| < 2 then OutOfRange
      else
        Evened(InternalNode(g, p.keys[l := right.keys[1]], p.children[l := lid][l + 1 := rid]),
               LeafNode(g, left.keys + [right.keys[0]], left.ptrs + [right.ptrs[0]], left.right),
               LeafNode(g, right.keys[1..], right.ptrs[1..], right.right))
    else
      if |left.keys| + |right.keys| + 1 <= 20 then
        Merged(fused, InternalNode(g, left.keys + [p.keys[l]] + right.keys, left.children + right.children))
      else if |right.keys| < 1 then OutOfRange
      else
        Evened(InternalNode(g, p.keys[l := right.keys[0]], p.children[l := lid][l + 1 := rid]),
               InternalNode(g, left.keys + [p.keys[l]], left.children + [right.children[0]]),
               InternalNode(g, right.keys[1..], right.children[1..]))
  }

  lemma {:induction false} SiblingPages(t: Tree, l: nat, h: nat)
    requires Balanced(t, h) && t.Branch? && l + 1 < |t.kids|
    ensures Siblings(NodeOf(t), l, NodeOf(t.kids[l]), NodeOf(t.kids[l + 1]))
  {
    assert Balanced(t.kids[l], h - 1) && Balanced(t.kids[l + 1], h - 1);
  }

  lemma {:induction false} IdsConcat(a: seq<Tree>, b: seq<Tree>)
    ensures Ids(a + b) == Ids(a) + Ids(b)
  {
  }

  /** On trees the same edits are what `Join` describes. */
  lemma {:induction false} JoinNodes(t: Tree, l: nat, g: nat, a: Alloc, h: nat)
    requires Balanced(t, h) && t.Branch? && t.gen == g && l + 1 < |t.kids|
    requires Siblings(NodeOf(t), l, NodeOf(t.kids[l]), NodeOf(t.kids[l + 1]))
    ensures var (lid, rid) := JoinIds(t, l, g, a);
            JoinMatches(t, l, Join(t, l, g, a, h),
                        JoinPages(NodeOf(t), l, NodeOf(t.kids[l]), NodeOf(t.kids[l + 1]), lid, rid, g))
  {
    if t.kids[l].Leaf? {
      JoinLeafNodes(t, l, g, a, h);
    } else {
      JoinBranchNodes(t, l, g, a, h);
    }
  }

  /** What the merge step may rely on before it writes. */
  lemma {:induction false} JoinReady(t: Tree, l: nat, g: nat, a: Alloc, h: nat)
    requires Balanced(t, h) && t.Branch? && t.gen == g && l + 1 < |t.kids| && Apart(t, a) && Clean(t, a)
    ensures Siblings(NodeOf(t), l, NodeOf(t.kids[l]), NodeOf(t.kids[l + 1]))
    ensures var (lid, rid) := JoinIds(t, l, g, a);
            && lid != rid && lid != t.id && rid != t.id
            && JoinMatches(t, l, Join(t, l, g, a, h),
                           JoinPages(NodeOf(t), l, NodeOf(t.kids[l]), NodeOf(t.kids[l + 1]), lid, rid, g))
  {
    SiblingPages(t, l, h);
    JoinNodes(t, l, g, a, h);
    JoinIdsDistinct(t, l, g, a);
  }

  /** The children of a parent with two neighbours replaced by one, and by two. */
  lemma {:induction false} ReplacedIds(t: Tree, l: nat, c: Tree, sep: Key, d: Tree)
    requires t.Branch? && |t.kids| == |t.keys| + 1 && l + 1 < |t.kids|
    ensures Ids(Fuse(t, l, c).kids) == Ids(t.kids)[..l] + [c.id] + Ids(t.kids)[l + 2..]
    ensures Ids(Pair(t, l, c, sep, d).kids) == Ids(t.kids)[l := c.id][l + 1 := d.id]
  {
  }

  ghost predicate JoinMatches(t: Tree, l: nat, r: Shrunk, j: Joined)
    requires t.Branch?
  {
    match r
    case Missing(_) => false
    case Panic => j.OutOfRange?
    case Done(n, _) =>
      && n.Branch? && l < |n.kids| && n.id == t.id && !j.OutOfRange? && NodeOf(n) == j.parent
      && NodeOf(n.kids[l]) == j.left
      && (if j.Merged? then |n.kids| + 1 == |t.kids|
          else |n.kids| == |t.kids| && l + 1 < |n.kids| && NodeOf(n.kids[l + 1]) == j.right)
  }

  lemma {:induction false} JoinLeafNodes(t: Tree, l: nat, g: nat, a: Alloc, h: nat)
    requires Balanced(t, h) && t.Branch? && t.gen == g && l + 1 < |t.kids| && t.kids[l].Leaf?
    requires Siblings(NodeOf(t), l, NodeOf(t.kids[l]), NodeOf(t.kids[l + 1]))
    ensures var (lid, rid) := JoinIds(t, l, g, a);
            JoinMatches(t, l, Join(t, l, g, a, h),
                        JoinPages(NodeOf(t), l, NodeOf(t.kids[l]), NodeOf(t.kids[l + 1]), lid, rid, g))
  {
    var left, right := t.kids[l], t.kids[l + 1];
    assert Balanced(right, h - 1);
    var r := Join(t, l, g, a, h);
    if r.Done? {
      ReplacedIds(t, l, r.t.kids[l], [], if |r.t.kids| > l + 1 then r.t.kids[l + 1] else left);
    }
  }

  lemma {:induction false} JoinBranchNodes(t: Tree, l: nat, g: nat, a: Alloc, h: nat)
    requires Balanced(t, h) && t.Branch? && t.gen == g && l + 1 < |t.kids| && t.kids[l].Branch?
    requires Siblings(NodeOf(t), l, NodeOf(t.kids[l]), NodeOf(t.kids[l + 1]))
    ensures var (lid, rid) := JoinIds(t, l, g, a);
            JoinMatches(t, l, Join(t, l, g, a, h),
                        JoinPages(NodeOf(t), l, NodeOf(t.kids[l]), NodeOf(t.kids[l + 1]), lid, rid, g))
  {
    var left, right := t.kids[l], t.kids[l + 1];
    assert Balanced(right, h - 1);
    var r := Join(t, l, g, a, h);
    if r.Done? {
      ReplacedIds(t, l, r.t.kids[l], if |right.keys| > 0 then right.keys[0] else [],
                  if |r.t.kids| > l + 1 then r.t.kids[l + 1] else left);
      IdsConcat(left.kids, right.kids);
      IdsConcat(left.kids, [right.kids[0]]);
    }
  }

  /** Writes to two children, to be finished in their parent: each page is new, or one that `g` wrote. */
  ghost predicate KidWrites(w: set<PageID>, t: Tree, a: Alloc, g: nat)
    requires t.Branch?
  {
    forall p :: p in w && p != t.id ==>
      !Taken(a, p) || exists j :: 0 <= j < |t.kids| && t.kids[j].id == p && t.kids[j].gen == g
  }

  lemma {:induction false} KidPage(m: Store, t: Tree, j: nat)
    requires t.Branch? && j < |t.kids| && Stored(m, t)
    ensures var c := t.kids[j]; Count(t, c.id) >= 1 && c.id in m && m[c.id].gen == c.gen
  {
    var c := t.kids[j];
    assert Count(c, c.id) >= 1;
    CountKid(t, j, c.id);
    assert Stored(m, c);
  }

  lemma {:induction false} JoinWrites(t: Tree, l: nat, g: nat, a: Alloc)
    requires t.Branch? && l + 1 < |t.kids| && Apart(t, a)
    ensures KidWrites({t.id, JoinIds(t, l, g, a).0, JoinIds(t, l, g, a).1}, t, a, g)
  {
    JoinIdsSource(t, l, g, a);
  }

  /** Coming back from a deletion: as `ComeBack`, with the writes of the rebalancing. */
  lemma {:induction false} ComeBackJoined(m: Store, d: set<PageID>, m1: Store, d1: set<PageID>, m2: Store,
                                          d2: set<PageID>, w1: set<PageID>, m3: Store, d3: set<PageID>,
                                          w2: set<PageID>, t: Tree, i: nat, g: nat, a: Alloc, b: Alloc, c: Tree,
                                          n: Tree)
    requires t.Branch? && i < |t.kids| && Stored(m, t) && Apart(t, a) && Clean(t, a)
    requires Wrote(m, d, m1, d1, {Touch(t.id, t.gen, g, a).0})
    requires Wrote(m1, d1, m2, d2, w1) && Permitted(m1, w1, t.kids[i], Touch(t.id, t.gen, g, a).1, g)
    requires Wrote(m2, d2, m3, d3, w2) && Later(Touch(t.id, t.gen, g, a).1, b)
    requires n == Branch(Touch(t.id, t.gen, g, a).0, g, t.keys, t.kids[i := c]) && KidWrites(w2, n, b, g) && c.id in w1
    ensures var w := {Touch(t.id, t.gen, g, a).0} + w1 + w2; Wrote(m, d, m3, d3, w) && Permitted(m, w, t, a, g)
  {
    var id := n.id;
    TouchPermitted(m, t, g, a);
    LaterTouch(t.id, t.gen, g, a);
    PermittedKid(m, m1, w1, t, i, a, g);
    forall p | p in w2 && Taken(a, p)
      ensures Count(t, p) >= 1 && p in m && m[p].gen == g
    {
      if p == id {
        assert p in {id};
      } else {
        var j :| 0 <= j < |n.kids| && n.kids[j].id == p && n.kids[j].gen == g;
        if j != i {
          KidPage(m, t, j);
        }
      }
    }
    WroteTwice(m, d, m1, d1, {id}, m2, d2, w1);
    WroteTwice(m, d, m2, d2, {id} + w1, m3, d3, w2);
  }

  /** Pages written before may be counted among the writes again. */
  lemma {:induction false} WroteAlso(m: Store, d: set<PageID>, m': Store, d': set<PageID>, w: set<PageID>, p: PageID)
    requires Wrote(m, d, m', d', w) && p in m && p in d
    ensures Wrote(m, d, m', d', w + {p})
  {
  }

  /** All writes of a join together. */
  lemma {:induction false} FinishJoin(m: Store, d: set<PageID>, m1: Store, d1: set<PageID>, m2: Store, d2: set<PageID>,
                                      t: Tree, l: nat, g: nat, a: Alloc, h: nat)
    requires Balanced(t, h) && t.Branch? && l + 1 < |t.kids| && Apart(t, a) && KidsStored(m, t)
    requires Join(t, l, g, a, h).Done?
    requires var (lid, rid) := JoinIds(t, l, g, a);
             var n := Join(t, l, g, a, h).t;
             && Wrote(m, d, m1, d1, {lid, rid}) && Wrote(m1, d1, m2, d2, {t.id, lid, rid})
             && m2[t.id] == NodeOf(n) && l < |n.kids| && m2[lid] == NodeOf(n.kids[l])
             && (|n.kids| == |t.kids| ==> m2[rid] == NodeOf(n.kids[l + 1]))
    ensures var (lid, rid) := JoinIds(t, l, g, a);
            Wrote(m, d, m2, d2, {t.id, lid, rid}) && KidWrites({t.id, lid, rid}, t, a, g)
    ensures Stored(m2, Join(t, l, g, a, h).t)
  {
    var (lid, rid) := JoinIds(t, l, g, a);
    JoinWrites(t, l, g, a);
    WroteTwice(m, d, m1, d1, {lid, rid}, m2, d2, {t.id, lid, rid});
    assert {lid, rid} + {t.id, lid, rid} == {t.id, lid, rid};
    JoinStored(m, m2, t, l, g, a, h);
  }

  // ---------------------------------------------------------------- deletion

  lemma {:induction false} LaterJoin(t: Tree, l: nat, g: nat, a: Alloc, h: nat)
    requires Balanced(t, h) && t.Branch? && l + 1 < |t.kids| && Join(t, l, g, a, h).Done?
    ensures Later(a, Join(t, l, g, a, h).a)
  {
    var left, right := t.kids[l], t.kids[l + 1];
    var (lid, a1) := Touch(left.id, left.gen, g, a);
    LaterTouch(left.id, left.gen, g, a);
    LaterTouch(right.id, right.gen, g, a1);
  }

  lemma {:induction false} LaterDelete(cmp: Cmp, t: Tree, key: Key, g: nat, a: Alloc, h: nat)
    requires Balanced(t, h) && !Delete(cmp, t, key, g, a, h).Panic?
    ensures Later(a, Delete(cmp, t, key, g, a, h).a)
    decreases t
  {
    var (id, a1) := Touch(t.id, t.gen, g, a);
    LaterTouch(t.id, t.gen, g, a);
    if t.Branch? {
      var i := UpperBound(cmp, t.keys, key);
      LaterDelete(cmp, t.kids[i], key, g, a1, h - 1);
      var child := Delete(cmp, t.kids[i], key, g, a1, h - 1);
      if child.Done? {
        var n := Moved(t, id, g).(kids := t.kids[i := child.t]);
        if |n.kids[i].keys| < 2 && |n.kids| > 1 {
          LaterJoin(n, if i > 0 then i - 1 else i, g, child.a, h);
        }
      }
    }
  }

  lemma {:induction false} DeleteDescendApart(cmp: Cmp, t: Tree, i: nat, key: Key, g: nat, a: Alloc, h: nat)
    requires t.Branch? && i < |t.kids| && Balanced(t, h) && WellShaped(t) && Apart(t, a) && Clean(t, a)
    requires Delete(cmp, t.kids[i], key, g, Touch(t.id, t.gen, g, a).1, h - 1).Done?
    ensures var (id, a1) := Touch(t.id, t.gen, g, a);
            var child := Delete(cmp, t.kids[i], key, g, a1, h - 1);
            var n := Branch(id, g, t.keys, t.kids[i := child.t]);
            Apart(n, child.a) && Clean(n, child.a) && NotBelow(n, id)
  {
    var (id, a1) := Touch(t.id, t.gen, g, a);
    var child := Delete(cmp, t.kids[i], key, g, a1, h - 1);
    KidClean(t, i, g, a);
    forall p: PageID
      ensures Conserves(Count(t.kids[i], p), a1, GrownCount(One(child.t, child.a), p), child.a, p)
    {
      DeleteConserves(cmp, t.kids[i], key, g, a1, h - 1, p);
    }
    DescendApart(t, i, g, a, One(child.t, child.a));
    assert Count(Branch(id, g, t.keys, t.kids[i := child.t]), id) <= 1;
  }

  /** Every page the allocator could not hand out is as it was. */
  ghost predicate TakenKept(m: Store, m': Store, a: Alloc) {
    forall p :: p in m && Taken(a, p) ==> p in m' && m'[p] == m[p]
  }

  lemma {:induction false} StoredTakenKept(m: Store, m': Store, t: Tree, a: Alloc)
    requires Stored(m, t) && Apart(t, a) && TakenKept(m, m', a)
    ensures Stored(m', t)
  {
    forall p | Count(t, p) >= 1
      ensures p in m' && (p in m ==> m'[p] == m[p])
    {
      StoredIn(m, t, p);
      if !Taken(a, p) {
        OfferedAbsent(t, a, p);
      }
    }
    StoredFrame(m, m', t);
  }

  /** A miss below a child writes only new pages. */
  lemma {:induction false} MissUp(m: Store, m1: Store, m2: Store, t: Tree, g: nat, a: Alloc)
    requires TakenKept(m, m1, a) && TakenKept(m1, m2, Touch(t.id, t.gen, g, a).1)
    ensures TakenKept(m, m2, a)
  {
    forall p | p in m && Taken(a, p)
      ensures p in m2 && m2[p] == m[p]
    {
      TouchTaken(t.id, t.gen, g, a, p);
    }
  }

  lemma {:induction false} ReplaceKidNode(t: Tree, i: nat, c: Tree, id: PageID, g: nat)
    requires t.Branch? && i < |t.kids|
    ensures NodeOf(Branch(id, g, t.keys, t.kids[i := c])) == InternalNode(g, t.keys, Ids(t.kids)[i := c.id])
  {
  }

  /** What a deletion makes of a branch, given what it made of the child. */
  ghost predicate BranchDeletes(t: Tree, i: nat, g: nat, a: Alloc, h: nat, child: Shrunk, r: Shrunk)
    requires t.Branch? && i < |t.kids|
  {
    var (id, a1) := Touch(t.id, t.gen, g, a);
    match child
    case Missing(a2) => r == Missing(a2)
    case Panic => r == Panic
    case Done(c, a2) =>
      var n := Branch(id, g, t.keys, t.kids[i := c]);
      && Balanced(n, h) && Apart(n, a2) && Clean(n, a2) && NotBelow(n, id) && Later(a1, a2)
      && r == Rebalance(n, i, g, a2, h)
  }

  lemma {:induction false} DeleteBranch(cmp: Cmp, t: Tree, key: Key, g: nat, a: Alloc, h: nat)
    requires Balanced(t, h) && t.Branch? && WellShaped(t) && Apart(t, a) && Clean(t, a)
    ensures var i := UpperBound(cmp, t.keys, key);
            BranchDeletes(t, i, g, a, h, Delete(cmp, t.kids[i], key, g, Touch(t.id, t.gen, g, a).1, h - 1),
                          Delete(cmp, t, key, g, a, h))
  {
    var i := UpperBound(cmp, t.keys, key);
    var a1 := Touch(t.id, t.gen, g, a).1;
    var child := Delete(cmp, t.kids[i], key, g, a1, h - 1);
    if child.Done? {
      DeleteDescendApart(cmp, t, i, key, g, a, h);
      LaterDelete(cmp, t.kids[i], key, g, a1, h - 1);
    }
  }
}
