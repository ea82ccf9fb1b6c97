/**
 Copy-on-write B+ trees as values.

 A `Tree` is one named index: the nodes reachable from its root, each with the page it lives on
 and the generation that wrote it. The functions here follow `insertRecursive`,
 `deleteRecursive`, `handleUnderflow` and `mergeOrRedistribute`, with the page allocator
 threaded through in the order the source calls it. Class `PagedFile.DiskBPlusTree` performs
 the same operations on a page cache and is proved to compute these functions.
 */
module CowTree {
  import opened KeyOrder
  import opened PageFormat

  datatype Tree =
    | Leaf(id: PageID, gen: nat, keys: seq<Key>, ptrs: seq<Pointer>, right: PageID)
    | Branch(id: PageID, gen: nat, keys: seq<Key>, kids: seq<Tree>)

  /** Every key of a leaf has a pointer, and a branch has one more child than separators. */
  predicate WellShaped(t: Tree) {
    match t
    case Leaf(_, _, keys, ptrs, _) => |keys| == |ptrs|
    case Branch(_, _, keys, kids) => |kids| == |keys| + 1 && forall i :: 0 <= i < |kids| ==> WellShaped(kids[i])
  }

  /** All leaves of `t` lie `h` levels below its root. */
  predicate Balanced(t: Tree, h: nat) {
    match t
    case Leaf(_, _, keys, ptrs, _) => h == 0 && |keys| == |ptrs|
    case Branch(_, _, keys, kids) =>
      h > 0 && |kids| == |keys| + 1 && forall i :: 0 <= i < |kids| ==> Balanced(kids[i], h - 1)
  }

  lemma BalancedWellShaped(t: Tree, h: nat)
    requires Balanced(t, h)
    ensures WellShaped(t)
  {
  }

  // ---------------------------------------------------------------- allocator

  /** The free list, the first page never handed out, and the pages given up since the last commit. */
  datatype Alloc = Alloc(free: seq<PageID>, next: PageID, orphans: seq<PageID>)

  function Allocate(a: Alloc): (PageID, Alloc) {
    if |a.free| > 0 then (a.free[|a.free| - 1], a.(free := a.free[..|a.free| - 1]))
    else (a.next, a.(next := a.next + 1))
  }

  /** Pages 0 to 2 are the superblocks and the first catalog; they are never given up. */
  function Orphan(a: Alloc, p: PageID): Alloc {
    if p < 3 then a else a.(orphans := a.orphans + [p])
  }

  /** The page on which generation `g` may write a node: its own if `g` wrote it, else a new one. */
  function Touch(id: PageID, gen: nat, g: nat, a: Alloc): (PageID, Alloc) {
    if gen == g then (id, a)
    else
      var (p, a') := Allocate(a);
      (p, Orphan(a', id))
  }

  /** The node `t` as generation `g` writes it on page `id`. */
  function Moved(t: Tree, id: PageID, g: nat): Tree {
    match t
    case Leaf(_, _, keys, ptrs, right) => Leaf(id, g, keys, ptrs, right)
    case Branch(_, _, keys, kids) => Branch(id, g, keys, kids)
  }

  // ---------------------------------------------------------------- sequences

  function InsertAt<T>(s: seq<T>, i: nat, x: T): seq<T>
    requires i <= |s|
  {
    s[..i] + [x] + s[i..]
  }

  function RemoveAt<T>(s: seq<T>, i: nat): seq<T>
    requires i < |s|
  {
    s[..i] + s[i + 1..]
  }

  // ---------------------------------------------------------------- insert

  /** The outcome of an insertion below some node: one node, or two with a separator. */
  datatype Grown =
    | One(t: Tree, a: Alloc)
    | Two(t: Tree, sep: Key, rest: Tree, a: Alloc)

  /** Store `ptr` under `key` in a leaf, replacing an equal key. */
  function LeafPut(cmp: Cmp, t: Tree, key: Key, ptr: Pointer): Tree
    requires t.Leaf? && WellShaped(t)
  {
    var i := LowerBound(cmp, t.keys, key);
    if i < |t.keys| && t.keys[i] == key then t.(ptrs := t.ptrs[i := ptr])
    else t.(keys := InsertAt(t.keys, i, key), ptrs := InsertAt(t.ptrs, i, ptr))
  }

  /** Put back what an insertion made of child `i`. */
  function BranchPut(t: Tree, i: nat, child: Grown): Tree
    requires t.Branch? && WellShaped(t) && i < |t.kids|
  {
    match child
    case One(c, _) => t.(kids := t.kids[i := c])
    case Two(c, sep, rest, _) =>
      t.(keys := InsertAt(t.keys, i, sep), kids := t.kids[..i] + [c, rest] + t.kids[i + 1..])
  }

  /** Keep a node that fits; split by count one that does not. */
  function Settle(t: Tree, g: nat, a: Alloc): Grown
    requires |t.keys| > 0 || Fits(t.Leaf?, t.keys)
    requires t.Leaf? ==> |t.ptrs| == |t.keys|
    requires t.Branch? ==> |t.kids| == |t.keys| + 1
  {
    if Fits(t.Leaf?, t.keys) then One(t, a)
    else
      var mid := |t.keys| / 2;
      var (p, a') := Allocate(a);
      if t.Leaf? then
        Two(t.(keys := t.keys[..mid], ptrs := t.ptrs[..mid], right := p), t.keys[mid],
            Leaf(p, g, t.keys[mid..], t.ptrs[mid..], t.right), a')
      else
        Two(t.(keys := t.keys[..mid], kids := t.kids[..mid + 1]), t.keys[mid],
            Branch(p, g, t.keys[mid + 1..], t.kids[mid + 1..]), a')
  }

  function Insert(cmp: Cmp, t: Tree, key: Key, ptr: Pointer, g: nat, a: Alloc): Grown
    requires WellShaped(t)
    decreases t
  {
    var (id, a1) := Touch(t.id, t.gen, g, a);
    var n := Moved(t, id, g);
    if t.Leaf? then Settle(LeafPut(cmp, n, key, ptr), g, a1)
    else
      var i := UpperBound(cmp, t.keys, key);
      var child := Insert(cmp, t.kids[i], key, ptr, g, a1);
      Settle(BranchPut(n, i, child), g, child.a)
  }

  // ---------------------------------------------------------------- delete

  /** The outcome of a deletion below some node. `Panic` is the run-time index error of the borrow step. */
  datatype Shrunk =
    | Missing(a: Alloc)
    | Done(t: Tree, a: Alloc)
    | Panic

  /** Merge or rebalance children `l` and `l + 1`; entries only ever move to the left. */
  function Join(t: Tree, l: nat, g: nat, a: Alloc, ghost h: nat): (r: Shrunk)
    requires Balanced(t, h) && t.Branch? && l + 1 < |t.kids|
    ensures !r.Missing?
  {
    var left, right := t.kids[l], t.kids[l + 1];
    assert Balanced(left, h - 1) && Balanced(right, h - 1);
    var (lid, a1) := Touch(left.id, left.gen, g, a);
    var (rid, a2) := Touch(right.id, right.gen, g, a1);
    if left.Leaf? then
      if |left.keys| + |right.keys| <= 20 then
        var merged := Leaf(lid, g, left.keys + right.keys, left.ptrs + right.ptrs, right.right);
        Done(Fuse(t, l, merged), Orphan(a2, rid))
      else if |right.keys| < 2 then Panic
      else
        Done(Pair(t, l,
                  Leaf(lid, g, left.keys + [right.keys[0]], left.ptrs + [right.ptrs[0]], left.right),
                  right.keys[1],
                  Leaf(rid, g, right.keys[1..], right.ptrs[1..], right.right)), a2)
    else
      if |left.keys| + |right.keys| + 1 <= 20 then
        var merged := Branch(lid, g, left.keys + [t.keys[l]] + right.keys, left.kids + right.kids);
        Done(Fuse(t, l, merged), Orphan(a2, rid))
      else if |right.keys| < 1 then Panic
      else
        Done(Pair(t, l,
                  Branch(lid, g, left.keys + [t.keys[l]], left.kids + [right.kids[0]]),
                  right.keys[0],
                  Branch(rid, g, right.keys[1..], right.kids[1..])), a2)
  }

  /** Replace children `l` and `l + 1` by one child. */
  function Fuse(t: Tree, l: nat, c: Tree): Tree
    requires t.Branch? && |t.kids| == |t.keys| + 1 && l + 1 < |t.kids|
  {
    t.(keys := RemoveAt(t.keys, l), kids := t.kids[..l] + [c] + t.kids[l + 2..])
  }

  /** Replace children `l` and `l + 1` and the separator between them. */
  function Pair(t: Tree, l: nat, c: Tree, sep: Key, d: Tree): Tree
    requires t.Branch? && |t.kids| == |t.keys| + 1 && l + 1 < |t.kids|
  {
    t.(keys := t.keys[l := sep], kids := t.kids[..l] + [c, d] + t.kids[l + 2..])
  }

  /** After child `i` lost a key: join it with its left sibling, or failing that with its right one. */
  function Rebalance(t: Tree, i: nat, g: nat, a: Alloc, ghost h: nat): (r: Shrunk)
    requires Balanced(t, h) && t.Branch? && i < |t.kids|
    ensures !r.Missing?
  {
    if |t.kids[i].keys| >= 2 then Done(t, a)
    else if i > 0 then Join(t, i - 1, g, a, h)
    else if i + 1 < |t.kids| then Join(t, i, g, a, h)
    else Done(t, a)
  }

  function Delete(cmp: Cmp, t: Tree, key: Key, g: nat, a: Alloc, ghost h: nat): (r: Shrunk)
    requires Balanced(t, h)
    ensures r.Done? ==> Balanced(r.t, h)
    decreases t
  {
    var (id, a1) := Touch(t.id, t.gen, g, a);
    var n := Moved(t, id, g);
    if t.Leaf? then
      var i := LowerBound(cmp, t.keys, key);
      if i < |t.keys| && t.keys[i] == key then
        Done(n.(keys := RemoveAt(t.keys, i), ptrs := RemoveAt(t.ptrs, i)), a1)
      else Missing(a1)
    else
      var i := UpperBound(cmp, t.keys, key);
      match Delete(cmp, t.kids[i], key, g, a1, h - 1)
      case Missing(a2) => Missing(a2)
      case Panic => Panic
      case Done(c, a2) =>
        var n' := n.(kids := t.kids[i := c]);
        RebalanceBalanced(n', i, g, a2, h);
        Rebalance(n', i, g, a2, h)
  }

  lemma {:induction false} RebalanceBalanced(t: Tree, i: nat, g: nat, a: Alloc, h: nat)
    requires Balanced(t, h) && t.Branch? && i < |t.kids|
    ensures Rebalance(t, i, g, a, h).Done? ==> Balanced(Rebalance(t, i, g, a, h).t, h)
  {
    if |t.kids[i].keys| < 2 {
      if i > 0 {
        JoinBalanced(t, i - 1, g, a, h);
      } else if i + 1 < |t.kids| {
        JoinBalanced(t, i, g, a, h);
      }
    }
  }

  lemma {:induction false} JoinBalanced(t: Tree, l: nat, g: nat, a: Alloc, h: nat)
    requires Balanced(t, h) && t.Branch? && l + 1 < |t.kids|
    ensures Join(t, l, g, a, h).Done? ==> Balanced(Join(t, l, g, a, h).t, h)
  {
    assert Balanced(t.kids[l], h - 1) && Balanced(t.kids[l + 1], h - 1);
  }

  /** A deletion at a branch, in terms of the deletion at its child. */
  lemma {:induction false} DeleteAtBranch(cmp: Cmp, t: Tree, key: Key, g: nat, a: Alloc, h: nat)
    requires Balanced(t, h) && t.Branch?
    ensures var i := UpperBound(cmp, t.keys, key);
            var (id, a1) := Touch(t.id, t.gen, g, a);
            var r := Delete(cmp, t, key, g, a, h);
            match Delete(cmp, t.kids[i], key, g, a1, h - 1)
            case Missing(a2) => r == Missing(a2)
            case Panic => r == Panic
            case Done(c, a2) =>
              && Balanced(Branch(id, g, t.keys, t.kids[i := c]), h)
              && r == Rebalance(Branch(id, g, t.keys, t.kids[i := c]), i, g, a2, h)
  {
  }
}
