/**
 The chain of leaves that range scans follow, and when an insertion or a deletion keeps it.
 */
module TreeChain {
  import opened KeyOrder
  import opened PageFormat
  import opened CowTree
  import opened TreePages
  import opened PageStore

  function FirstLeaf(t: Tree): PageID
    requires WellShaped(t)
    decreases t
  {
    if t.Leaf? then t.id else FirstLeaf(t.kids[0])
  }

  predicate AllShaped(kids: seq<Tree>) {
    forall i :: 0 <= i < |kids| ==> WellShaped(kids[i])
  }

  /** The first leaf of a row of trees, or `next` if there is none. */
  function FirstOf(kids: seq<Tree>, next: PageID): PageID
    requires AllShaped(kids)
  {
    if kids == [] then next else FirstLeaf(kids[0])
  }

  /** Each leaf of `t` names the next one as its right sibling, and the last one names `next`. */
  ghost predicate Chained(t: Tree, next: PageID)
    requires WellShaped(t)
    decreases t
  {
    if t.Leaf? then t.right == next else ChainedRow(t.kids, next)
  }

  /** The same for a row of trees. */
  ghost predicate ChainedRow(kids: seq<Tree>, next: PageID)
    requires AllShaped(kids)
    decreases kids
  {
    kids == [] || (Chained(kids[0], FirstOf(kids[1..], next)) && ChainedRow(kids[1..], next))
  }

  lemma {:induction false} RowConcat(a: seq<Tree>, b: seq<Tree>, next: PageID)
    requires AllShaped(a) && AllShaped(b)
    ensures AllShaped(a + b) && FirstOf(a + b, next) == FirstOf(a, FirstOf(b, next))
    ensures ChainedRow(a + b, next) <==> ChainedRow(a, FirstOf(b, next)) && ChainedRow(b, next)
  {
    if a == [] {
      assert a + b == b;
    } else {
      RowConcat(a[1..], b, next);
      assert (a + b)[1..] == a[1..] + b;
    }
  }

  lemma {:induction false} RowOne(t: Tree, next: PageID)
    requires WellShaped(t)
    ensures AllShaped([t]) && FirstOf([t], next) == FirstLeaf(t)
    ensures ChainedRow([t], next) <==> Chained(t, next)
  {
    assert [t][1..] == [];
  }

  /** What follows a tree is determined by its last leaf. */
  lemma {:induction false} ChainedUnique(t: Tree, next: PageID, next': PageID)
    requires WellShaped(t) && Chained(t, next) && Chained(t, next')
    ensures next == next'
    decreases t
  {
    if t.Branch? {
      RowUnique(t.kids, next, next');
    }
  }

  lemma {:induction false} RowUnique(kids: seq<Tree>, next: PageID, next': PageID)
    requires kids != [] && AllShaped(kids) && ChainedRow(kids, next) && ChainedRow(kids, next')
    ensures next == next'
    decreases kids
  {
    if |kids| == 1 {
      ChainedUnique(kids[0], next, next');
    } else {
      RowUnique(kids[1..], next, next');
    }
  }

  // ---------------------------------------------------------------- the leaf an insertion reaches

  function PathLeaf(cmp: Cmp, t: Tree, key: Key): Tree
    requires WellShaped(t)
    decreases t
  {
    if t.Leaf? then t else PathLeaf(cmp, t.kids[UpperBound(cmp, t.keys, key)], key)
  }

  /** The path to `key` leads to the first leaf. */
  predicate Leftmost(cmp: Cmp, t: Tree, key: Key)
    requires WellShaped(t)
    decreases t
  {
    t.Leaf? || (UpperBound(cmp, t.keys, key) == 0 && Leftmost(cmp, t.kids[0], key))
  }

  /** The leaf is copied to another page. */
  predicate Copies(cmp: Cmp, t: Tree, key: Key, g: nat)
    requires WellShaped(t)
  {
    PathLeaf(cmp, t, key).gen != g
  }

  ghost predicate GrownShaped(r: Grown) {
    WellShaped(r.t) && (r.Two? ==> WellShaped(r.rest))
  }

  ghost predicate GrownChained(r: Grown, next: PageID)
    requires GrownShaped(r)
  {
    if r.One? then Chained(r.t, next) else Chained(r.t, FirstLeaf(r.rest)) && Chained(r.rest, next)
  }

  // ---------------------------------------------------------------- insertion

  /** Splitting a node keeps the chain as it is. */
  lemma {:induction false} SettleChain(t: Tree, g: nat, a: Alloc, next: PageID)
    requires |t.keys| > 0 || Fits(t.Leaf?, t.keys)
    requires WellShaped(t)
    ensures GrownShaped(Settle(t, g, a)) && FirstLeaf(Settle(t, g, a).t) == FirstLeaf(t)
    ensures GrownChained(Settle(t, g, a), next) <==> Chained(t, next)
  {
    var r := Settle(t, g, a);
    if r.Two? && t.Branch? {
      assert t.kids == r.t.kids + r.rest.kids;
      RowConcat(r.t.kids, r.rest.kids, next);
    }
  }

  /** The row that stands for what an insertion made of a child. */
  function Row(child: Grown): seq<Tree> {
    if child.One? then [child.t] else [child.t, child.rest]
  }

  lemma {:induction false} RowChained(child: Grown, next: PageID)
    requires GrownShaped(child)
    ensures AllShaped(Row(child)) && FirstOf(Row(child), next) == FirstLeaf(child.t)
    ensures ChainedRow(Row(child), next) <==> GrownChained(child, next)
  {
    RowOne(child.t, next);
    if child.Two? {
      RowOne(child.rest, next);
      RowOne(child.t, FirstLeaf(child.rest));
      assert Row(child) == [child.t] + [child.rest];
      RowConcat([child.t], [child.rest], next);
    }
  }

  /** The first part of the row around child `i`, the child, and the rest. */
  lemma {:induction false} RowAround(kids: seq<Tree>, i: nat, mid: seq<Tree>, next: PageID)
    requires AllShaped(kids) && i < |kids| && AllShaped(mid) && mid != []
    ensures var all := kids[..i] + mid + kids[i + 1..];
            var after := FirstOf(kids[i + 1..], next);
            && AllShaped(all) && FirstOf(all, next) == (if i == 0 then FirstLeaf(mid[0]) else FirstLeaf(kids[0]))
            && (ChainedRow(all, next) <==>
                ChainedRow(kids[..i], FirstLeaf(mid[0])) && ChainedRow(mid, after) && ChainedRow(kids[i + 1..], next))
  {
    RowConcat(kids[..i] + mid, kids[i + 1..], next);
    RowConcat(kids[..i], mid, FirstOf(kids[i + 1..], next));
  }

  lemma {:induction false} BranchPutChain(t: Tree, i: nat, child: Grown, next: PageID)
    requires t.Branch? && WellShaped(t) && i < |t.kids| && Chained(t, next) && GrownShaped(child)
    ensures var n, after := BranchPut(t, i, child), FirstOf(t.kids[i + 1..], next);
            && WellShaped(n) && Chained(t.kids[i], after)
            && FirstLeaf(n) == (if i == 0 then FirstLeaf(child.t) else FirstLeaf(t))
            && (Chained(n, next) <==>
                && GrownChained(child, after)
                && (i > 0 ==> FirstLeaf(child.t) == FirstLeaf(t.kids[i])))
  {
    var n, after := BranchPut(t, i, child), FirstOf(t.kids[i + 1..], next);
    RowAround(t.kids, i, [t.kids[i]], next);
    assert t.kids[..i] + [t.kids[i]] + t.kids[i + 1..] == t.kids;
    RowOne(t.kids[i], after);
    RowChained(child, after);
    RowAround(t.kids, i, Row(child), next);
    assert n.kids == t.kids[..i] + Row(child) + t.kids[i + 1..];
    if i > 0 && ChainedRow(t.kids[..i], FirstLeaf(child.t)) {
      RowUnique(t.kids[..i], FirstLeaf(child.t), FirstLeaf(t.kids[i]));
    }
  }

  /**
   An insertion keeps the chain if and only if it does not copy a leaf other than the first: a copied
   leaf has a new page, and its left neighbour still names the old one.
   */
  lemma {:induction false} InsertChain(cmp: Cmp, t: Tree, key: Key, ptr: Pointer, g: nat, a: Alloc, next: PageID)
    requires WellShaped(t) && Chained(t, next) && Apart(t, a) && Clean(t, a)
    ensures GrownShaped(Insert(cmp, t, key, ptr, g, a))
    ensures GrownChained(Insert(cmp, t, key, ptr, g, a), next) <==> !Copies(cmp, t, key, g) || Leftmost(cmp, t, key)
    ensures FirstLeaf(Insert(cmp, t, key, ptr, g, a).t) == FirstLeaf(t) <==>
            !Copies(cmp, t, key, g) || !Leftmost(cmp, t, key)
    decreases t
  {
    var (id, a1) := Touch(t.id, t.gen, g, a);
    var n := Moved(t, id, g);
    if t.Leaf? {
      SettleChain(LeafPut(cmp, n, key, ptr), g, a1, next);
      if t.gen != g {
        AllocateApart(t, a);
      }
    } else {
      var i := UpperBound(cmp, t.keys, key);
      var after := FirstOf(t.kids[i + 1..], next);
      KidApart(t, i, g, a);
      KidClean(t, i, g, a);
      RowAround(t.kids, i, [t.kids[i]], next);
      assert t.kids[..i] + [t.kids[i]] + t.kids[i + 1..] == t.kids;
      RowOne(t.kids[i], after);
      InsertChain(cmp, t.kids[i], key, ptr, g, a1, after);
      var child := Insert(cmp, t.kids[i], key, ptr, g, a1);
      BranchPutChain(n, i, child, next);
      SettleChain(BranchPut(n, i, child), g, child.a, next);
    }
  }
}
