/**
 When a deletion keeps the chain of leaves, in trees of any generations. A leaf of an older generation moves to
 a new page when it is written, and only a merge with its left sibling writes the leaf that names it.
 */
module DeleteChains {
  import opened KeyOrder
  import opened PageFormat
  import opened CowTree
  import opened TreePages
  import opened PageStore
  import opened TreeChain

  /** Every page of the tree is out of the allocator's reach. */
  ghost predicate AllTaken(t: Tree, a: Alloc) {
    forall p :: Count(t, p) >= 1 ==> Taken(a, p)
  }

  lemma {:induction false} ApartTaken(t: Tree, a: Alloc)
    requires Apart(t, a)
    ensures AllTaken(t, a)
  {
  }

  /** The root page of `t` is out of reach, unless it is of the current generation. */
  ghost predicate Settled(t: Tree, g: nat, a: Alloc) {
    t.gen == g || Taken(a, t.id)
  }

  /** A node moves exactly if another generation writes it. */
  lemma {:induction false} TouchMoves(id: PageID, gen: nat, g: nat, a: Alloc)
    requires gen == g || Taken(a, id)
    ensures Touch(id, gen, g, a).0 == id <==> gen == g
    ensures forall p :: Taken(a, p) ==> Taken(Touch(id, gen, g, a).1, p)
  {
  }

  // ---------------------------------------------------------------- the condition

  /** Losing a key makes the leaf join a sibling. */
  predicate Underfull(t: Tree, i: nat)
    requires t.Branch? && i < |t.kids|
  {
    |t.kids[i].keys| < 3 && |t.kids| > 1
  }

  /** The leaf at `i` and its left sibling are too many for one leaf. */
  predicate TooMany(t: Tree, i: nat)
    requires t.Branch? && i + 1 < |t.kids|
  {
    |t.kids[i].keys| + |t.kids[i + 1].keys| - 1 > 20
  }

  /** The first leaf stays on its page. */
  predicate FirstStays(cmp: Cmp, t: Tree, key: Key, g: nat)
    requires WellShaped(t)
    decreases t
  {
    if t.Leaf? then t.gen == g
    else
      var i := UpperBound(cmp, t.keys, key);
      if t.kids[i].Branch? then i > 0 || FirstStays(cmp, t.kids[0], key, g)
      else if i == 0 || (i == 1 && Underfull(t, i)) then t.kids[0].gen == g
      else true
  }

  /** Every leaf that is written stays on its page, or is the first one, or merges into its left sibling. */
  predicate ChainStays(cmp: Cmp, t: Tree, key: Key, g: nat)
    requires WellShaped(t)
    decreases t
  {
    t.Branch? ==>
      var i := UpperBound(cmp, t.keys, key);
      if t.kids[i].Branch? then ChainStays(cmp, t.kids[i], key, g) && (i > 0 ==> FirstStays(cmp, t.kids[i], key, g))
      else if !Underfull(t, i) then i > 0 ==> t.kids[i].gen == g
      else if i > 0 then (i > 1 ==> t.kids[i - 1].gen == g) && (TooMany(t, i - 1) ==> t.kids[i].gen == g)
      else TooMany(t, 0) ==> t.kids[1].gen == g
  }

  // ---------------------------------------------------------------- rows

  /** Replacing part of a whole chain keeps it exactly if the first page stays and the new part is chained. */
  lemma {:induction false} RowReplaced(pre: seq<Tree>, mid: seq<Tree>, mid': seq<Tree>, post: seq<Tree>, next: PageID)
    requires AllShaped(pre) && AllShaped(mid) && AllShaped(mid') && AllShaped(post) && mid != [] && mid' != []
    requires AllShaped(pre + mid + post) && ChainedRow(pre + mid + post, next)
    ensures AllShaped(pre + mid' + post)
    ensures var first, first' := FirstLeaf(mid[0]), FirstLeaf(mid'[0]);
            && (ChainedRow(pre + mid' + post, next) <==>
                ChainedRow(mid', FirstOf(post, next)) && (pre != [] ==> first' == first))
            && (FirstOf(pre + mid' + post, next) == FirstOf(pre + mid + post, next) <==> pre != [] || first' == first)
            && ChainedRow(mid, FirstOf(post, next))
  {
    RowConcat(pre + mid, post, next);
    RowConcat(pre, mid, FirstOf(post, next));
    RowConcat(pre + mid', post, next);
    RowConcat(pre, mid', FirstOf(post, next));
    if pre != [] && ChainedRow(pre, FirstLeaf(mid'[0])) {
      RowUnique(pre, FirstLeaf(mid'[0]), FirstLeaf(mid[0]));
    }
  }

  lemma {:induction false} RowTwo(a: Tree, b: Tree, next: PageID)
    requires WellShaped(a) && WellShaped(b)
    ensures AllShaped([a, b]) && FirstOf([a, b], next) == FirstLeaf(a)
    ensures ChainedRow([a, b], next) <==> Chained(a, FirstLeaf(b)) && Chained(b, next)
  {
    RowOne(a, FirstLeaf(b));
    RowOne(b, next);
    assert [a, b] == [a] + [b];
    RowConcat([a], [b], next);
  }

  /** What a join puts in the place of two children. */
  function JoinedRow(t: Tree, l: nat, n: Tree): seq<Tree>
    requires t.Branch? && n.Branch? && l < |n.kids| && (|n.kids| == |t.kids| ==> l + 1 < |n.kids|)
  {
    if |n.kids| == |t.kids| then [n.kids[l], n.kids[l + 1]] else [n.kids[l]]
  }

  lemma {:induction false} JoinSplits(t: Tree, l: nat, g: nat, a: Alloc, h: nat)
    requires Balanced(t, h) && t.Branch? && l + 1 < |t.kids| && Join(t, l, g, a, h).Done?
    ensures var n := Join(t, l, g, a, h).t;
            && n.Branch? && Balanced(n, h) && WellShaped(n)
            && l < |n.kids| && (|n.kids| == |t.kids| ==> l + 1 < |n.kids|)
            && n.kids == t.kids[..l] + JoinedRow(t, l, n) + t.kids[l + 2..]
            && t.kids == t.kids[..l] + [t.kids[l], t.kids[l + 1]] + t.kids[l + 2..]
  {
    JoinBalanced(t, l, g, a, h);
    BalancedWellShaped(Join(t, l, g, a, h).t, h);
  }

  // ---------------------------------------------------------------- joining branches

  lemma {:induction false} BorrowRow(a: seq<Tree>, b: seq<Tree>, next: PageID)
    requires AllShaped(a) && AllShaped(b) && |b| >= 2 && a != []
    ensures AllShaped(a + [b[0]]) && AllShaped(b[1..])
    ensures ChainedRow(a + [b[0]], FirstLeaf(b[1])) && ChainedRow(b[1..], next) <==>
            ChainedRow(a, FirstOf(b, next)) && ChainedRow(b, next)
    ensures FirstOf(a + [b[0]], next) == FirstLeaf(a[0])
  {
    RowOne(b[0], FirstLeaf(b[1]));
    RowConcat(a, [b[0]], FirstLeaf(b[1]));
  }

  /** A join of two branches moves no leaf. */
  lemma {:induction false} JoinBranches(t: Tree, l: nat, g: nat, a: Alloc, h: nat, after: PageID)
    requires Balanced(t, h) && WellShaped(t) && t.Branch? && l + 1 < |t.kids| && t.kids[l].Branch?
    requires Join(t, l, g, a, h).Done?
    requires AllShaped([t.kids[l], t.kids[l + 1]]) && Join(t, l, g, a, h).t.Branch? && WellShaped(Join(t, l, g, a, h).t)
    requires var n := Join(t, l, g, a, h).t; l < |n.kids| && (|n.kids| == |t.kids| ==> l + 1 < |n.kids|)
    ensures var n := Join(t, l, g, a, h).t;
            && AllShaped(JoinedRow(t, l, n)) && FirstLeaf(JoinedRow(t, l, n)[0]) == FirstLeaf(t.kids[l])
            && (ChainedRow(JoinedRow(t, l, n), after) <==> ChainedRow([t.kids[l], t.kids[l + 1]], after))
  {
    var left, right, n := t.kids[l], t.kids[l + 1], Join(t, l, g, a, h).t;
    assert Balanced(left, h - 1) && Balanced(right, h - 1);
    RowTwo(left, right, after);
    RowConcat(left.kids, right.kids, after);
    if |n.kids| == |t.kids| {
      BorrowRow(left.kids, right.kids, after);
      RowTwo(n.kids[l], n.kids[l + 1], after);
    } else {
      RowOne(n.kids[l], after);
    }
  }

  lemma {:induction false} JoinBranchesChain(t: Tree, l: nat, g: nat, a: Alloc, h: nat, next: PageID)
    requires Balanced(t, h) && WellShaped(t) && t.Branch? && l + 1 < |t.kids| && t.kids[l].Branch?
    requires Join(t, l, g, a, h).Done?
    ensures var n := Join(t, l, g, a, h).t;
            WellShaped(n) && FirstLeaf(n) == FirstLeaf(t) && (Chained(n, next) <==> Chained(t, next))
  {
    var n := Join(t, l, g, a, h).t;
    var pre, mid, post := t.kids[..l], [t.kids[l], t.kids[l + 1]], t.kids[l + 2..];
    JoinSplits(t, l, g, a, h);
    var after := FirstOf(post, next);
    JoinBranches(t, l, g, a, h, after);
    var mid' := JoinedRow(t, l, n);
    RowConcat(pre + mid, post, next);
    RowConcat(pre, mid, after);
    RowConcat(pre + mid', post, next);
    RowConcat(pre, mid', after);
  }

  // ---------------------------------------------------------------- joining leaves

  /** The leaf `i` of a lowest branch after the deletion. */
  function Shorter(t: Tree, i: nat, id: PageID, g: nat, k: nat): Tree
    requires t.Branch? && i < |t.kids| && t.kids[i].Leaf? && WellShaped(t.kids[i]) && k < |t.kids[i].keys|
  {
    var leaf := t.kids[i];
    Leaf(id, g, RemoveAt(leaf.keys, k), RemoveAt(leaf.ptrs, k), leaf.right)
  }

  /** Two leaves, the first of which names the second, after a join. */
  lemma {:induction false} JoinLeaves(n: Tree, l: nat, g: nat, a: Alloc, h: nat, after: PageID)
    requires Balanced(n, h) && n.Branch? && l + 1 < |n.kids| && n.kids[l].Leaf? && Join(n, l, g, a, h).Done?
    requires Settled(n.kids[l], g, a) && n.kids[l + 1].Leaf? && n.kids[l + 1].right == after
    ensures var r, left, right := Join(n, l, g, a, h).t, n.kids[l], n.kids[l + 1];
            && r.Branch? && l < |r.kids| && (|r.kids| == |n.kids| ==> l + 1 < |r.kids|)
            && var row := JoinedRow(n, l, r);
            && AllShaped(row) && (FirstLeaf(row[0]) == left.id <==> left.gen == g)
            && (if |left.keys| + |right.keys| <= 20 then ChainedRow(row, after)
                else ChainedRow(row, after) <==>
                  left.right == Touch(right.id, right.gen, g, Touch(left.id, left.gen, g, a).1).0)
  {
    var r, left, right := Join(n, l, g, a, h).t, n.kids[l], n.kids[l + 1];
    assert Balanced(left, h - 1) && Balanced(right, h - 1);
    TouchMoves(left.id, left.gen, g, a);
    if |left.keys| + |right.keys| <= 20 {
      RowOne(r.kids[l], after);
    } else {
      RowTwo(r.kids[l], r.kids[l + 1], after);
    }
  }

  /** The children `l` and `l + 1` of a chained branch of leaves. */
  lemma {:induction false} TwoLeaves(t: Tree, l: nat, next: PageID)
    requires t.Branch? && WellShaped(t) && Chained(t, next) && l + 1 < |t.kids| && t.kids[l].Leaf?
    requires t.kids[l + 1].Leaf?
    ensures AllShaped(t.kids[l + 2..])
    ensures t.kids[l].right == t.kids[l + 1].id && t.kids[l + 1].right == FirstOf(t.kids[l + 2..], next)
  {
    var pre, mid, post := t.kids[..l], [t.kids[l], t.kids[l + 1]], t.kids[l + 2..];
    assert t.kids == pre + mid + post;
    RowConcat(pre + mid, post, next);
    RowConcat(pre, mid, FirstOf(post, next));
    RowTwo(t.kids[l], t.kids[l + 1], FirstOf(post, next));
  }

  /** `n` is the branch of leaves `t` with leaf `i` replaced by what the deletion made of it. */
  ghost predicate Replaced(t: Tree, n: Tree, i: nat, c: Tree, g: nat) {
    && t.Branch? && n.Branch? && i < |t.kids| && n.kids == t.kids[i := c] && n.keys == t.keys
    && t.kids[i].Leaf? && c.Leaf? && c.right == t.kids[i].right && c.gen == g && |c.keys| == |t.kids[i].keys| - 1
    && (c.id == t.kids[i].id <==> t.kids[i].gen == g)
  }

  /** The leaf joins its left sibling. */
  lemma {:induction false} JoinLeft(t: Tree, n: Tree, i: nat, c: Tree, g: nat, a: Alloc, h: nat, next: PageID)
    requires Balanced(t, h) && WellShaped(t) && Balanced(n, h) && Chained(t, next) && Replaced(t, n, i, c, g) && i > 0
    requires Settled(t.kids[i - 1], g, a) && t.kids[i - 1].Leaf? && Join(n, i - 1, g, a, h).Done?
    ensures var r := Join(n, i - 1, g, a, h).t;
            && WellShaped(r)
            && (Chained(r, next) <==> (i > 1 ==> t.kids[i - 1].gen == g) && (TooMany(t, i - 1) ==> t.kids[i].gen == g))
            && (FirstLeaf(r) == FirstLeaf(t) <==> i > 1 || t.kids[0].gen == g)
  {
    var l, r := i - 1, Join(n, i - 1, g, a, h).t;
    var pre, mid, post := t.kids[..l], [t.kids[l], t.kids[i]], t.kids[i + 1..];
    TwoLeaves(t, l, next);
    JoinSplits(n, l, g, a, h);
    JoinLeaves(n, l, g, a, h, FirstOf(post, next));
    TouchMoves(t.kids[l].id, t.kids[l].gen, g, a);
    assert t.kids == pre + mid + post && n.kids[..l] == pre && n.kids[l + 2..] == post;
    RowReplaced(pre, mid, JoinedRow(n, l, r), post, next);
  }

  /** The first leaf joins its right sibling. */
  lemma {:induction false} JoinRight(t: Tree, n: Tree, c: Tree, g: nat, a: Alloc, h: nat, next: PageID)
    requires Balanced(t, h) && WellShaped(t) && Balanced(n, h) && Chained(t, next) && Replaced(t, n, 0, c, g)
    requires |t.kids| > 1
    requires Settled(t.kids[1], g, a) && t.kids[1].Leaf? && Join(n, 0, g, a, h).Done?
    ensures var r := Join(n, 0, g, a, h).t;
            && WellShaped(r)
            && (Chained(r, next) <==> (TooMany(t, 0) ==> t.kids[1].gen == g))
            && (FirstLeaf(r) == FirstLeaf(t) <==> t.kids[0].gen == g)
  {
    var r := Join(n, 0, g, a, h).t;
    var mid, post := [t.kids[0], t.kids[1]], t.kids[2..];
    TwoLeaves(t, 0, next);
    JoinSplits(n, 0, g, a, h);
    JoinLeaves(n, 0, g, a, h, FirstOf(post, next));
    TouchMoves(t.kids[1].id, t.kids[1].gen, g, a);
    assert t.kids == [] + mid + post && n.kids[..0] == [] && n.kids[2..] == post;
    RowReplaced([], mid, JoinedRow(n, 0, r), post, next);
  }

  // ---------------------------------------------------------------- deletion

  /** A branch of leaves. */
  lemma {:induction false} LowestChain(t: Tree, n: Tree, i: nat, c: Tree, g: nat, a: Alloc, h: nat, next: PageID)
    requires Balanced(t, h) && WellShaped(t) && Balanced(n, h) && Chained(t, next) && Replaced(t, n, i, c, g)
    requires (forall j :: 0 <= j < |t.kids| ==> t.kids[j].Leaf?)
    requires (forall j :: 0 <= j < |t.kids| && j != i ==> Settled(t.kids[j], g, a))
    requires Rebalance(n, i, g, a, h).Done?
    ensures var r := Rebalance(n, i, g, a, h).t;
            && WellShaped(r)
            && (Chained(r, next) <==>
                if !Underfull(t, i) then i > 0 ==> t.kids[i].gen == g
                else if i > 0 then (i > 1 ==> t.kids[i - 1].gen == g) && (TooMany(t, i - 1) ==> t.kids[i].gen == g)
                else TooMany(t, 0) ==> t.kids[1].gen == g)
            && (FirstLeaf(r) == FirstLeaf(t) <==> (i == 0 || (i == 1 && Underfull(t, i)) ==> t.kids[0].gen == g))
  {
    if !Underfull(t, i) {
      var t' := Branch(n.id, n.gen, t.keys, t.kids);
      assert n == BranchPut(t', i, One(c, a));
      BranchPutChain(t', i, One(c, a), next);
    } else if i > 0 {
      JoinLeft(t, n, i, c, g, a, h, next);
    } else {
      JoinRight(t, n, c, g, a, h, next);
    }
  }

  /** The leaf that a deletion leaves behind. */
  lemma {:induction false} DeletedLeaf(cmp: Cmp, t: Tree, key: Key, g: nat, a: Alloc, h: nat)
    requires Balanced(t, h) && t.Leaf? && AllTaken(t, a) && Delete(cmp, t, key, g, a, h).Done?
    ensures var c := Delete(cmp, t, key, g, a, h).t;
            && c.Leaf? && c.right == t.right && c.gen == g && |c.keys| == |t.keys| - 1 && WellShaped(c)
            && (c.id == t.id <==> t.gen == g)
  {
    assert Count(t, t.id) >= 1;
    TouchMoves(t.id, t.gen, g, a);
  }

  /** Pages stay taken while a deletion goes on, and the pages it takes are taken afterwards. */
  lemma {:induction false} KidTaken(t: Tree, i: nat, g: nat, a: Alloc)
    requires t.Branch? && i < |t.kids| && AllTaken(t, a)
    ensures AllTaken(t.kids[i], Touch(t.id, t.gen, g, a).1)
  {
    assert Count(t, t.id) >= 1;
    TouchMoves(t.id, t.gen, g, a);
    forall p | Count(t.kids[i], p) >= 1
      ensures Taken(Touch(t.id, t.gen, g, a).1, p)
    {
      CountKid(t, i, p);
    }
  }

  /** What a deletion does at a branch of leaves, before the join. */
  lemma {:induction false} LowestReplaced(cmp: Cmp, t: Tree, key: Key, g: nat, a: Alloc, h: nat)
    requires Balanced(t, h) && WellShaped(t) && t.Branch? && AllTaken(t, a)
    requires (forall j :: 0 <= j < |t.kids| ==> t.kids[j].Leaf?)
    requires Delete(cmp, t.kids[UpperBound(cmp, t.keys, key)], key, g, Touch(t.id, t.gen, g, a).1, h - 1).Done?
    ensures var i := UpperBound(cmp, t.keys, key);
            var (id, a1) := Touch(t.id, t.gen, g, a);
            var r := Delete(cmp, t.kids[i], key, g, a1, h - 1);
            && Replaced(t, Branch(id, g, t.keys, t.kids[i := r.t]), i, r.t, g)
            && forall j :: 0 <= j < |t.kids| && j != i ==> Settled(t.kids[j], g, r.a)
  {
    var i, a1 := UpperBound(cmp, t.keys, key), Touch(t.id, t.gen, g, a).1;
    var leaf := t.kids[i];
    KidTaken(t, i, g, a);
    DeletedLeaf(cmp, leaf, key, g, a1, h - 1);
    assert Count(leaf, leaf.id) >= 1;
    TouchMoves(leaf.id, leaf.gen, g, a1);
    forall j | 0 <= j < |t.kids| && j != i
      ensures Taken(Touch(leaf.id, leaf.gen, g, a1).1, t.kids[j].id)
    {
      KidTaken(t, j, g, a);
      assert Count(t.kids[j], t.kids[j].id) >= 1;
    }
  }

  /** The children of a balanced branch are all leaves or all branches. */
  lemma {:induction false} SameLevel(t: Tree, h: nat)
    requires Balanced(t, h) && t.Branch?
    ensures forall j :: 0 <= j < |t.kids| ==> (t.kids[j].Leaf? <==> h == 1)
  {
  }

  /** A branch of branches: a join above the leaves moves none of them. */
  lemma {:induction false} UpperChain(t: Tree, i: nat, g: nat, a: Alloc, h: nat, next: PageID)
    requires Balanced(t, h) && WellShaped(t) && t.Branch? && i < |t.kids|
    requires (forall j :: 0 <= j < |t.kids| ==> t.kids[j].Branch?)
    requires Rebalance(t, i, g, a, h).Done?
    ensures var n := Rebalance(t, i, g, a, h).t;
            WellShaped(n) && FirstLeaf(n) == FirstLeaf(t) && (Chained(n, next) <==> Chained(t, next))
  {
    if |t.kids[i].keys| < 2 && |t.kids| > 1 {
      JoinBranchesChain(t, if i > 0 then i - 1 else i, g, a, h, next);
    }
  }

  /** The child that a deletion put back. */
  lemma {:induction false} ReplacedKid(t: Tree, i: nat, c: Tree, id: PageID, g: nat, next: PageID)
    requires t.Branch? && WellShaped(t) && i < |t.kids| && Chained(t, next) && WellShaped(c)
    ensures var n, after := Branch(id, g, t.keys, t.kids[i := c]), FirstOf(t.kids[i + 1..], next);
            && AllShaped(t.kids[i + 1..]) && WellShaped(n) && Chained(t.kids[i], after)
            && FirstLeaf(n) == (if i == 0 then FirstLeaf(c) else FirstLeaf(t))
            && (Chained(n, next) <==> Chained(c, after) && (i > 0 ==> FirstLeaf(c) == FirstLeaf(t.kids[i])))
  {
    var t', a := Branch(id, g, t.keys, t.kids), Alloc([], 0, []);
    BranchPutChain(t', i, One(c, a), next);
    assert BranchPut(t', i, One(c, a)) == Branch(id, g, t.keys, t.kids[i := c]);
  }

  /**
   A deletion keeps the chain of leaves if and only if every leaf that it writes stays on its page, or is the
   first one, or takes in its right neighbour.
   */
  lemma {:induction false} DeleteChain(cmp: Cmp, t: Tree, key: Key, g: nat, a: Alloc, h: nat, next: PageID)
    requires Balanced(t, h) && WellShaped(t) && Chained(t, next) && AllTaken(t, a) && Delete(cmp, t, key, g, a, h).Done?
    ensures var n := Delete(cmp, t, key, g, a, h).t;
            && WellShaped(n)
            && (Chained(n, next) <==> ChainStays(cmp, t, key, g))
            && (FirstLeaf(n) == FirstLeaf(t) <==> FirstStays(cmp, t, key, g))
    decreases t
  {
    if t.Leaf? {
      DeletedLeaf(cmp, t, key, g, a, h);
    } else {
      var i := UpperBound(cmp, t.keys, key);
      var (id, a1) := Touch(t.id, t.gen, g, a);
      var r := Delete(cmp, t.kids[i], key, g, a1, h - 1);
      DeleteAtBranch(cmp, t, key, g, a, h);
      SameLevel(t, h);
      var n := Branch(id, g, t.keys, t.kids[i := r.t]);
      if h == 1 {
        LowestReplaced(cmp, t, key, g, a, h);
        LowestChain(t, n, i, r.t, g, r.a, h, next);
      } else {
        KidTaken(t, i, g, a);
        BalancedWellShaped(r.t, h - 1);
        ReplacedKid(t, i, r.t, id, g, next);
        DeleteChain(cmp, t.kids[i], key, g, a1, h - 1, FirstOf(t.kids[i + 1..], next));
        SameLevel(n, h);
        UpperChain(n, i, g, r.a, h, next);
      }
    }
  }
}
