/**
 Conservation of pages. Every operation trades pages between the tree, the free list and the
 orphan list and takes new ones only from the end of the file. Counting the owners of a page `p`
 before and after shows that none is lost and none is used twice.
 */
module TreePages {
  import opened KeyOrder
  import opened PageFormat
  import opened CowTree

  function Is(p: PageID, q: PageID): nat { if p == q then 1 else 0 }

  /** How many nodes of `t` live on page `p`. */
  function Count(t: Tree, p: PageID): nat
    decreases t
  {
    match t
    case Leaf(id, _, _, _, _) => Is(id, p)
    case Branch(id, _, _, kids) => Is(id, p) + CountAll(kids, p)
  }

  function CountAll(kids: seq<Tree>, p: PageID): nat
    decreases kids
  {
    if kids == [] then 0 else Count(kids[0], p) + CountAll(kids[1..], p)
  }

  function GrownCount(r: Grown, p: PageID): nat {
    Count(r.t, p) + if r.Two? then Count(r.rest, p) else 0
  }

  /** How often the free list and the orphan list name page `p`. */
  function Held(a: Alloc, p: PageID): nat {
    multiset(a.free)[p] + multiset(a.orphans)[p]
  }

  /** Whether `p` was taken off the end of the file between `a` and `b`. */
  function Fresh(a: Alloc, b: Alloc, p: PageID): nat {
    if a.next <= p < b.next then 1 else 0
  }

  /** The owners of page `p`: `x` in trees with allocator `a` before, `y` with `b` after. */
  ghost predicate Conserves(x: int, a: Alloc, y: int, b: Alloc, p: PageID) {
    && a.next <= b.next
    && y + Held(b, p) == x + Held(a, p) + Fresh(a, b, p)
  }

  /** No node lives on a superblock or on the first catalog page, and the allocator offers none of them. */
  ghost predicate Clean(t: Tree, a: Alloc) {
    a.next >= 3 && forall q: PageID :: q < 3 ==> Count(t, q) == 0 && Held(a, q) == 0
  }

  // ---------------------------------------------------------------- allocator steps

  lemma {:induction false} AllocateConserves(a: Alloc, p: PageID)
    ensures Conserves(0, a, Is(Allocate(a).0, p), Allocate(a).1, p)
  {
    if |a.free| > 0 {
      assert a.free == a.free[..|a.free| - 1] + [a.free[|a.free| - 1]];
    }
  }

  lemma {:induction false} OrphanConserves(a: Alloc, q: PageID, p: PageID)
    requires q >= 3
    ensures Conserves(Is(q, p), a, 0, Orphan(a, q), p)
  {
  }

  lemma {:induction false} TouchConserves(id: PageID, gen: nat, g: nat, a: Alloc, p: PageID)
    requires id >= 3
    ensures Conserves(Is(id, p), a, Is(Touch(id, gen, g, a).0, p), Touch(id, gen, g, a).1, p)
  {
    if gen != g {
      AllocateConserves(a, p);
      OrphanConserves(Allocate(a).1, id, p);
    }
  }

  /**
   Clearing a page for the root leaves the children on node pages, with an allocator that still offers none
   of the others.
   */
  lemma {:induction false} TouchClean(t: Tree, g: nat, a: Alloc)
    requires Clean(t, a)
    ensures t.id >= 3
    ensures var (id, a1) := Touch(t.id, t.gen, g, a);
            id >= 3 && a1.next >= 3 && forall q: PageID :: q < 3 ==> Held(a1, q) == 0
  {
    assert t.id < 3 ==> Count(t, t.id) == 0;
    var (id, a1) := Touch(t.id, t.gen, g, a);
    forall q: PageID | q < 3
      ensures Held(a1, q) == 0 && Is(id, q) == 0
    {
      assert Count(t, q) == 0;
      TouchConserves(t.id, t.gen, g, a, q);
    }
    assert id < 3 ==> Is(id, id) == 0;
  }

  lemma {:induction false} KidClean(t: Tree, i: nat, g: nat, a: Alloc)
    requires t.Branch? && i < |t.kids| && Clean(t, a)
    ensures t.id >= 3 && Clean(t.kids[i], Touch(t.id, t.gen, g, a).1)
  {
    TouchClean(t, g, a);
    forall q: PageID | q < 3
      ensures Count(t.kids[i], q) == 0
    {
      assert Count(t, q) == 0;
      CountAround(t.kids, i, q);
    }
  }

  // ---------------------------------------------------------------- pages of a branch

  lemma {:induction false} CountConcat(a: seq<Tree>, b: seq<Tree>, p: PageID)
    ensures CountAll(a + b, p) == CountAll(a, p) + CountAll(b, p)
  {
    if a == [] {
      assert a + b == b;
    } else {
      CountConcat(a[1..], b, p);
      assert (a + b)[1..] == a[1..] + b;
    }
  }

  lemma {:induction false} CountAround(kids: seq<Tree>, i: nat, p: PageID)
    requires i < |kids|
    ensures CountAll(kids, p) == CountAll(kids[..i], p) + Count(kids[i], p) + CountAll(kids[i + 1..], p)
  {
    assert kids == kids[..i] + kids[i..];
    CountConcat(kids[..i], kids[i..], p);
    assert kids[i..][1..] == kids[i + 1..];
  }

  lemma {:induction false} CountAroundTwo(kids: seq<Tree>, l: nat, p: PageID)
    requires l + 1 < |kids|
    ensures CountAll(kids, p) ==
            CountAll(kids[..l], p) + Count(kids[l], p) + Count(kids[l + 1], p) + CountAll(kids[l + 2..], p)
  {
    CountAround(kids, l, p);
    assert kids[l + 1..][1..] == kids[l + 2..];
  }

  // ---------------------------------------------------------------- insert

  lemma {:induction false} SettleConserves(t: Tree, g: nat, a: Alloc, p: PageID)
    requires |t.keys| > 0 || Fits(t.Leaf?, t.keys)
    requires t.Leaf? ==> |t.ptrs| == |t.keys|
    requires t.Branch? ==> |t.kids| == |t.keys| + 1
    ensures Conserves(Count(t, p), a, GrownCount(Settle(t, g, a), p), Settle(t, g, a).a, p)
  {
    if !Fits(t.Leaf?, t.keys) {
      AllocateConserves(a, p);
      if t.Branch? {
        var mid := |t.keys| / 2;
        assert t.kids == t.kids[..mid + 1] + t.kids[mid + 1..];
        CountConcat(t.kids[..mid + 1], t.kids[mid + 1..], p);
      }
    }
  }

  lemma {:induction false} BranchPutCount(t: Tree, i: nat, child: Grown, p: PageID)
    requires t.Branch? && WellShaped(t) && i < |t.kids|
    ensures Count(BranchPut(t, i, child), p) == Count(t, p) - Count(t.kids[i], p) + GrownCount(child, p)
  {
    var n := BranchPut(t, i, child);
    CountAround(t.kids, i, p);
    if child.One? {
      CountAround(n.kids, i, p);
      assert n.kids[..i] == t.kids[..i] && n.kids[i + 1..] == t.kids[i + 1..];
    } else {
      CountAroundTwo(n.kids, i, p);
      assert n.kids[..i] == t.kids[..i] && n.kids[i + 2..] == t.kids[i + 1..];
    }
  }

  /** One level of an operation: the root gets its page, then child `i` is replaced. */
  lemma {:induction false} DescendConserves(t: Tree, i: nat, g: nat, a: Alloc, child: Grown, p: PageID)
    requires t.Branch? && i < |t.kids| && Clean(t, a) && WellShaped(t)
    requires Conserves(Count(t.kids[i], p), Touch(t.id, t.gen, g, a).1, GrownCount(child, p), child.a, p)
    ensures Conserves(Count(t, p), a, Count(BranchPut(Moved(t, Touch(t.id, t.gen, g, a).0, g), i, child), p), child.a,
                      p)
  {
    TouchClean(t, g, a);
    TouchConserves(t.id, t.gen, g, a, p);
    BranchPutCount(Moved(t, Touch(t.id, t.gen, g, a).0, g), i, child, p);
  }

  /** Insertion conserves pages. */
  lemma {:induction false} InsertConserves(cmp: Cmp, t: Tree, key: Key, ptr: Pointer, g: nat, a: Alloc, p: PageID)
    requires WellShaped(t) && Clean(t, a)
    ensures var r := Insert(cmp, t, key, ptr, g, a); Conserves(Count(t, p), a, GrownCount(r, p), r.a, p)
    decreases t
  {
    var (id, a1) := Touch(t.id, t.gen, g, a);
    var n := Moved(t, id, g);
    TouchClean(t, g, a);
    TouchConserves(t.id, t.gen, g, a, p);
    if t.Leaf? {
      SettleConserves(LeafPut(cmp, n, key, ptr), g, a1, p);
    } else {
      var i := UpperBound(cmp, t.keys, key);
      KidClean(t, i, g, a);
      InsertConserves(cmp, t.kids[i], key, ptr, g, a1, p);
      var child := Insert(cmp, t.kids[i], key, ptr, g, a1);
      DescendConserves(t, i, g, a, child, p);
      SettleConserves(BranchPut(n, i, child), g, child.a, p);
    }
  }

  // ---------------------------------------------------------------- delete

  lemma {:induction false} FuseCount(t: Tree, l: nat, c: Tree, p: PageID)
    requires t.Branch? && |t.kids| == |t.keys| + 1 && l + 1 < |t.kids|
    ensures Count(Fuse(t, l, c), p) == Count(t, p) - Count(t.kids[l], p) - Count(t.kids[l + 1], p) + Count(c, p)
  {
    var n := Fuse(t, l, c);
    CountAroundTwo(t.kids, l, p);
    CountAround(n.kids, l, p);
    assert n.kids[..l] == t.kids[..l] && n.kids[l + 1..] == t.kids[l + 2..];
  }

  lemma {:induction false} PairCount(t: Tree, l: nat, c: Tree, sep: Key, d: Tree, p: PageID)
    requires t.Branch? && |t.kids| == |t.keys| + 1 && l + 1 < |t.kids|
    ensures Count(Pair(t, l, c, sep, d), p) ==
            Count(t, p) - Count(t.kids[l], p) - Count(t.kids[l + 1], p) + Count(c, p) + Count(d, p)
  {
    var n := Pair(t, l, c, sep, d);
    CountAroundTwo(t.kids, l, p);
    CountAroundTwo(n.kids, l, p);
    assert n.kids[..l] == t.kids[..l] && n.kids[l + 2..] == t.kids[l + 2..];
  }

  lemma {:induction false} JoinConserves(t: Tree, l: nat, g: nat, a: Alloc, h: nat, p: PageID)
    requires Balanced(t, h) && t.Branch? && l + 1 < |t.kids| && Join(t, l, g, a, h).Done?
    requires Clean(t, a)
    ensures var r := Join(t, l, g, a, h); Conserves(Count(t, p), a, Count(r.t, p), r.a, p)
  {
    var left, right := t.kids[l], t.kids[l + 1];
    var (lid, a1) := Touch(left.id, left.gen, g, a);
    var (rid, a2) := Touch(right.id, right.gen, g, a1);
    NeighboursClean(t, l, g, a);
    TouchConserves(left.id, left.gen, g, a, p);
    TouchConserves(right.id, right.gen, g, a1, p);
    var r := Join(t, l, g, a, h);
    JoinCount(t, l, g, a, h, p);
    if r.a != a2 {
      OrphanConserves(a2, rid, p);
    }
  }

  /** The pages of a parent whose children `l` and `l + 1` were merged or evened out. */
  lemma {:induction false} JoinCount(t: Tree, l: nat, g: nat, a: Alloc, h: nat, p: PageID)
    requires Balanced(t, h) && t.Branch? && l + 1 < |t.kids| && Join(t, l, g, a, h).Done?
    ensures var left, right := t.kids[l], t.kids[l + 1];
            var (lid, a1) := Touch(left.id, left.gen, g, a);
            var (rid, a2) := Touch(right.id, right.gen, g, a1);
            var r := Join(t, l, g, a, h);
            var moved := Count(t, p) - Is(left.id, p) - Is(right.id, p) + Is(lid, p);
            || (r.a == a2 && Count(r.t, p) == moved + Is(rid, p))
            || (r.a == Orphan(a2, rid) && Count(r.t, p) == moved)
  {
    var left, right := t.kids[l], t.kids[l + 1];
    assert Balanced(left, h - 1) && Balanced(right, h - 1);
    var n := Join(t, l, g, a, h).t;
    if |n.kids| < |t.kids| {
      FuseCount(t, l, n.kids[l], p);
      if left.Branch? {
        CountConcat(left.kids, right.kids, p);
      }
    } else {
      PairCount(t, l, n.kids[l], n.keys[l], n.kids[l + 1], p);
      if left.Branch? {
        CountConcat(left.kids, [right.kids[0]], p);
        assert [right.kids[0]][1..] == [];
      }
    }
  }

  lemma {:induction false} NeighboursClean(t: Tree, l: nat, g: nat, a: Alloc)
    requires t.Branch? && l + 1 < |t.kids| && Clean(t, a)
    ensures var left, right := t.kids[l], t.kids[l + 1];
            var (lid, a1) := Touch(left.id, left.gen, g, a);
            var (rid, a2) := Touch(right.id, right.gen, g, a1);
            left.id >= 3 && right.id >= 3 && rid >= 3
  {
    var left, right := t.kids[l], t.kids[l + 1];
    forall q: PageID | q < 3
      ensures Count(left, q) == 0 && Count(right, q) == 0
    {
      assert Count(t, q) == 0;
      CountAroundTwo(t.kids, l, q);
    }
    TouchClean(left, g, a);
    TouchClean(right, g, Touch(left.id, left.gen, g, a).1);
  }

  lemma {:induction false} RebalanceConserves(t: Tree, i: nat, g: nat, a: Alloc, h: nat, p: PageID)
    requires Balanced(t, h) && t.Branch? && i < |t.kids| && Rebalance(t, i, g, a, h).Done?
    requires Clean(t, a)
    ensures var r := Rebalance(t, i, g, a, h); Conserves(Count(t, p), a, Count(r.t, p), r.a, p)
  {
    if |t.kids[i].keys| < 2 && |t.kids| > 1 {
      JoinConserves(t, if i > 0 then i - 1 else i, g, a, h, p);
    }
  }

  /** The node with its child replaced is clean again. */
  lemma {:induction false} StepClean(t: Tree, a: Alloc, n: Tree, b: Alloc)
    requires Clean(t, a) && forall q: PageID :: q < 3 ==> Conserves(Count(t, q), a, Count(n, q), b, q)
    ensures Clean(n, b)
  {
    forall q: PageID | q < 3
      ensures Count(n, q) == 0 && Held(b, q) == 0
    {
      assert Conserves(Count(t, q), a, Count(n, q), b, q);
    }
    assert Conserves(Count(t, 0), a, Count(n, 0), b, 0);
  }

  /** Deletion of a present key conserves pages. */
  lemma {:induction false} DeleteConserves(cmp: Cmp, t: Tree, key: Key, g: nat, a: Alloc, h: nat, p: PageID)
    requires Balanced(t, h) && Clean(t, a) && Delete(cmp, t, key, g, a, h).Done?
    ensures var r := Delete(cmp, t, key, g, a, h); Conserves(Count(t, p), a, Count(r.t, p), r.a, p)
    decreases t
  {
    var (id, a1) := Touch(t.id, t.gen, g, a);
    if t.Leaf? {
      TouchClean(t, g, a);
      TouchConserves(t.id, t.gen, g, a, p);
    } else {
      BalancedWellShaped(t, h);
      var i := UpperBound(cmp, t.keys, key);
      KidClean(t, i, g, a);
      var child := Delete(cmp, t.kids[i], key, g, a1, h - 1);
      var n := Moved(t, id, g).(kids := t.kids[i := child.t]);
      forall q: PageID
        ensures Conserves(Count(t, q), a, Count(n, q), child.a, q)
      {
        DeleteConserves(cmp, t.kids[i], key, g, a1, h - 1, q);
        DescendConserves(t, i, g, a, One(child.t, child.a), q);
      }
      StepClean(t, a, n, child.a);
      RebalanceConserves(n, i, g, child.a, h, p);
      assert Conserves(Count(t, p), a, Count(n, p), child.a, p);
    }
  }
}
