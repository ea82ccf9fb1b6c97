/**
 Generations of the nodes of a tree: an operation under generation `g` leaves nodes of `g` and of earlier ones.
 */
module TreeGens {
  import opened KeyOrder
  import opened PageFormat
  import opened CowTree
  import opened TreePages
  import opened PageStore

  predicate GenAtMost(t: Tree, g: nat)
    decreases t
  {
    t.gen <= g && (t.Branch? ==> forall i :: 0 <= i < |t.kids| ==> GenAtMost(t.kids[i], g))
  }

  lemma {:induction false} GenWeaken(t: Tree, g: nat, g': nat)
    requires GenAtMost(t, g) && g <= g'
    ensures GenAtMost(t, g')
    decreases t
  {
    if t.Branch? {
      forall i | 0 <= i < |t.kids|
        ensures GenAtMost(t.kids[i], g')
      {
        GenWeaken(t.kids[i], g, g');
      }
    }
  }

  /** The same read off the pages. */
  lemma {:induction false} StoredGen(m: Store, t: Tree, g: nat, p: PageID)
    requires Stored(m, t) && GenAtMost(t, g) && Count(t, p) >= 1
    ensures p in m && m[p].gen <= g
    decreases t
  {
    if t.Branch? && p != t.id {
      var i := CountWitness(t.kids, p);
      StoredGen(m, t.kids[i], g, p);
    }
  }

  predicate GrownGen(r: Grown, g: nat) {
    GenAtMost(r.t, g) && (r.Two? ==> GenAtMost(r.rest, g))
  }

  lemma {:induction false} SettleGen(t: Tree, g: nat, a: Alloc)
    requires |t.keys| > 0 || Fits(t.Leaf?, t.keys)
    requires t.Leaf? ==> |t.ptrs| == |t.keys|
    requires t.Branch? ==> |t.kids| == |t.keys| + 1
    requires GenAtMost(t, g)
    ensures GrownGen(Settle(t, g, a), g)
  {
  }

  lemma {:induction false} InsertGen(cmp: Cmp, t: Tree, key: Key, ptr: Pointer, g: nat, a: Alloc)
    requires WellShaped(t) && GenAtMost(t, g)
    ensures GrownGen(Insert(cmp, t, key, ptr, g, a), g)
    decreases t
  {
    var (id, a1) := Touch(t.id, t.gen, g, a);
    var n := Moved(t, id, g);
    if t.Leaf? {
      SettleGen(LeafPut(cmp, n, key, ptr), g, a1);
    } else {
      var i := UpperBound(cmp, t.keys, key);
      InsertGen(cmp, t.kids[i], key, ptr, g, a1);
      var child := Insert(cmp, t.kids[i], key, ptr, g, a1);
      SettleGen(BranchPut(n, i, child), g, child.a);
    }
  }

  lemma {:induction false} JoinGen(t: Tree, l: nat, g: nat, a: Alloc, h: nat)
    requires Balanced(t, h) && t.Branch? && l + 1 < |t.kids| && GenAtMost(t, g)
    ensures Join(t, l, g, a, h).Done? ==> GenAtMost(Join(t, l, g, a, h).t, g)
  {
    assert Balanced(t.kids[l], h - 1) && Balanced(t.kids[l + 1], h - 1);
    var left, right := t.kids[l], t.kids[l + 1];
    assert GenAtMost(left, g) && GenAtMost(right, g);
    var r := Join(t, l, g, a, h);
    if r.Done? {
      assert GenAtMost(r.t.kids[l], g);
      assert |r.t.kids| == |t.kids| ==> GenAtMost(r.t.kids[l + 1], g);
    }
  }

  lemma {:induction false} DeleteGen(cmp: Cmp, t: Tree, key: Key, g: nat, a: Alloc, h: nat)
    requires Balanced(t, h) && GenAtMost(t, g) && Delete(cmp, t, key, g, a, h).Done?
    ensures GenAtMost(Delete(cmp, t, key, g, a, h).t, g)
    decreases t
  {
    if t.Branch? {
      var i := UpperBound(cmp, t.keys, key);
      var (id, a1) := Touch(t.id, t.gen, g, a);
      DeleteAtBranch(cmp, t, key, g, a, h);
      var child := Delete(cmp, t.kids[i], key, g, a1, h - 1);
      DeleteGen(cmp, t.kids[i], key, g, a1, h - 1);
      var n := Branch(id, g, t.keys, t.kids[i := child.t]);
      if |n.kids[i].keys| < 2 && |n.kids| > 1 {
        JoinGen(n, if i > 0 then i - 1 else i, g, child.a, h);
      }
    }
  }
}
