/**
 Range scans: the entries of a tree in order, and what a scan over its leaves visits.
 */
module TreeRange {
  import opened KeyOrder
  import opened PageFormat
  import opened CowTree
  import opened TreeOrder
  import opened TreePages
  import opened PageStore
  import opened TreeChain

  type Entry = (Key, Pointer)

  function LeafEntries(keys: seq<Key>, ptrs: seq<Pointer>): (r: seq<Entry>)
    requires |keys| == |ptrs|
    ensures |r| == |keys| && forall i :: 0 <= i < |keys| ==> r[i] == (keys[i], ptrs[i])
  {
    seq(|keys|, i requires 0 <= i < |keys| => (keys[i], ptrs[i]))
  }

  /** The entries of a tree from left to right. */
  function Entries(t: Tree): seq<Entry>
    requires WellShaped(t)
    decreases t
  {
    if t.Leaf? then LeafEntries(t.keys, t.ptrs) else EntriesRow(t.kids)
  }

  function EntriesRow(kids: seq<Tree>): seq<Entry>
    requires AllShaped(kids)
    decreases kids
  {
    if kids == [] then [] else Entries(kids[0]) + EntriesRow(kids[1..])
  }

  lemma {:induction false} EntriesConcat(a: seq<Tree>, b: seq<Tree>)
    requires AllShaped(a) && AllShaped(b)
    ensures AllShaped(a + b) && EntriesRow(a + b) == EntriesRow(a) + EntriesRow(b)
  {
    if a == [] {
      assert a + b == b;
    } else {
      EntriesConcat(a[1..], b);
      assert (a + b)[1..] == a[1..] + b;
    }
  }

  // ---------------------------------------------------------------- the entries are the contents, in order

  lemma {:induction false} EntriesAre(cmp: Cmp, t: Tree, lo: Bound, hi: Bound, k: Key, p: Pointer)
    requires TotalOrder(cmp) && Ordered(cmp, t, lo, hi) && WellShaped(t)
    ensures (k, p) in Entries(t) <==> k in Contents(t) && Contents(t)[k] == p
    decreases t
  {
    if t.Leaf? {
      LeafEntriesAre(cmp, t, lo, hi, k, p);
    } else {
      var i := UpperBound(cmp, t.keys, k);
      KidAnswers(cmp, t, lo, hi, k);
      EntriesAre(cmp, t.kids[i], KidLo(t.keys, lo, i), KidHi(t.keys, hi, i), k, p);
      forall j | 0 <= j < |t.kids| && j != i
        ensures (k, p) !in Entries(t.kids[j])
      {
        EntriesElsewhere(cmp, t, lo, hi, k, p, j);
      }
      RowOnly(t.kids, i, k, p);
    }
  }

  lemma {:induction false} LeafEntriesAre(cmp: Cmp, t: Tree, lo: Bound, hi: Bound, k: Key, p: Pointer)
    requires TotalOrder(cmp) && Ordered(cmp, t, lo, hi) && t.Leaf?
    ensures (k, p) in Entries(t) <==> k in Contents(t) && Contents(t)[k] == p
  {
    if k in Contents(t) {
      var i := IndexOf(t.keys, k);
      assert Entries(t)[i] == (k, t.ptrs[i]);
    }
    if (k, p) in Entries(t) {
      var i :| 0 <= i < |t.keys| && Entries(t)[i] == (k, p);
      LeafMapAt(cmp, t.keys, t.ptrs, i);
    }
  }

  /** If only child `i` can have an entry, the row has it exactly when that child does. */
  lemma {:induction false} RowOnly(kids: seq<Tree>, i: nat, k: Key, p: Pointer)
    requires AllShaped(kids) && i < |kids| && forall j :: 0 <= j < |kids| && j != i ==> (k, p) !in Entries(kids[j])
    ensures (k, p) in EntriesRow(kids) <==> (k, p) in Entries(kids[i])
  {
    if i == 0 {
      RowAbsent(kids[1..], k, p);
    } else {
      assert forall j :: 0 <= j < |kids[1..]| ==> kids[1..][j] == kids[j + 1];
      RowOnly(kids[1..], i - 1, k, p);
    }
  }

  lemma {:induction false} RowAbsent(kids: seq<Tree>, k: Key, p: Pointer)
    requires AllShaped(kids) && forall j :: 0 <= j < |kids| ==> (k, p) !in Entries(kids[j])
    ensures (k, p) !in EntriesRow(kids)
  {
    if kids != [] {
      RowAbsent(kids[1..], k, p);
    }
  }

  lemma {:induction false} EntriesElsewhere(cmp: Cmp, t: Tree, lo: Bound, hi: Bound, k: Key, p: Pointer, j: nat)
    requires TotalOrder(cmp) && Ordered(cmp, t, lo, hi) && WellShaped(t) && t.Branch? && j < |t.kids|
    requires j != UpperBound(cmp, t.keys, k)
    ensures (k, p) !in Entries(t.kids[j])
    decreases t, 0
  {
    EntriesAre(cmp, t.kids[j], KidLo(t.keys, lo, j), KidHi(t.keys, hi, j), k, p);
    if k in Contents(t.kids[j]) {
      OnlyKid(cmp, t, lo, hi, k, j);
    }
  }

  ghost predicate Ascending(cmp: Cmp, es: seq<Entry>) {
    forall i, j :: 0 <= i < j < |es| ==> cmp(es[i].0, es[j].0) < 0
  }

  ghost predicate EntriesWithin(cmp: Cmp, es: seq<Entry>, lo: Bound, hi: Bound) {
    forall i :: 0 <= i < |es| ==> From(cmp, lo, es[i].0) && Below(cmp, es[i].0, hi)
  }

  /** From left to right keys strictly increase. */
  lemma {:induction false} EntriesAscend(cmp: Cmp, t: Tree, lo: Bound, hi: Bound)
    requires TotalOrder(cmp) && Ordered(cmp, t, lo, hi) && WellShaped(t)
    ensures Ascending(cmp, Entries(t)) && EntriesWithin(cmp, Entries(t), lo, hi)
    decreases t, 1, 0
  {
    if t.Branch? {
      RowAscends(cmp, t, lo, hi, 0);
      assert t.kids[0..] == t.kids;
    }
  }

  /** The same for the children from child `i` on. */
  lemma {:induction false} RowAscends(cmp: Cmp, t: Tree, lo: Bound, hi: Bound, i: nat)
    requires TotalOrder(cmp) && Ordered(cmp, t, lo, hi) && WellShaped(t) && t.Branch? && i < |t.kids|
    ensures Ascending(cmp, EntriesRow(t.kids[i..]))
    ensures EntriesWithin(cmp, EntriesRow(t.kids[i..]), KidLo(t.keys, lo, i), hi)
    decreases t, 0, |t.kids| - i
  {
    EntriesAscend(cmp, t.kids[i], KidLo(t.keys, lo, i), KidHi(t.keys, hi, i));
    assert t.kids[i..][1..] == t.kids[i + 1..];
    if i + 1 < |t.kids| {
      RowAscends(cmp, t, lo, hi, i + 1);
      JoinAscending(cmp, Entries(t.kids[i]), EntriesRow(t.kids[i + 1..]), KidLo(t.keys, lo, i), t.keys[i], hi);
      if i > 0 {
        assert cmp(t.keys[i - 1], t.keys[i]) <= 0;
      }
    } else {
      assert EntriesRow(t.kids[i..]) == Entries(t.kids[i]) + [];
    }
  }

  lemma {:induction false} JoinAscending(cmp: Cmp, a: seq<Entry>, b: seq<Entry>, lo: Bound, mid: Key, hi: Bound)
    requires TotalOrder(cmp) && Ascending(cmp, a) && Ascending(cmp, b) && EntriesWithin(cmp, a, lo, At(mid))
    requires EntriesWithin(cmp, b, At(mid), hi)
    requires From(cmp, lo, mid) && UpTo(cmp, mid, hi)
    ensures Ascending(cmp, a + b) && EntriesWithin(cmp, a + b, lo, hi)
  {
    forall i, j | 0 <= i < |a| && 0 <= j < |b|
      ensures cmp(a[i].0, b[j].0) < 0
    {
      Transitive(cmp, a[i].0, mid, b[j].0);
    }
    forall i | 0 <= i < |a|
      ensures Below(cmp, a[i].0, hi)
    {
      if hi.At? {
        Transitive(cmp, a[i].0, mid, hi.key);
      }
    }
    forall j | 0 <= j < |b|
      ensures From(cmp, lo, b[j].0)
    {
      if lo.At? {
        Transitive(cmp, lo.key, mid, b[j].0);
      }
    }
  }

  // ---------------------------------------------------------------- what a scan visits

  /** A visitor decides from what it has seen and the next entry whether to go on. */
  type Visitor = (seq<Entry>, Entry) -> bool

  /** The inner loop of a scan over the entries `es`, after it visited `seen`; an empty bound is no bound. */
  function Visit(cmp: Cmp, es: seq<Entry>, start: Key, end: Key, visit: Visitor, seen: seq<Entry>): (seq<Entry>, bool) {
    if es == [] then (seen, false)
    else if start != [] && cmp(es[0].0, start) < 0 then Visit(cmp, es[1..], start, end, visit, seen)
    else if end != [] && cmp(es[0].0, end) > 0 then (seen, true)
    else if !visit(seen, es[0]) then (seen + [es[0]], true)
    else Visit(cmp, es[1..], start, end, visit, seen + [es[0]])
  }

  lemma {:induction false} VisitConcat(cmp: Cmp, a: seq<Entry>, b: seq<Entry>, start: Key, end: Key, visit: Visitor,
                                       seen: seq<Entry>)
    ensures var (mid, stop) := Visit(cmp, a, start, end, visit, seen);
            Visit(cmp, a + b, start, end, visit, seen) == if stop then (mid, true)
              else Visit(cmp, b, start, end, visit, mid)
    decreases |a|
  {
    if a == [] {
      assert a + b == b;
    } else {
      assert (a + b)[1..] == a[1..] + b;
      if start != [] && cmp(a[0].0, start) < 0 {
        VisitConcat(cmp, a[1..], b, start, end, visit, seen);
      } else if !(end != [] && cmp(a[0].0, end) > 0) && visit(seen, a[0]) {
        VisitConcat(cmp, a[1..], b, start, end, visit, seen + [a[0]]);
      }
    }
  }

  predicate InRange(cmp: Cmp, e: Entry, start: Key, end: Key) {
    (start != [] ==> cmp(e.0, start) >= 0) && (end != [] ==> cmp(e.0, end) <= 0)
  }

  /** The entries between the bounds, in order. */
  function Between(cmp: Cmp, es: seq<Entry>, start: Key, end: Key): seq<Entry> {
    if es == [] then []
    else (if InRange(cmp, es[0], start, end) then [es[0]] else []) + Between(cmp, es[1..], start, end)
  }

  /** What a visitor sees of a list: everything up to the entry at which it says stop. */
  function Shown(es: seq<Entry>, visit: Visitor, seen: seq<Entry>): seq<Entry> {
    if es == [] then seen
    else if !visit(seen, es[0]) then seen + [es[0]]
    else Shown(es[1..], visit, seen + [es[0]])
  }

  /** A scan over ascending entries shows the visitor exactly those between the bounds, up to its stop. */
  lemma {:induction false} VisitIsBetween(cmp: Cmp, es: seq<Entry>, start: Key, end: Key, visit: Visitor,
                                          seen: seq<Entry>)
    requires TotalOrder(cmp) && Ascending(cmp, es)
    ensures Visit(cmp, es, start, end, visit, seen).0 == Shown(Between(cmp, es, start, end), visit, seen)
    decreases |es|
  {
    if es != [] {
      var rest := es[1..];
      assert Ascending(cmp, rest);
      if end != [] && cmp(es[0].0, end) > 0 {
        PastEnd(cmp, es, start, end);
        if start != [] && cmp(es[0].0, start) < 0 {
          VisitIsBetween(cmp, rest, start, end, visit, seen);
        }
      } else if start != [] && cmp(es[0].0, start) < 0 {
        VisitIsBetween(cmp, rest, start, end, visit, seen);
        assert [] + Between(cmp, rest, start, end) == Between(cmp, rest, start, end);
      } else {
        VisitIsBetween(cmp, rest, start, end, visit, seen + [es[0]]);
        assert ([es[0]] + Between(cmp, rest, start, end))[1..] == Between(cmp, rest, start, end);
      }
    }
  }

  /** After an entry past the end there is none before it. */
  lemma {:induction false} PastEnd(cmp: Cmp, es: seq<Entry>, start: Key, end: Key)
    requires TotalOrder(cmp) && Ascending(cmp, es) && es != [] && end != [] && cmp(es[0].0, end) > 0
    ensures Between(cmp, es, start, end) == []
    decreases |es|
  {
    if |es| > 1 {
      Transitive(cmp, end, es[0].0, es[1].0);
      assert Ascending(cmp, es[1..]);
      PastEnd(cmp, es[1..], start, end);
    }
  }

  /** Entries below the start are passed over. */
  lemma {:induction false} VisitSkips(cmp: Cmp, a: seq<Entry>, b: seq<Entry>, start: Key, end: Key, visit: Visitor)
    requires start != [] && forall i :: 0 <= i < |a| ==> cmp(a[i].0, start) < 0
    ensures Visit(cmp, a + b, start, end, visit, []) == Visit(cmp, b, start, end, visit, [])
    decreases |a|
  {
    if a == [] {
      assert a + b == b;
    } else {
      assert (a + b)[1..] == a[1..] + b;
      VisitSkips(cmp, a[1..], b, start, end, visit);
    }
  }

  // ---------------------------------------------------------------- leaves

  function Leaves(t: Tree): seq<Tree>
    decreases t
  {
    if t.Leaf? then [t] else LeavesRow(t.kids)
  }

  function LeavesRow(kids: seq<Tree>): seq<Tree>
    decreases kids
  {
    if kids == [] then [] else Leaves(kids[0]) + LeavesRow(kids[1..])
  }

  /** A row of leaves that are on their pages, none of which is page 0. */
  ghost predicate LeafRow(m: Store, ls: seq<Tree>) {
    forall i :: 0 <= i < |ls| ==>
      ls[i].Leaf? && WellShaped(ls[i]) && ls[i].id != 0 && ls[i].id in m && m[ls[i].id] == NodeOf(ls[i])
  }

  /** No page of the tree is page 0. */
  ghost predicate NoPageZero(t: Tree)
    decreases t
  {
    t.id != 0 && (t.Branch? ==> forall i :: 0 <= i < |t.kids| ==> NoPageZero(t.kids[i]))
  }

  lemma {:induction false} NoZero(t: Tree)
    requires Count(t, 0) == 0
    ensures NoPageZero(t)
    decreases t
  {
    if t.Branch? {
      forall i | 0 <= i < |t.kids|
        ensures NoPageZero(t.kids[i])
      {
        CountKid(t, i, 0);
        NoZero(t.kids[i]);
      }
    }
  }

  /** The leaves of a tree have its entries, its chain and its pages. */
  lemma {:induction false} LeavesAre(m: Store, t: Tree, next: PageID)
    requires WellShaped(t) && Stored(m, t) && NoPageZero(t) && Chained(t, next)
    ensures LeafRow(m, Leaves(t)) && AllShaped(Leaves(t)) && EntriesRow(Leaves(t)) == Entries(t)
    ensures FirstOf(Leaves(t), next) == FirstLeaf(t) && ChainedRow(Leaves(t), next)
    decreases t, 1
  {
    if t.Leaf? {
      RowOne(t, next);
      assert [t][1..] == [];
      assert Entries(t) + [] == Entries(t);
    } else {
      LeavesRowAre(m, t.kids, next);
    }
  }

  lemma {:induction false} LeavesRowAre(m: Store, kids: seq<Tree>, next: PageID)
    requires AllShaped(kids) && (forall i :: 0 <= i < |kids| ==> Stored(m, kids[i]) && NoPageZero(kids[i]))
    requires ChainedRow(kids, next)
    ensures LeafRow(m, LeavesRow(kids)) && AllShaped(LeavesRow(kids)) && EntriesRow(LeavesRow(kids)) == EntriesRow(kids)
    ensures FirstOf(LeavesRow(kids), next) == FirstOf(kids, next) && ChainedRow(LeavesRow(kids), next)
    decreases kids, 0
  {
    if kids != [] {
      LeavesRowAre(m, kids[1..], next);
      LeavesAre(m, kids[0], FirstOf(kids[1..], next));
      RowConcat(Leaves(kids[0]), LeavesRow(kids[1..]), next);
      EntriesConcat(Leaves(kids[0]), LeavesRow(kids[1..]));
      LeavesNonEmpty(kids[0]);
    }
  }

  lemma {:induction false} LeavesNonEmpty(t: Tree)
    requires WellShaped(t)
    ensures Leaves(t) != []
    decreases t
  {
    if t.Branch? {
      LeavesNonEmpty(t.kids[0]);
    }
  }

  // ---------------------------------------------------------------- the descent to the first leaf

  ghost predicate AllBelow(cmp: Cmp, es: seq<Entry>, start: Key) {
    forall i :: 0 <= i < |es| ==> cmp(es[i].0, start) < 0
  }

  lemma {:induction false} KidBelow(cmp: Cmp, t: Tree, lo: Bound, hi: Bound, start: Key, j: nat)
    requires TotalOrder(cmp) && Ordered(cmp, t, lo, hi) && WellShaped(t) && t.Branch?
    requires j < UpperBound(cmp, t.keys, start)
    ensures AllBelow(cmp, Entries(t.kids[j]), start)
  {
    var es := Entries(t.kids[j]);
    EntriesAscend(cmp, t.kids[j], KidLo(t.keys, lo, j), KidHi(t.keys, hi, j));
    forall i | 0 <= i < |es|
      ensures cmp(es[i].0, start) < 0
    {
      Transitive(cmp, es[i].0, t.keys[j], start);
    }
  }

  lemma {:induction false} RowBelow(cmp: Cmp, kids: seq<Tree>, start: Key)
    requires AllShaped(kids) && forall j :: 0 <= j < |kids| ==> AllBelow(cmp, Entries(kids[j]), start)
    ensures AllBelow(cmp, EntriesRow(kids), start)
  {
    if kids != [] {
      RowBelow(cmp, kids[1..], start);
    }
  }

  /** Children to the left of the path hold only keys below the start. */
  lemma {:induction false} SkippedBelow(cmp: Cmp, t: Tree, lo: Bound, hi: Bound, start: Key)
    requires TotalOrder(cmp) && Ordered(cmp, t, lo, hi) && WellShaped(t) && t.Branch?
    ensures AllBelow(cmp, EntriesRow(t.kids[..UpperBound(cmp, t.keys, start)]), start)
  {
    var skipped := t.kids[..UpperBound(cmp, t.keys, start)];
    forall j | 0 <= j < |skipped|
      ensures AllBelow(cmp, Entries(skipped[j]), start)
    {
      KidBelow(cmp, t, lo, hi, start, j);
    }
    RowBelow(cmp, skipped, start);
  }

  /** The empty key, which stands for no start, comes first. */
  ghost predicate EmptyFirst(cmp: Cmp) {
    forall k {:trigger cmp(k, [])} :: cmp(k, []) >= 0
  }

  lemma {:induction false} KidEntries(t: Tree, i: nat)
    requires WellShaped(t) && t.Branch? && i < |t.kids|
    ensures Entries(t) == EntriesRow(t.kids[..i]) + Entries(t.kids[i]) + EntriesRow(t.kids[i + 1..])
  {
    assert t.kids == t.kids[..i] + t.kids[i..] && t.kids[i..][1..] == t.kids[i + 1..];
    EntriesConcat(t.kids[..i], t.kids[i..]);
  }

  /** A visit passes over entries below the start. */
  lemma {:induction false} SkipPrefix(cmp: Cmp, a: seq<Entry>, b: seq<Entry>, start: Key, end: Key, visit: Visitor)
    requires EmptyFirst(cmp) && AllBelow(cmp, a, start)
    ensures Visit(cmp, a + b, start, end, visit, []) == Visit(cmp, b, start, end, visit, [])
  {
    if a == [] {
      assert a + b == b;
    } else if start == [] {
      NoneBelow(cmp, a);
    } else {
      VisitSkips(cmp, a, b, start, end, visit);
    }
  }

  lemma {:induction false} NoneBelow(cmp: Cmp, a: seq<Entry>)
    requires EmptyFirst(cmp) && a != []
    ensures !AllBelow(cmp, a, [])
  {
    var k := a[0].0;
    assert cmp(k, []) >= 0;
  }

  /** The leaves that remain to be visited after the child that a descent enters. */
  lemma {:induction false} DescendTail(m: Store, t: Tree, i: nat, tail: seq<Tree>)
    returns (tail': seq<Tree>)
    requires t.Branch? && WellShaped(t) && Stored(m, t) && NoPageZero(t) && i < |t.kids|
    requires AllShaped(tail) && LeafRow(m, tail) && ChainedRow(tail, 0) && Chained(t, FirstOf(tail, 0))
    ensures AllShaped(tail') && LeafRow(m, tail') && ChainedRow(tail', 0) && Chained(t.kids[i], FirstOf(tail', 0))
    ensures EntriesRow(tail') == EntriesRow(t.kids[i + 1..]) + EntriesRow(tail)
  {
    var next, post := FirstOf(tail, 0), t.kids[i + 1..];
    tail' := LeavesRow(post) + tail;
    KidsAfter(t, i, next);
    forall j | 0 <= j < |post|
      ensures Stored(m, post[j]) && NoPageZero(post[j])
    {
      assert post[j] == t.kids[i + 1 + j];
    }
    LeavesRowAre(m, post, next);
    RowConcat(LeavesRow(post), tail, 0);
    EntriesConcat(LeavesRow(post), tail);
  }

  lemma {:induction false} KidsAfter(t: Tree, i: nat, next: PageID)
    requires t.Branch? && WellShaped(t) && i < |t.kids| && Chained(t, next)
    ensures AllShaped(t.kids[i + 1..]) && ChainedRow(t.kids[i + 1..], next)
    ensures Chained(t.kids[i], FirstOf(t.kids[i + 1..], next))
  {
    var post := t.kids[i + 1..];
    RowAround(t.kids, i, [t.kids[i]], next);
    assert t.kids[..i] + [t.kids[i]] + post == t.kids;
    RowOne(t.kids[i], FirstOf(post, next));
  }

  /** A scan on its way down: it has reached `t`, and the leaves after `t` are `tail`. */
  ghost predicate Descending(cmp: Cmp, m: Store, t: Tree, tail: seq<Tree>) {
    && Stored(m, t) && WellShaped(t) && NoPageZero(t)
    && AllShaped(tail) && LeafRow(m, tail) && ChainedRow(tail, 0) && Chained(t, FirstOf(tail, 0))
  }

  /** One step down: what it leaves to the left is below the start. */
  lemma {:induction false} DescendStep(cmp: Cmp, m: Store, t: Tree, lo: Bound, hi: Bound, tail: seq<Tree>, start: Key)
    returns (skipped: seq<Entry>, tail': seq<Tree>)
    requires Descending(cmp, m, t, tail) && t.Branch? && TotalOrder(cmp) && Ordered(cmp, t, lo, hi)
    ensures var kid := t.kids[UpperBound(cmp, t.keys, start)];
            && Descending(cmp, m, kid, tail') && AllBelow(cmp, skipped, start)
            && Entries(t) + EntriesRow(tail) == skipped + (Entries(kid) + EntriesRow(tail'))
  {
    var i := UpperBound(cmp, t.keys, start);
    skipped := EntriesRow(t.kids[..i]);
    SkippedBelow(cmp, t, lo, hi, start);
    tail' := DescendTail(m, t, i, tail);
    SplitEntries(t, i, EntriesRow(tail), EntriesRow(tail'));
  }

  lemma {:induction false} SplitEntries(t: Tree, i: nat, rest: seq<Entry>, rest': seq<Entry>)
    requires WellShaped(t) && t.Branch? && i < |t.kids| && rest' == EntriesRow(t.kids[i + 1..]) + rest
    ensures Entries(t) + rest == EntriesRow(t.kids[..i]) + (Entries(t.kids[i]) + rest')
  {
    KidEntries(t, i);
    Regroup(EntriesRow(t.kids[..i]), Entries(t.kids[i]), EntriesRow(t.kids[i + 1..]), rest);
  }

  lemma {:induction false} Regroup(a: seq<Entry>, b: seq<Entry>, c: seq<Entry>, d: seq<Entry>)
    ensures a + b + c + d == a + (b + (c + d))
  {
  }

  lemma {:induction false} MoreSkipped(cmp: Cmp, skipped: seq<Entry>, more: seq<Entry>, rest: seq<Entry>, start: Key)
    requires AllBelow(cmp, skipped, start) && AllBelow(cmp, more, start)
    ensures AllBelow(cmp, skipped + more, start) && skipped + (more + rest) == skipped + more + rest
  {
  }

  /** The leaf reached, with the leaves after it. */
  lemma {:induction false} DescendEnd(cmp: Cmp, m: Store, t: Tree, tail: seq<Tree>)
    requires Descending(cmp, m, t, tail) && t.Leaf?
    ensures var leaves := [t] + tail;
            && AllShaped(leaves) && LeafRow(m, leaves) && ChainedRow(leaves, 0) && FirstOf(leaves, 0) == t.id
            && EntriesRow(leaves) == Entries(t) + EntriesRow(tail)
  {
    RowOne(t, FirstOf(tail, 0));
    RowConcat([t], tail, 0);
    LeafFirst(t, tail);
  }

  lemma {:induction false} LeafFirst(t: Tree, tail: seq<Tree>)
    requires t.Leaf? && WellShaped(t) && AllShaped(tail)
    ensures AllShaped([t] + tail) && FirstOf([t] + tail, 0) == t.id
    ensures EntriesRow([t] + tail) == Entries(t) + EntriesRow(tail)
  {
    assert ([t] + tail)[1..] == tail;
  }

  /** Visiting a row of leaves starts with the first of them and goes on with its right sibling. */
  lemma {:induction false} NextLeaf(cmp: Cmp, leaves: seq<Tree>, start: Key, end: Key, visit: Visitor, seen: seq<Entry>)
    requires leaves != [] && AllShaped(leaves) && leaves[0].Leaf? && ChainedRow(leaves, 0)
    ensures var (mid, stop) := Visit(cmp, LeafEntries(leaves[0].keys, leaves[0].ptrs), start, end, visit, seen);
            Visit(cmp, EntriesRow(leaves), start, end, visit, seen) == if stop then (mid, true)
              else Visit(cmp, EntriesRow(leaves[1..]), start, end, visit, mid)
    ensures AllShaped(leaves[1..]) && ChainedRow(leaves[1..], 0) && leaves[0].right == FirstOf(leaves[1..], 0)
  {
    VisitConcat(cmp, Entries(leaves[0]), EntriesRow(leaves[1..]), start, end, visit, seen);
  }
}
