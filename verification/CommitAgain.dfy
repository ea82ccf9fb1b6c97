/**
 Commits under a generation that the file has seen before, as recovery makes them when it replays a log over
 an existing index file. Nodes of that generation are then edited on their own pages, also when the
 trees last committed use them.

 From the second commit on all superblocks name the same catalog page, which every commit rewrites in
 place. Such a commit is atomic, whatever order it writes its pages in and wherever it stops, if and only if it
 changes no page of the committed trees, or the change of one such page is all there is.
 */
module CommitAgain {
  import opened Options
  import opened KeyOrder
  import opened PageFormat
  import opened CowTree
  import opened TreePages
  import opened PageStore
  import opened IndexFile
  import opened CommitCrash
  import opened Durability

  /** The disk shows `old_`, the cache holds `trees`, and every superblock names the catalog on page `cat`. */
  ghost predicate Settled(disk: Disk, m: Store, dirty: set<PageID>, old_: Trees, trees: Trees, cat: PageID) {
    && Shows(disk, old_) && cat >= 3 && (forall s: PageID :: s < 2 && ValidSlot(disk, s) ==> disk[s].catalog == cat)
    && AllStored(m, trees) && (forall p :: p in dirty ==> p in m && p >= 3 && p != cat)
    && (forall p :: Uses(trees, p) && p !in dirty ==> p in m && p in DiskNodes(disk) && DiskNodes(disk)[p] == m[p])
    && (forall p :: Uses(trees, p) || Uses(old_, p) ==> p >= 3 && p != cat)
  }

  /** Writing page `p` changes the disk. */
  ghost predicate Changes(disk: Disk, m: Store, dirty: set<PageID>, p: PageID) {
    p in dirty && p in m && !(p in DiskNodes(disk) && DiskNodes(disk)[p] == m[p])
  }

  /** Decided before the commit: no committed page changes, or one page makes all the difference. */
  ghost predicate SwitchesAtOnce(disk: Disk, m: Store, dirty: set<PageID>, old_: Trees, trees: Trees) {
    || (forall p :: Changes(disk, m, dirty, p) ==> !Uses(old_, p))
    || (Roots(trees) == Roots(old_) &&
        forall p, q :: Changes(disk, m, dirty, p) && Uses(old_, p) && Changes(disk, m, dirty, q) && Uses(trees, q) ==>
          p == q)
  }

  /** Two stores that hold the same tree agree on its pages. */
  lemma {:induction false} StoredAgree(m: Store, m': Store, t: Tree, p: PageID)
    requires Stored(m, t) && Stored(m', t) && Count(t, p) >= 1
    ensures p in m && p in m' && m[p] == m'[p]
    decreases t
  {
    if t.Branch? && p != t.id {
      var i := CountWitness(t.kids, p);
      StoredAgree(m, m', t.kids[i], p);
    }
  }

  lemma {:induction false} TreesAgree(m: Store, m': Store, trees: Trees, p: PageID)
    requires AllStored(m, trees) && AllStored(m', trees) && Uses(trees, p)
    ensures p in m && p in m' && m[p] == m'[p]
  {
    var n :| n in trees && Count(trees[n], p) >= 1;
    StoredAgree(m, m', trees[n], p);
  }

  /** Trees whose pages hold the same in another store are stored there too. */
  lemma {:induction false} TreesStored(m: Store, m': Store, trees: Trees)
    requires AllStored(m, trees) && forall p :: p in m && Uses(trees, p) ==> p in m' && m'[p] == m[p]
    ensures AllStored(m', trees)
  {
    forall n | n in trees
      ensures Stored(m', trees[n])
    {
      forall p | Count(trees[n], p) >= 1
        ensures p in m' && (p in m ==> m'[p] == m[p])
      {
        assert Uses(trees, p);
        StoredIn(m, trees[n], p);
      }
      StoredFrame(m, m', trees[n]);
    }
  }

  // ---------------------------------------------------------------- stopping among the node writes

  lemma {:induction false} OpensAsBefore(disk: Disk, m: Store, dirty: set<PageID>, old_: Trees, trees: Trees,
                                         cat: PageID, order: seq<PageID>)
    requires Settled(disk, m, dirty, old_, trees, cat) && forall i :: 0 <= i < |order| ==> order[i] in dirty
    ensures Reopen(WriteAll(disk, NodeWrites(m, order))) == Reopen(disk)
  {
    AfterNodeWrites(disk, m, order, 0);
    AfterNodeWrites(disk, m, order, 1);
    AfterNodeWrites(disk, m, order, cat);
  }

  /**
   As long as no committed page has changed the old trees show; when all changes are made, and the roots are
   the same, the new ones.
   */
  lemma {:induction false} StopsWhole(disk: Disk, m: Store, dirty: set<PageID>, old_: Trees, trees: Trees, cat: PageID,
                                      order: seq<PageID>)
    requires Settled(disk, m, dirty, old_, trees, cat) && SwitchesAtOnce(disk, m, dirty, old_, trees)
    requires forall i :: 0 <= i < |order| ==> order[i] in dirty
    ensures AfterCrash(WriteAll(disk, NodeWrites(m, order)), old_, trees)
  {
    var d := WriteAll(disk, NodeWrites(m, order));
    OpensAsBefore(disk, m, dirty, old_, trees, cat, order);
    forall p
      ensures p in order ==> p in d && d[p] == NodePage(m[p])
      ensures p !in order ==> (p in d <==> p in disk) && (p in disk ==> d[p] == disk[p])
    {
      AfterNodeWrites(disk, m, order, p);
    }
    if p :| p in order && Changes(disk, m, dirty, p) && Uses(old_, p) {
      forall q | q in m && Uses(trees, q)
        ensures q in DiskNodes(d) && DiskNodes(d)[q] == m[q]
      {
        assert Changes(disk, m, dirty, q) ==> q == p;
      }
      TreesStored(m, DiskNodes(d), trees);
    } else {
      forall q | q in DiskNodes(disk) && Uses(old_, q)
        ensures q in DiskNodes(d) && DiskNodes(d)[q] == DiskNodes(disk)[q]
      {
        assert q in order ==> !Changes(disk, m, dirty, q);
      }
      TreesStored(DiskNodes(disk), DiskNodes(d), old_);
    }
  }

  /** If a committed page changes and something else does, a crash right after the write of that page shows neither. */
  lemma {:induction false} StopsBetween(disk: Disk, m: Store, dirty: set<PageID>, old_: Trees, trees: Trees,
                                        cat: PageID, p: PageID, q: PageID)
    requires Settled(disk, m, dirty, old_, trees, cat) && Changes(disk, m, dirty, p) && Uses(old_, p)
    requires Roots(trees) == Roots(old_) ==> q != p && Changes(disk, m, dirty, q) && Uses(trees, q)
    ensures !AfterCrash(WriteAll(disk, NodeWrites(m, [p])), old_, trees)
  {
    var d := WriteAll(disk, NodeWrites(m, [p]));
    OpensAsBefore(disk, m, dirty, old_, trees, cat, [p]);
    AfterNodeWrites(disk, m, [p], p);
    AfterNodeWrites(disk, m, [p], q);
    if Shows(d, old_) {
      TreesAgree(DiskNodes(disk), DiskNodes(d), old_, p);
    }
    if Shows(d, trees) {
      assert Roots(trees) == Roots(old_);
      TreesAgree(m, DiskNodes(d), trees, q);
    }
  }

  // ---------------------------------------------------------------- stopping after the catalog

  /** A disk with all pages of the trees and the new catalog, whose superblocks name it, shows the trees. */
  lemma {:induction false} CatalogShows(m: Store, d: Disk, trees: Trees, cat: PageID)
    requires AllStored(m, trees) && forall p :: p in m && Uses(trees, p) ==> p in d && d[p] == NodePage(m[p])
    requires cat in d && d[cat].CatalogPage? && d[cat].roots == Roots(trees)
    requires (ValidSlot(d, 0) || ValidSlot(d, 1))
    requires forall s: PageID :: s < 2 && ValidSlot(d, s) ==> d[s].catalog == cat
    ensures Shows(d, trees)
  {
    TreesStored(m, DiskNodes(d), trees);
  }

  lemma {:induction false} NodesWritten(disk: Disk, m: Store, dirty: set<PageID>, old_: Trees, trees: Trees,
                                        cat: PageID, order: seq<PageID>, p: PageID)
    requires Settled(disk, m, dirty, old_, trees, cat) && Lists(order, dirty) && p in m && Uses(trees, p)
    ensures var d := WriteAll(disk, NodeWrites(m, order)); p >= 3 && p != cat && p in d && d[p] == NodePage(m[p])
  {
    AfterNodeWrites(disk, m, order, p);
  }

  /** Once the catalog is written the new trees show, whatever becomes of the superblock. */
  lemma {:induction false} AfterCatalog(disk: Disk, m: Store, dirty: set<PageID>, old_: Trees, trees: Trees,
                                        cat: PageID, order: seq<PageID>, w: Write, super: Page)
    requires Settled(disk, m, dirty, old_, trees, cat) && Lists(order, dirty)
    requires w.at == cat && w.page.CatalogPage? && w.page.roots == Roots(trees)
    requires super.Torn? || (super.SuperPage? && super.catalog == cat)
    ensures var d := WriteAll(disk, NodeWrites(m, order))[w.at := w.page];
            Shows(d, trees) && Shows(d[TargetSlot(disk) := super], trees)
  {
    var d := WriteAll(disk, NodeWrites(m, order))[w.at := w.page];
    var d' := d[TargetSlot(disk) := super];
    forall p | p in m && Uses(trees, p)
      ensures p in d && d[p] == NodePage(m[p]) && p in d' && d'[p] == NodePage(m[p])
    {
      NodesWritten(disk, m, dirty, old_, trees, cat, order, p);
    }
    SlotsName(disk, m, dirty, old_, trees, cat, order, w, super);
    CatalogShows(m, d, trees, cat);
    CatalogShows(m, d', trees, cat);
  }

  /** The superblocks still name the catalog, and one of them is valid. */
  lemma {:induction false} SlotsName(disk: Disk, m: Store, dirty: set<PageID>, old_: Trees, trees: Trees, cat: PageID,
                                     order: seq<PageID>, w: Write, super: Page)
    requires Settled(disk, m, dirty, old_, trees, cat) && Lists(order, dirty) && w.at == cat
    requires super.Torn? || (super.SuperPage? && super.catalog == cat)
    ensures var d := WriteAll(disk, NodeWrites(m, order))[w.at := w.page];
            var d' := d[TargetSlot(disk) := super];
            && (ValidSlot(d, 0) || ValidSlot(d, 1))
            && (forall s: PageID :: s < 2 && ValidSlot(d, s) ==> d[s].catalog == cat)
            && (ValidSlot(d', 0) || ValidSlot(d', 1))
            && (forall s: PageID :: s < 2 && ValidSlot(d', s) ==> d'[s].catalog == cat)
  {
    AfterNodeWrites(disk, m, order, 0);
    AfterNodeWrites(disk, m, order, 1);
  }

  /** The commit stops anywhere, having written its pages in this order. */
  ghost predicate WholeInOrder(disk: Disk, m: Store, old_: Trees, trees: Trees, order: seq<PageID>, w: Write, g: nat,
                               next: PageID)
    requires forall i :: 0 <= i < |order| ==> order[i] in m
  {
    var ws := CommitWrites(disk, m, order, w, g, next);
    forall k: nat, torn :: k <= |ws| ==> AfterCrash(CrashDisk(disk, ws, k, torn), old_, trees)
  }

  lemma {:induction false} WholePoint(disk: Disk, m: Store, dirty: set<PageID>, old_: Trees, trees: Trees, cat: PageID,
                                      order: seq<PageID>, w: Write, g: nat, next: PageID, k: nat, torn: bool)
    requires Settled(disk, m, dirty, old_, trees, cat) && SwitchesAtOnce(disk, m, dirty, old_, trees)
    requires Lists(order, dirty)
    requires w.at == cat && w.page.CatalogPage? && w.page.roots == Roots(trees) && k <= |order| + 2
    ensures AfterCrash(CrashDisk(disk, CommitWrites(disk, m, order, w, g, next), k, torn), old_, trees)
  {
    var ws, nodes := CommitWrites(disk, m, order, w, g, next), NodeWrites(m, order);
    if k <= |order| {
      assert ws[..k] == NodeWrites(m, order[..k]);
      StopsWhole(disk, m, dirty, old_, trees, cat, order[..k]);
    } else {
      AfterCatalog(disk, m, dirty, old_, trees, cat, order, w,
                   if k == |order| + 1 then Torn else SuperPage(g, w.at, next));
      CommitUnfolds(disk, m, order, w, g, next);
      assert ws[..|order| + 1][..|order|] == nodes;
      assert ws[..|ws|] == ws;
    }
  }

  /** A list of a set of pages that begins with a given one. */
  lemma {:induction false} ListedFirst(dirty: set<PageID>, p: PageID) returns (order: seq<PageID>)
    requires p in dirty
    ensures Lists(order, dirty) && order != [] && order[0] == p
    decreases |dirty|
  {
    if q :| q in dirty && q != p {
      var rest := ListedFirst(dirty - {p}, q);
      order := [p] + rest;
    } else {
      order := [p];
    }
  }

  /**
   Commits under any generation, from the second one on: atomic for every order of the writes and every point
   of a crash if and only if `SwitchesAtOnce` holds before them.
   */
  lemma {:induction false} AtomicIff(disk: Disk, m: Store, dirty: set<PageID>, old_: Trees, trees: Trees, cat: PageID,
                                     w: Write, g: nat, next: PageID)
    requires Settled(disk, m, dirty, old_, trees, cat) && w.at == cat && w.page.CatalogPage?
    requires w.page.roots == Roots(trees)
    ensures (forall order :: Lists(order, dirty) ==> WholeInOrder(disk, m, old_, trees, order, w, g, next))
            <==> SwitchesAtOnce(disk, m, dirty, old_, trees)
  {
    if SwitchesAtOnce(disk, m, dirty, old_, trees) {
      forall order | Lists(order, dirty)
        ensures WholeInOrder(disk, m, old_, trees, order, w, g, next)
      {
        forall k: nat, torn | k <= |order| + 2
          ensures AfterCrash(CrashDisk(disk, CommitWrites(disk, m, order, w, g, next), k, torn), old_, trees)
        {
          WholePoint(disk, m, dirty, old_, trees, cat, order, w, g, next, k, torn);
        }
      }
    } else {
      var order := BrokenOrder(disk, m, dirty, old_, trees, cat, w, g, next);
      assert Lists(order, dirty);
    }
  }

  lemma {:induction false} BrokenOrder(disk: Disk, m: Store, dirty: set<PageID>, old_: Trees, trees: Trees, cat: PageID,
                                       w: Write, g: nat, next: PageID)
    returns (order: seq<PageID>)
    requires Settled(disk, m, dirty, old_, trees, cat) && !SwitchesAtOnce(disk, m, dirty, old_, trees)
    ensures Lists(order, dirty) && !WholeInOrder(disk, m, old_, trees, order, w, g, next)
  {
    var p, q := Culprits(disk, m, dirty, old_, trees);
    order := ListedFirst(dirty, p);
    StopsBetween(disk, m, dirty, old_, trees, cat, p, q);
    var ws := CommitWrites(disk, m, order, w, g, next);
    assert ws[..1] == NodeWrites(m, [p]);
    assert CrashDisk(disk, ws, 1, false) == WriteAll(disk, ws[..1]);
  }

  lemma {:induction false} Culprits(disk: Disk, m: Store, dirty: set<PageID>, old_: Trees, trees: Trees)
    returns (p: PageID, q: PageID)
    requires !SwitchesAtOnce(disk, m, dirty, old_, trees)
    ensures Changes(disk, m, dirty, p) && Uses(old_, p)
    ensures Roots(trees) == Roots(old_) ==> q != p && Changes(disk, m, dirty, q) && Uses(trees, q)
  {
    if Roots(trees) == Roots(old_) {
      p, q :| Changes(disk, m, dirty, p) && Uses(old_, p) && Changes(disk, m, dirty, q) && Uses(trees, q) && p != q;
    } else {
      p :| Changes(disk, m, dirty, p) && Uses(old_, p);
      q := p;
    }
  }

  /** Under a rising generation no committed page changes: the case of `Durability.CommitAtomic`. */
  lemma {:induction false} RisingSwitches(disk: Disk, m: Store, dirty: set<PageID>, durable: Trees, f: File, g: nat)
    requires Recoverable(disk, m, dirty, durable, f, g)
    ensures SwitchesAtOnce(disk, m, dirty, durable, f.trees)
  {
    forall p | Uses(durable, p)
      ensures !Changes(disk, m, dirty, p)
    {
      assert Protected(disk, dirty, f, g, p);
    }
  }
}
