/**
 The commit protocol on a disk of whole pages, and what a crash in the middle of it leaves.

 A commit writes the dirty nodes in any order, then the catalog, then the superblock slot that is
 not in use. The main theorem: at every point of that sequence, also with the last write torn,
 reopening the file shows the trees before the commit or the trees after it, complete.
 */
module CommitCrash {
  import opened Options
  import opened KeyOrder
  import opened PageFormat
  import opened CowTree
  import opened TreePages
  import opened PageStore
  import opened IndexFile

  type Trees = map<string, Tree>

  /** A page of the index file. `Torn` is a page that fails its checksum or has no known magic number. */
  datatype Page =
    | NodePage(node: Node)
    | CatalogPage(roots: map<string, PageID>, free: seq<PageID>)
    | SuperPage(gen: nat, catalog: PageID, next: PageID)
    | Torn

  type Disk = map<PageID, Page>

  function DiskNodes(disk: Disk): Store {
    map p | p in disk && disk[p].NodePage? :: disk[p].node
  }

  // ---------------------------------------------------------------- superblocks

  predicate ValidSlot(disk: Disk, s: PageID) {
    s in disk && disk[s].SuperPage?
  }

  /** The slot that opening the file follows: the valid one of higher generation, slot 0 on a tie. */
  function ActiveSlot(disk: Disk): Option<PageID> {
    if !ValidSlot(disk, 0) && !ValidSlot(disk, 1) then None
    else if !ValidSlot(disk, 0) then Some(1)
    else if !ValidSlot(disk, 1) then Some(0)
    else if disk[0].gen >= disk[1].gen then Some(0) else Some(1)
  }

  /** The slot that a commit overwrites: an invalid one, else the one of lower generation, slot 0 on a tie. */
  function TargetSlot(disk: Disk): PageID {
    if !ValidSlot(disk, 0) then 0
    else if !ValidSlot(disk, 1) then 1
    else if disk[0].gen <= disk[1].gen then 0 else 1
  }

  /** A commit overwrites the slot in use exactly if both slots are valid and of the same generation. */
  lemma {:induction false} OverwritesActive(disk: Disk)
    requires ValidSlot(disk, 0) || ValidSlot(disk, 1)
    ensures ActiveSlot(disk) == Some(TargetSlot(disk)) <==>
            ValidSlot(disk, 0) && ValidSlot(disk, 1) && disk[0].gen == disk[1].gen
    ensures ActiveSlot(disk).Some? && ValidSlot(disk, ActiveSlot(disk).value)
    ensures forall s: PageID :: s < 2 && ValidSlot(disk, s) ==> disk[s].gen <= disk[ActiveSlot(disk).value].gen
  {
  }

  datatype Opened = Opened(roots: map<string, PageID>, free: seq<PageID>, next: PageID, gen: nat, catalog: PageID)

  /** Opening an existing file. */
  function Reopen(disk: Disk): Option<Opened> {
    match ActiveSlot(disk)
    case None => None
    case Some(s) =>
      var sb := disk[s];
      if sb.catalog in disk && disk[sb.catalog].CatalogPage? then
        Some(Opened(disk[sb.catalog].roots, disk[sb.catalog].free, sb.next, sb.gen, sb.catalog))
      else None
  }

  // ---------------------------------------------------------------- what a disk shows

  function Roots(trees: Trees): map<string, PageID> {
    map n | n in trees :: trees[n].id
  }

  ghost predicate AllStored(m: Store, trees: Trees) {
    forall n :: n in trees ==> Stored(m, trees[n])
  }

  /** Opening the file yields exactly these trees. */
  ghost predicate Shows(disk: Disk, trees: Trees) {
    && Reopen(disk).Some? && Reopen(disk).value.roots == Roots(trees)
    && AllStored(DiskNodes(disk), trees)
  }

  /** A page store holds at most one tree under a root page. */
  lemma {:induction false} StoredUnique(m: Store, t: Tree, u: Tree)
    requires Stored(m, t) && Stored(m, u) && t.id == u.id
    ensures t == u
    decreases t
  {
    if t.Branch? {
      assert |t.kids| == |Ids(u.kids)|;
      forall i | 0 <= i < |t.kids|
        ensures t.kids[i] == u.kids[i]
      {
        assert Ids(t.kids)[i] == Ids(u.kids)[i];
        StoredUnique(m, t.kids[i], u.kids[i]);
      }
      assert t.kids == u.kids;
    }
  }

  /** So a disk shows at most one set of trees. */
  lemma {:induction false} ShowsUnique(disk: Disk, trees: Trees, trees': Trees)
    requires Shows(disk, trees) && Shows(disk, trees')
    ensures trees == trees'
  {
    assert trees.Keys == Roots(trees).Keys == Roots(trees').Keys == trees'.Keys;
    forall n | n in trees
      ensures trees[n] == trees'[n]
    {
      assert Roots(trees)[n] == Roots(trees')[n];
      StoredUnique(DiskNodes(disk), trees[n], trees'[n]);
    }
  }

  // ---------------------------------------------------------------- the state a commit starts from

  ghost predicate Uses(trees: Trees, p: PageID) {
    exists n :: n in trees && Count(trees[n], p) >= 1
  }

  /**
   The disk shows `old` through the catalog on page `cat`; the cache holds `trees`; pages not
   dirty are already on disk; and no dirty page belongs to `old`. Before the first commit the
   catalog is the empty one on page 2.
   */
  ghost predicate Ready(disk: Disk, m: Store, dirty: set<PageID>, old_: Trees, trees: Trees, cat: PageID) {
    && Shows(disk, old_) && Reopen(disk).value.catalog == cat
    && AllStored(m, trees)
    && (forall p :: p in dirty ==> p in m && p >= 3 && p != cat && !Uses(old_, p))
    && (forall p :: Uses(trees, p) && p !in dirty ==> p in m && p in DiskNodes(disk) && DiskNodes(disk)[p] == m[p])
    && (forall p :: Uses(trees, p) || Uses(old_, p) ==> p >= 3 && p != cat)
    && cat >= 2 && (cat == 2 ==> old_ == map[])
  }

  // ---------------------------------------------------------------- the writes

  datatype Write = Write(at: PageID, page: Page)

  function WriteAll(disk: Disk, ws: seq<Write>): Disk
    decreases |ws|
  {
    if ws == [] then disk else WriteAll(disk, ws[..|ws| - 1])[ws[|ws| - 1].at := ws[|ws| - 1].page]
  }

  function NodeWrites(m: Store, order: seq<PageID>): seq<Write>
    requires forall i :: 0 <= i < |order| ==> order[i] in m
  {
    seq(|order|, i requires 0 <= i < |order| => Write(order[i], NodePage(m[order[i]])))
  }

  /** All writes of a commit: dirty nodes in some order, the catalog, the superblock. */
  function CommitWrites(disk: Disk, m: Store, order: seq<PageID>, catalog: Write, g: nat, next: PageID): seq<Write>
    requires forall i :: 0 <= i < |order| ==> order[i] in m
  {
    NodeWrites(m, order) + [catalog] + [Write(TargetSlot(disk), SuperPage(g, catalog.at, next))]
  }

  /** `order` lists the dirty pages. */
  ghost predicate Lists(order: seq<PageID>, dirty: set<PageID>) {
    (forall i :: 0 <= i < |order| ==> order[i] in dirty) && (forall p :: p in dirty ==> p in order)
  }

  /** Where a page stands after some node writes: unchanged, or with its cached node. */
  lemma {:induction false} AfterNodeWrites(disk: Disk, m: Store, order: seq<PageID>, p: PageID)
    requires forall i :: 0 <= i < |order| ==> order[i] in m
    ensures var d := WriteAll(disk, NodeWrites(m, order));
            if p in order then p in d && d[p] == NodePage(m[p])
            else (p in d <==> p in disk) && (p in disk ==> d[p] == disk[p])
    decreases |order|
  {
    if order != [] {
      var init := order[..|order| - 1];
      assert NodeWrites(m, order)[..|order| - 1] == NodeWrites(m, init);
      AfterNodeWrites(disk, m, init, p);
      assert order == init + [order[|order| - 1]];
    }
  }

  lemma {:induction false} SlotsStay(disk: Disk, m: Store, order: seq<PageID>)
    requires forall i :: 0 <= i < |order| ==> order[i] in m && order[i] >= 2
    ensures TargetSlot(WriteAll(disk, NodeWrites(m, order))) == TargetSlot(disk)
  {
    AfterNodeWrites(disk, m, order, 0);
    AfterNodeWrites(disk, m, order, 1);
  }

  // ---------------------------------------------------------------- crash points

  /** Node writes leave the superblocks and the catalog alone, and every page of the old trees. */
  lemma {:induction false} NodesOnly(disk: Disk, m: Store, dirty: set<PageID>, old_: Trees, trees: Trees, cat: PageID,
                                     order: seq<PageID>)
    requires Ready(disk, m, dirty, old_, trees, cat)
    requires forall i :: 0 <= i < |order| ==> order[i] in dirty
    ensures var d := WriteAll(disk, NodeWrites(m, order));
            Shows(d, old_) && Reopen(d) == Reopen(disk) && ActiveSlot(d) == ActiveSlot(disk)
              && TargetSlot(d) == TargetSlot(disk)
  {
    var d := WriteAll(disk, NodeWrites(m, order));
    forall p | p !in dirty
      ensures (p in d <==> p in disk) && (p in disk ==> d[p] == disk[p])
    {
      AfterNodeWrites(disk, m, order, p);
    }
    forall n | n in old_
      ensures Stored(DiskNodes(d), old_[n])
    {
      KeepsStored(DiskNodes(disk), DiskNodes(d), old_, n, dirty);
    }
  }

  lemma {:induction false} KeepsStored(m: Store, m': Store, trees: Trees, n: string, w: set<PageID>)
    requires n in trees && Stored(m, trees[n])
    requires forall p :: p in w ==> !Uses(trees, p)
    requires forall p :: p in m && p !in w ==> p in m' && m'[p] == m[p]
    ensures Stored(m', trees[n])
  {
    forall p | Count(trees[n], p) >= 1
      ensures p in m' && (p in m ==> m'[p] == m[p])
    {
      assert Uses(trees, p);
      StoredIn(m, trees[n], p);
    }
    StoredFrame(m, m', trees[n]);
  }

  /** Once all dirty nodes are written, the new trees are on disk, wherever the catalog and the superblock go. */
  lemma {:induction false} NewOnDisk(disk: Disk, m: Store, dirty: set<PageID>, old_: Trees, trees: Trees, cat: PageID,
                                     order: seq<PageID>, d': Disk)
    requires Ready(disk, m, dirty, old_, trees, cat) && Lists(order, dirty)
    requires var d := WriteAll(disk, NodeWrites(m, order));
             forall p :: p in d && Uses(trees, p) ==> p in d' && d'[p] == d[p]
    ensures AllStored(DiskNodes(d'), trees)
  {
    forall n | n in trees
      ensures Stored(DiskNodes(d'), trees[n])
    {
      forall p | Count(trees[n], p) >= 1
        ensures p in DiskNodes(d') && (p in m ==> DiskNodes(d')[p] == m[p])
      {
        assert Uses(trees, p);
        AfterNodeWrites(disk, m, order, p);
      }
      StoredFrame(m, DiskNodes(d'), trees[n]);
    }
  }

  /** The catalog page a commit writes: all roots, and as much of the free list as `keep` says. */
  function CatalogWrite(trees: Trees, at: PageID, free: seq<PageID>, keep: nat): Write
    requires keep <= |free|
  {
    Write(at, CatalogPage(Roots(trees), free[..keep]))
  }

  /** How many bytes a character takes in UTF-8, and how many a name takes. */
  function CharSize(c: char): nat {
    var code := c as int;
    if code < 0x80 then 1 else if code < 0x800 then 2 else if code < 0x1_0000 then 3 else 4
  }

  function NameSize(name: string): nat {
    if name == "" then 0 else CharSize(name[0]) + NameSize(name[1..])
  }

  /** Where the roots end on a catalog page: a header of 48 bytes, then 20 bytes and the name for each. */
  ghost function CatalogEnd(names: set<string>): nat {
    if names == {} then HEADER_SIZE
    else
      var n :| n in names;
      CatalogEnd(names - {n}) + 20 + NameSize(n)
  }

  lemma {:induction false} CatalogEndOne(names: set<string>, n: string)
    requires n in names
    ensures CatalogEnd(names) == CatalogEnd(names - {n}) + 20 + NameSize(n)
    decreases names
  {
    var k :| k in names && CatalogEnd(names) == CatalogEnd(names - {k}) + 20 + NameSize(k);
    if k != n {
      CatalogEndOne(names - {k}, n);
      CatalogEndOne(names - {n}, k);
      assert names - {k} - {n} == names - {n} - {k};
    }
  }

  /** The page ends four bytes early for the roots, and the free list has a four-byte count. */
  const CATALOG_LIMIT: nat := PAGE_SIZE - 4

  /** How many free pages still go on a catalog page whose roots end at `end`. */
  function FreeRoom(end: nat): nat {
    if end > CATALOG_LIMIT - 4 then 0 else (CATALOG_LIMIT - 4 - end) / 8
  }

  /** The part of the free list that a catalog page with these names keeps. */
  ghost function FreeKept(names: set<string>, free: seq<PageID>): (n: nat)
    ensures n <= |free|
  {
    if |free| <= FreeRoom(CatalogEnd(names)) then |free| else FreeRoom(CatalogEnd(names))
  }

  /** Lay out the roots, giving up as soon as one does not fit. */
  method LayOutRoots(names: set<string>) returns (fits: bool, end: nat)
    ensures fits <==> CatalogEnd(names) <= 16380
    ensures fits ==> end == CatalogEnd(names)
  {
    var todo := names;
    end, fits := HEADER_SIZE, true;
    while todo != {}
      invariant todo <= names && end + CatalogEnd(todo) == CatalogEnd(names) + HEADER_SIZE
      invariant HEADER_SIZE <= end <= CATALOG_LIMIT
      decreases todo
    {
      var n :| n in todo;
      CatalogEndOne(todo, n);
      CatalogEndLeast(todo - {n});
      if end + 20 + NameSize(n) > CATALOG_LIMIT {
        return false, end;
      }
      end, todo := end + 20 + NameSize(n), todo - {n};
    }
  }

  lemma {:induction false} CatalogEndLeast(names: set<string>)
    ensures CatalogEnd(names) >= HEADER_SIZE
    decreases names
  {
    if names != {} {
      var n :| n in names && CatalogEnd(names) == CatalogEnd(names - {n}) + 20 + NameSize(n);
      CatalogEndLeast(names - {n});
      assert NameSize(n) >= 0;
    }
  }

  /** The new catalog goes over the old one, or, at the first commit, to a page of its own. */
  ghost predicate CatalogPlace(old_: Trees, trees: Trees, cat: PageID, at: PageID) {
    at >= 3 && !Uses(trees, at) && (cat >= 3 ==> at == cat)
  }

  /** After the catalog write: the new trees if it replaced the old catalog, else still the old ones. */
  lemma {:induction false} CatalogWritten(disk: Disk, m: Store, dirty: set<PageID>, old_: Trees, trees: Trees,
                                          cat: PageID, order: seq<PageID>, w: Write)
    requires Ready(disk, m, dirty, old_, trees, cat) && Lists(order, dirty)
    requires CatalogPlace(old_, trees, cat, w.at) && w.page.CatalogPage? && w.page.roots == Roots(trees)
    ensures var d := WriteAll(disk, NodeWrites(m, order))[w.at := w.page];
            && Shows(d, if cat >= 3 then trees else old_) && Reopen(d).value.catalog == cat
            && AllStored(DiskNodes(d), trees)
            && ActiveSlot(d) == ActiveSlot(disk) && TargetSlot(d) == TargetSlot(disk)
            && (forall s: PageID :: s < 2 ==> (s in d <==> s in disk) && (s in disk ==> d[s] == disk[s]))
  {
    var d0 := WriteAll(disk, NodeWrites(m, order));
    var d := d0[w.at := w.page];
    NodesOnly(disk, m, dirty, old_, trees, cat, order);
    NewOnDisk(disk, m, dirty, old_, trees, cat, order, d);
    forall s: PageID | s < 2
      ensures (s in d <==> s in disk) && (s in disk ==> d[s] == disk[s])
    {
      AfterNodeWrites(disk, m, order, s);
    }
    AfterNodeWrites(disk, m, order, 2);
  }

  /** The superblock write makes the new catalog active when its generation is above the other slot's. */
  lemma {:induction false} SuperWritten(d: Disk, g: nat, at: PageID, next: PageID, trees: Trees)
    requires AllStored(DiskNodes(d), trees) && ActiveSlot(d).Some?
    requires forall s: PageID :: s < 2 && ValidSlot(d, s) ==> d[s].gen < g
    requires at >= 3 && at in d && d[at].CatalogPage? && d[at].roots == Roots(trees)
    requires forall p :: Uses(trees, p) ==> p >= 3
    ensures var d' := d[TargetSlot(d) := SuperPage(g, at, next)];
            Shows(d', trees) && Reopen(d').value.catalog == at && Reopen(d').value.next == next
              && Reopen(d').value.gen == g
  {
    var s := TargetSlot(d);
    var d' := d[s := SuperPage(g, at, next)];
    assert ActiveSlot(d') == Some(s);
    forall n | n in trees
      ensures Stored(DiskNodes(d'), trees[n])
    {
      KeepsStored(DiskNodes(d), DiskNodes(d'), trees, n, {0, 1});
    }
  }

  /** A torn superblock write loses only the slot that was not in use. */
  lemma {:induction false} SuperTorn(d: Disk, trees: Trees)
    requires Shows(d, trees) && (ValidSlot(d, 0) && ValidSlot(d, 1) ==> d[0].gen != d[1].gen)
    requires Reopen(d).value.catalog >= 2 && forall p :: Uses(trees, p) ==> p >= 3
    ensures Shows(d[TargetSlot(d) := Torn], trees) && Reopen(d[TargetSlot(d) := Torn]) == Reopen(d)
  {
    var d' := d[TargetSlot(d) := Torn];
    assert ActiveSlot(d') == ActiveSlot(d);
    forall n | n in trees
      ensures Stored(DiskNodes(d'), trees[n])
    {
      KeepsStored(DiskNodes(d), DiskNodes(d'), trees, n, {0, 1});
    }
  }

  /** The disk after the first `k` writes of a commit, the next one torn if it is the superblock and `torn`. */
  function CrashDisk(disk: Disk, ws: seq<Write>, k: nat, torn: bool): Disk
    requires k <= |ws|
  {
    var d := WriteAll(disk, ws[..k]);
    if torn && k == |ws| - 1 then d[ws[k].at := Torn] else d
  }

  /**
   Crash atomicity. Wherever the commit stops, reopening shows the old trees or the new trees;
   if it ran to the end, the new ones.
   */
  lemma {:induction false} CrashAtomic(disk: Disk, m: Store, dirty: set<PageID>, old_: Trees, trees: Trees, cat: PageID,
                                       order: seq<PageID>, w: Write, g: nat, next: PageID, k: nat, torn: bool)
    requires Ready(disk, m, dirty, old_, trees, cat) && Lists(order, dirty)
    requires CatalogPlace(old_, trees, cat, w.at) && w.page.CatalogPage? && w.page.roots == Roots(trees)
    requires forall s: PageID :: s < 2 && ValidSlot(disk, s) ==> disk[s].gen < g
    requires ValidSlot(disk, 0) && ValidSlot(disk, 1) ==> disk[0].gen != disk[1].gen
    requires k <= |order| + 2
    ensures var ws := CommitWrites(disk, m, order, w, g, next);
            var d := CrashDisk(disk, ws, k, torn);
            && (Shows(d, old_) || Shows(d, trees))
            && (k == |ws| ==> Shows(d, trees))
  {
    var ws := CommitWrites(disk, m, order, w, g, next);
    var nodes := NodeWrites(m, order);
    if k <= |order| {
      assert ws[..k] == NodeWrites(m, order[..k]);
      NodesOnly(disk, m, dirty, old_, trees, cat, order[..k]);
    } else {
      var d := WriteAll(disk, nodes)[w.at := w.page];
      CatalogWritten(disk, m, dirty, old_, trees, cat, order, w);
      assert ws[..|order| + 1][..|order|] == nodes;
      assert WriteAll(disk, ws[..|order| + 1]) == d;
      if k == |order| + 1 {
        if torn {
          SuperTorn(d, if cat >= 3 then trees else old_);
        }
      } else {
        assert ws[..k] == ws && ws[..|ws| - 1] == ws[..|order| + 1];
        SuperWritten(d, g, w.at, next, trees);
      }
    }
  }

  // ---------------------------------------------------------------- generations that do not rise

  /** Whether a superblock of generation `g` in the slot a commit writes is the one that opening follows. */
  predicate Wins(disk: Disk, g: nat) {
    var t := TargetSlot(disk);
    ValidSlot(disk, 1 - t) ==> if t == 0 then g >= disk[1].gen else g > disk[0].gen
  }

  /**
   A whole commit under any generation: the new trees show if and only if the new superblock wins, or
   the catalog was rewritten in place, or nothing changed.
   */
  lemma {:induction false} CommitVisible(disk: Disk, m: Store, dirty: set<PageID>, old_: Trees, trees: Trees,
                                         cat: PageID, order: seq<PageID>, w: Write, g: nat, next: PageID)
    requires Ready(disk, m, dirty, old_, trees, cat) && Lists(order, dirty)
    requires CatalogPlace(old_, trees, cat, w.at) && w.page.CatalogPage? && w.page.roots == Roots(trees)
    requires ValidSlot(disk, 0) && ValidSlot(disk, 1) ==> disk[0].gen != disk[1].gen
    ensures Shows(WriteAll(disk, CommitWrites(disk, m, order, w, g, next)), trees) <==>
            Wins(disk, g) || cat >= 3 || trees == old_
  {
    var d := WriteAll(disk, NodeWrites(m, order))[w.at := w.page];
    CatalogWritten(disk, m, dirty, old_, trees, cat, order, w);
    CommitUnfolds(disk, m, order, w, g, next);
    assert Wins(d, g) == Wins(disk, g) && TargetSlot(d) == TargetSlot(disk);
    SuperAny(d, g, w.at, next, old_, trees, cat);
  }

  /** A whole commit, write by write. */
  lemma {:induction false} CommitUnfolds(disk: Disk, m: Store, order: seq<PageID>, w: Write, g: nat, next: PageID)
    requires forall i :: 0 <= i < |order| ==> order[i] in m
    ensures WriteAll(disk, CommitWrites(disk, m, order, w, g, next)) ==
            WriteAll(disk, NodeWrites(m, order))[w.at := w.page][TargetSlot(disk) := SuperPage(g, w.at, next)]
  {
    var ws := CommitWrites(disk, m, order, w, g, next);
    var nodes := NodeWrites(m, order);
    assert ws[..|ws| - 1] == nodes + [w] && (nodes + [w])[..|nodes|] == nodes;
  }

  lemma {:induction false} SuperAny(d: Disk, g: nat, at: PageID, next: PageID, old_: Trees, trees: Trees, cat: PageID)
    requires Shows(d, if cat >= 3 then trees else old_) && AllStored(DiskNodes(d), trees)
    requires ValidSlot(d, 0) && ValidSlot(d, 1) ==> d[0].gen != d[1].gen
    requires at >= 3 && at in d && d[at].CatalogPage? && d[at].roots == Roots(trees)
    requires forall p :: Uses(trees, p) || Uses(old_, p) ==> p >= 3
    requires Reopen(d).value.catalog >= 2
    ensures Shows(d[TargetSlot(d) := SuperPage(g, at, next)], trees) <==> Wins(d, g) || cat >= 3 || trees == old_
  {
    var d' := d[TargetSlot(d) := SuperPage(g, at, next)];
    forall ts, n | (ts == trees || ts == old_) && n in ts && Stored(DiskNodes(d), ts[n])
      ensures Stored(DiskNodes(d'), ts[n])
    {
      KeepsStored(DiskNodes(d), DiskNodes(d'), ts, n, {0, 1});
    }
    if Wins(d, g) {
      assert ActiveSlot(d') == Some(TargetSlot(d));
    } else {
      assert ActiveSlot(d') == ActiveSlot(d);
      if cat < 3 && Shows(d', trees) {
        ShowsUnique(d', trees, old_);
      }
    }
  }
}
