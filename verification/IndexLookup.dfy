/**
 Looking records up through the index file: the primary index by id, a unique index by value, and a
 non-unique index by a range scan that starts at the value and stops at the first other one.

 `Spells` says that the byte keys of the trees spell the entries of the abstract indexes. The lookups are
 proved to answer the abstract indexes; the scans ask for whole chains of leaves.
 */
module IndexLookup {
  import opened Options
  import opened KeyOrder
  import opened PageFormat
  import opened Values
  import opened Records
  import opened ShadowIndex
  import opened KeyCodec
  import opened KeyCompare
  import opened CowTree
  import opened TreeOrder
  import opened TreeChain
  import opened TreeRange
  import opened IndexFile
  import opened CommitCrash
  import opened SourceOrder
  import opened PagedFile

  const PRIMARY := "primary"

  /** The kinds of ids, and of the values of each index. */
  datatype Kinds = Kinds(id: Kind, values: map<string, Kind>)

  /** What a named tree holds; a missing one holds nothing. */
  function Held(m: Meaning, name: string): map<Key, Pointer> {
    if name in m then m[name] else map[]
  }

  ghost predicate SpellsIds(held: map<Key, Pointer>, ids: map<Value, Pointer>) {
    && (forall id :: id in ids ==> SerializeKey(id) in held && held[SerializeKey(id)] == ids[id])
    && (forall key :: key in held ==> exists id :: id in ids && SerializeKey(id) == key)
  }

  ghost predicate SpellsPairs(held: map<Key, Pointer>, pairs: map<Pair, Pointer>, name: string) {
    && (forall s, p :: (name, s, p) in pairs ==>
          SerializeComposite(s, p) in held && held[SerializeComposite(s, p)] == pairs[(name, s, p)])
    && (forall key :: key in held ==> exists s, p :: (name, s, p) in pairs && SerializeComposite(s, p) == key)
  }

  ghost predicate SpellsValues(held: map<Key, Pointer>, unique: map<(string, Value), Pointer>, name: string) {
    && (forall v :: (name, v) in unique ==> SerializeKey(v) in held && held[SerializeKey(v)] == unique[(name, v)])
    && (forall key :: key in held ==> exists v :: (name, v) in unique && SerializeKey(v) == key)
  }

  ghost predicate SpellsIndex(m: Meaning, schema: Schema, x: Indexes, i: nat)
    requires i < |schema|
  {
    var n := schema[i].name;
    if schema[i].unique then SpellsValues(Held(m, n), x.unique, n) else SpellsPairs(Held(m, n), x.pairs, n)
  }

  /** The named trees spell the indexes `x` of a table. */
  ghost predicate Spells(m: Meaning, schema: Schema, x: Indexes) {
    SpellsIds(Held(m, PRIMARY), x.primary) && forall i :: 0 <= i < |schema| ==> SpellsIndex(m, schema, x, i)
  }

  /** Ids can be read back, and the entries of a non-unique index are of its kind. */
  ghost predicate Kinded(kinds: Kinds, x: Indexes) {
    && (forall id :: id in x.primary ==> OfKind(id, kinds.id) && Storable(id))
    && (forall n, s, p :: (n, s, p) in x.pairs ==>
          n in kinds.values && OfKind(s, kinds.values[n]) && OfKind(p, kinds.id) && PlainParts(s, p))
  }

  // ---------------------------------------------------------------- scanning for one value

  /** The id that a scan for `v` takes from an entry. */
  function WantedId(v: Value, e: Entry): Option<Value> {
    match DeserializeComposite(e.0)
    case None => None
    case Some((s, p)) => if CompareValues(s, v) == 0 then Some(p) else None
  }

  function Wanted(v: Value): Visitor {
    (seen, e) => WantedId(v, e).Some?
  }

  function WantedIds(v: Value, es: seq<Entry>): seq<Value> {
    if es == [] then []
    else (if WantedId(v, es[0]).Some? then [WantedId(v, es[0]).value] else []) + WantedIds(v, es[1..])
  }

  lemma {:induction false} WantedIdsAre(v: Value, es: seq<Entry>, p: Value)
    ensures p in WantedIds(v, es) <==> exists i :: 0 <= i < |es| && WantedId(v, es[i]) == Some(p)
  {
    if es != [] {
      WantedIdsAre(v, es[1..], p);
      if i :| 0 <= i < |es| && WantedId(v, es[i]) == Some(p) {
        assert i > 0 ==> es[1..][i - 1] == es[i];
      }
      if i :| 0 <= i < |es[1..]| && WantedId(v, es[1..][i]) == Some(p) {
        assert es[i + 1] == es[1..][i];
      }
    }
  }

  lemma {:induction false} WantedConcat(v: Value, a: seq<Entry>, b: seq<Entry>)
    ensures WantedIds(v, a + b) == WantedIds(v, a) + WantedIds(v, b)
  {
    if a == [] {
      assert a + b == b;
      assert [] + WantedIds(v, b) == WantedIds(v, b);
    } else {
      assert (a + b)[0] == a[0] && (a + b)[1..] == a[1..] + b;
      WantedConcat(v, a[1..], b);
      Regroup(if WantedId(v, a[0]).Some? then [WantedId(v, a[0]).value] else [], WantedIds(v, a[1..]), WantedIds(v, b));
    }
  }

  lemma {:induction false} Regroup(a: seq<Value>, b: seq<Value>, c: seq<Value>)
    ensures a + b + c == a + (b + c)
  {
  }

  lemma {:induction false} WantedOne(v: Value, e: Entry)
    ensures WantedIds(v, [e]) == if WantedId(v, e).Some? then [WantedId(v, e).value] else []
  {
    var one := [e];
    assert one[1..] == [];
    assert WantedIds(v, one[1..]) == [];
  }

  /** Wanted entries come before all others. */
  ghost predicate WantedFirst(v: Value, es: seq<Entry>) {
    forall i, j :: 0 <= i < j < |es| && WantedId(v, es[j]).Some? ==> WantedId(v, es[i]).Some?
  }

  /** If they do, stopping at the first unwanted entry misses none. */
  lemma {:induction false} StopMissesNone(v: Value, es: seq<Entry>, seen: seq<Entry>)
    requires WantedFirst(v, es)
    ensures WantedIds(v, Shown(es, Wanted(v), seen)) == WantedIds(v, seen) + WantedIds(v, es)
    decreases |es|
  {
    if es == [] {
      assert WantedIds(v, seen) + [] == WantedIds(v, seen);
    } else {
      SeenOne(v, seen, es[0]);
      if WantedId(v, es[0]).Some? {
        StopMissesNone(v, es[1..], seen + [es[0]]);
        Regroup(WantedIds(v, seen), [WantedId(v, es[0]).value], WantedIds(v, es[1..]));
      } else {
        NoneWanted(v, es);
      }
    }
  }

  lemma {:induction false} SeenOne(v: Value, seen: seq<Entry>, e: Entry)
    ensures WantedIds(v, seen + [e]) ==
            WantedIds(v, seen) + (if WantedId(v, e).Some? then [WantedId(v, e).value] else [])
  {
    WantedConcat(v, seen, [e]);
    WantedOne(v, e);
  }

  lemma {:induction false} NoneWanted(v: Value, es: seq<Entry>)
    requires forall i :: 0 <= i < |es| ==> WantedId(v, es[i]).None?
    ensures WantedIds(v, es) == []
  {
    if es != [] {
      NoneWanted(v, es[1..]);
    }
  }

  /** The entries between two bounds are those of the list that lie in the range, in order. */
  lemma {:induction false} BetweenAre(cmp: Cmp, es: seq<Entry>, start: Key, end: Key, e: Entry)
    ensures e in Between(cmp, es, start, end) <==> e in es && InRange(cmp, e, start, end)
  {
    if es != [] {
      BetweenAre(cmp, es[1..], start, end, e);
      assert es == [es[0]] + es[1..];
    }
  }

  lemma {:induction false} BetweenAscend(cmp: Cmp, es: seq<Entry>, start: Key, end: Key)
    requires Ascending(cmp, es)
    ensures Ascending(cmp, Between(cmp, es, start, end))
  {
    if es != [] {
      var rest := Between(cmp, es[1..], start, end);
      assert Ascending(cmp, es[1..]);
      BetweenAscend(cmp, es[1..], start, end);
      forall i | 0 <= i < |rest|
        ensures cmp(es[0].0, rest[i].0) < 0
      {
        BetweenAre(cmp, es[1..], start, end, rest[i]);
        var j :| 0 <= j < |es[1..]| && es[1..][j] == rest[i];
        assert es[j + 1] == rest[i];
      }
    }
  }

  // ---------------------------------------------------------------- why the scan finds the ids of a value

  /** The key at which a scan for `v` starts. */
  function StartOf(v: Value): Key {
    SerializeComposite(v, Nil)
  }

  /** An entry of a non-unique index, with its parts. */
  ghost predicate EntryFor(k: Kind, l: Kind, e: Entry, s: Value, p: Value) {
    OfKind(s, k) && OfKind(p, l) && PlainParts(s, p) && e.0 == SerializeComposite(s, p)
  }

  /** A value that a scan of an index of this kind can be asked for. */
  predicate Askable(k: Kind, v: Value) {
    OfKind(v, k) && Marked(|SerializeKey(v)|)
  }

  ghost predicate SourceLike(cmp: Cmp, ik: IndexKind) {
    SameOn(cmp, Source(), KeysOfKind(ik))
  }

  /** What a scan for `v` takes from an entry. */
  lemma {:induction false} EntryWanted(k: Kind, l: Kind, e: Entry, s: Value, p: Value, v: Value)
    requires EntryFor(k, l, e, s, p) && OfKind(v, k)
    ensures WantedId(v, e) == if s == v then Some(p) else None
  {
    KindOrder(s, v);
    ShortStorable(s, p);
    CompositeRoundTrip(s, p, []);
    assert SerializeComposite(s, p) + [] == SerializeComposite(s, p);
  }

  /** And where the entry stands. */
  lemma {:induction false} EntryAgainstStart(cmp: Cmp, k: Kind, l: Kind, e: Entry, s: Value, p: Value, v: Value)
    requires SourceLike(cmp, Pairs(k, l)) && EntryFor(k, l, e, s, p) && Askable(k, v)
    ensures WantedId(v, e) == if s == v then Some(p) else None
    ensures cmp(e.0, StartOf(v)) == if s == v then 1 else CompareValues(s, v)
  {
    EntryWanted(k, l, e, s, p, v);
    KindOrder(s, v);
    assert PairOf(k, l, e.0, s, p) && PairOf(k, l, StartOf(v), v, Nil);
    assert e.0 in KeysOfKind(Pairs(k, l)) && StartOf(v) in KeysOfKind(Pairs(k, l));
    CompareComposites(s, p, v, Nil);
  }

  lemma {:induction false} ShortStorable(s: Value, p: Value)
    requires PlainParts(s, p)
    ensures Storable(s) && Storable(p)
  {
  }

  lemma {:induction false} EntryAgainstEntry(cmp: Cmp, k: Kind, l: Kind, e: Entry, s: Value, p: Value, f: Entry,
                                             t: Value, q: Value)
    requires SourceLike(cmp, Pairs(k, l)) && EntryFor(k, l, e, s, p) && EntryFor(k, l, f, t, q) && cmp(e.0, f.0) < 0
    ensures CompareValues(s, t) <= 0
  {
    assert PairOf(k, l, e.0, s, p) && PairOf(k, l, f.0, t, q);
    assert e.0 in KeysOfKind(Pairs(k, l)) && f.0 in KeysOfKind(Pairs(k, l));
    CompareComposites(s, p, t, q);
  }

  ghost predicate EntryOfKind(k: Kind, l: Kind, e: Entry) {
    exists s, p :: EntryFor(k, l, e, s, p)
  }

  /** Every entry of the list belongs to the kind of its index. */
  ghost predicate EntriesOf(k: Kind, l: Kind, es: seq<Entry>) {
    forall e :: e in es ==> EntryOfKind(k, l, e)
  }

  lemma {:induction false} ValueBefore(cmp: Cmp, k: Kind, l: Kind, e: Entry, f: Entry, v: Value)
    requires SourceLike(cmp, Pairs(k, l)) && EntryOfKind(k, l, e) && EntryOfKind(k, l, f) && Askable(k, v)
    requires cmp(e.0, StartOf(v)) >= 0 && cmp(e.0, f.0) < 0 && WantedId(v, f).Some?
    ensures WantedId(v, e).Some?
  {
    var s, p :| EntryFor(k, l, e, s, p);
    var t, q :| EntryFor(k, l, f, t, q);
    EntryAgainstStart(cmp, k, l, e, s, p, v);
    EntryWanted(k, l, f, t, q, v);
    EntryAgainstEntry(cmp, k, l, e, s, p, f, t, q);
    KindOrder(s, v);
  }

  /** From the start on, the entries of the value come first. */
  lemma {:induction false} ValueFirst(cmp: Cmp, k: Kind, l: Kind, es: seq<Entry>, v: Value)
    requires SourceLike(cmp, Pairs(k, l)) && Ascending(cmp, es) && EntriesOf(k, l, es) && Askable(k, v)
    requires forall i :: 0 <= i < |es| ==> cmp(es[i].0, StartOf(v)) >= 0
    ensures WantedFirst(v, es)
  {
    forall i, j | 0 <= i < j < |es| && WantedId(v, es[j]).Some?
      ensures WantedId(v, es[i]).Some?
    {
      ValueBefore(cmp, k, l, es[i], es[j], v);
    }
  }

  lemma {:induction false} ScanFindsIn(cmp: Cmp, k: Kind, l: Kind, es: seq<Entry>, v: Value, p: Value)
    requires SourceLike(cmp, Pairs(k, l)) && Ascending(cmp, es) && EntriesOf(k, l, es) && Askable(k, v)
    ensures p in WantedIds(v, Shown(Between(cmp, es, StartOf(v), []), Wanted(v), [])) <==>
            exists i :: 0 <= i < |es| && WantedId(v, es[i]) == Some(p)
  {
    var bs := Between(cmp, es, StartOf(v), []);
    RestOf(cmp, k, l, es, v);
    ValueFirst(cmp, k, l, bs, v);
    StopMissesNone(v, bs, []);
    assert [] + WantedIds(v, bs) == WantedIds(v, bs);
    WantedIdsAre(v, bs, p);
    if i :| 0 <= i < |bs| && WantedId(v, bs[i]) == Some(p) {
      BetweenAre(cmp, es, StartOf(v), [], bs[i]);
    }
    if i :| 0 <= i < |es| && WantedId(v, es[i]) == Some(p) {
      WantedInRest(cmp, k, l, es, v, i);
    }
  }

  lemma {:induction false} RestOf(cmp: Cmp, k: Kind, l: Kind, es: seq<Entry>, v: Value)
    requires Ascending(cmp, es) && EntriesOf(k, l, es)
    ensures var bs := Between(cmp, es, StartOf(v), []);
            Ascending(cmp, bs) && EntriesOf(k, l, bs) && forall i :: 0 <= i < |bs| ==> cmp(bs[i].0, StartOf(v)) >= 0
  {
    var bs := Between(cmp, es, StartOf(v), []);
    BetweenAscend(cmp, es, StartOf(v), []);
    forall e | e in bs
      ensures EntryOfKind(k, l, e) && cmp(e.0, StartOf(v)) >= 0
    {
      BetweenAre(cmp, es, StartOf(v), [], e);
    }
  }

  lemma {:induction false} WantedInRest(cmp: Cmp, k: Kind, l: Kind, es: seq<Entry>, v: Value, i: nat)
    requires SourceLike(cmp, Pairs(k, l)) && EntriesOf(k, l, es) && Askable(k, v) && i < |es|
    requires WantedId(v, es[i]).Some?
    ensures es[i] in Between(cmp, es, StartOf(v), [])
  {
    assert EntryOfKind(k, l, es[i]);
    var s, q :| EntryFor(k, l, es[i], s, q);
    EntryAgainstStart(cmp, k, l, es[i], s, q, v);
    BetweenAre(cmp, es, StartOf(v), [], es[i]);
  }

  /** The entries of a tree that spells a non-unique index. */
  ghost predicate Lists(es: seq<Entry>, held: map<Key, Pointer>) {
    forall key, ptr :: (key, ptr) in es <==> key in held && held[key] == ptr
  }

  /** A scan that starts at a value and stops at the first other one takes exactly the ids filed under it. */
  lemma {:induction false} ScanFinds(cmp: Cmp, kinds: Kinds, name: string, es: seq<Entry>, held: map<Key, Pointer>,
                                     x: Indexes, v: Value)
    requires name in kinds.values && SourceLike(cmp, Pairs(kinds.values[name], kinds.id))
    requires Askable(kinds.values[name], v)
    requires Ascending(cmp, es) && Lists(es, held) && SpellsPairs(held, x.pairs, name) && Kinded(kinds, x)
    ensures forall p :: p in WantedIds(v, Shown(Between(cmp, es, StartOf(v), []), Wanted(v), [])) <==>
            (name, v, p) in x.pairs
  {
    var k, l := kinds.values[name], kinds.id;
    forall e | e in es
      ensures EntryOfKind(k, l, e)
    {
      var i :| 0 <= i < |es| && es[i] == e;
      var s, p := PartsOf(kinds, name, es, held, x, i);
      assert EntryFor(k, l, e, s, p);
    }
    forall p
      ensures p in WantedIds(v, Shown(Between(cmp, es, StartOf(v), []), Wanted(v), [])) <==> (name, v, p) in x.pairs
    {
      ScanFindsIn(cmp, k, l, es, v, p);
      if i :| 0 <= i < |es| && WantedId(v, es[i]) == Some(p) {
        var s, q := PartsOf(kinds, name, es, held, x, i);
        EntryAgainstStart(cmp, k, l, es[i], s, q, v);
      }
      if (name, v, p) in x.pairs {
        EntryListed(cmp, kinds, name, es, held, x, v, p);
      }
    }
  }

  lemma {:induction false} PartsOf(kinds: Kinds, name: string, es: seq<Entry>, held: map<Key, Pointer>, x: Indexes,
                                   i: nat)
    returns (s: Value, p: Value)
    requires name in kinds.values && Lists(es, held) && SpellsPairs(held, x.pairs, name) && Kinded(kinds, x) && i < |es|
    ensures (name, s, p) in x.pairs && EntryFor(kinds.values[name], kinds.id, es[i], s, p)
  {
    assert (es[i].0, es[i].1) in es;
    assert es[i].0 in held;
    s, p :| (name, s, p) in x.pairs && SerializeComposite(s, p) == es[i].0;
  }

  lemma {:induction false} EntryListed(cmp: Cmp, kinds: Kinds, name: string, es: seq<Entry>, held: map<Key, Pointer>,
                                       x: Indexes, v: Value, p: Value)
    requires name in kinds.values && SourceLike(cmp, Pairs(kinds.values[name], kinds.id))
    requires Askable(kinds.values[name], v)
    requires Lists(es, held) && SpellsPairs(held, x.pairs, name) && Kinded(kinds, x) && (name, v, p) in x.pairs
    ensures exists i :: 0 <= i < |es| && WantedId(v, es[i]) == Some(p)
  {
    var e := (SerializeComposite(v, p), x.pairs[(name, v, p)]);
    assert e in es;
    var i :| 0 <= i < |es| && es[i] == e;
    EntryAgainstStart(cmp, kinds.values[name], kinds.id, e, v, p, v);
  }

  // ---------------------------------------------------------------- the open scan of the primary index

  /** An open scan shows everything if its visitor never stops it. */
  lemma {:induction false} OpenScan(cmp: Cmp, es: seq<Entry>, visit: Visitor, seen: seq<Entry>)
    requires forall seen', i :: 0 <= i < |es| ==> visit(seen', es[i])
    ensures Shown(Between(cmp, es, [], []), visit, seen) == seen + es
    decreases |es|
  {
    if es == [] {
      assert seen + es == seen;
    } else {
      assert forall i :: 0 <= i < |es[1..]| ==> es[1..][i] == es[i + 1];
      OpenScan(cmp, es[1..], visit, seen + [es[0]]);
      assert ([es[0]] + Between(cmp, es[1..], [], []))[1..] == Between(cmp, es[1..], [], []);
      assert seen + [es[0]] + es[1..] == seen + es;
    }
  }

  /** The id under which an entry of the primary index is filed. */
  function IdOf(e: Entry): Option<Value> {
    DeserializeKey(e.0)
  }

  /** An entry of the primary index. */
  ghost predicate FilesId(x: Indexes, e: Entry) {
    IdOf(e).Some? && IdOf(e).value in x.primary && e.1 == x.primary[IdOf(e).value]
  }

  /** A list of all entries of the primary index. */
  ghost predicate FilesIds(x: Indexes, es: seq<Entry>) {
    && (forall e :: e in es ==> FilesId(x, e))
    && (forall id :: id in x.primary ==> exists e :: e in es && IdOf(e) == Some(id))
  }

  /** A visitor that no entry of the primary index stops. */
  ghost predicate NeverStops(x: Indexes, visit: Visitor) {
    forall e: Entry, seen :: FilesId(x, e) ==> visit(seen, e)
  }

  lemma {:induction false} OpenScanIds(cmp: Cmp, x: Indexes, es: seq<Entry>, visit: Visitor)
    requires FilesIds(x, es) && NeverStops(x, visit)
    ensures Shown(Between(cmp, es, [], []), visit, []) == es
  {
    forall seen, i | 0 <= i < |es|
      ensures visit(seen, es[i])
    {
      assert FilesId(x, es[i]);
    }
    OpenScan(cmp, es, visit, []);
    assert [] + es == es;
  }

  lemma {:induction false} IdsAre(kinds: Kinds, es: seq<Entry>, held: map<Key, Pointer>, x: Indexes)
    requires Lists(es, held) && SpellsIds(held, x.primary) && Kinded(kinds, x)
    ensures FilesIds(x, es)
  {
    forall e | e in es
      ensures FilesId(x, e)
    {
      assert (e.0, e.1) in es;
      var id :| id in x.primary && SerializeKey(id) == e.0;
      KeyRoundTrip(id);
    }
    forall id | id in x.primary
      ensures exists e :: e in es && IdOf(e) == Some(id)
    {
      var e := (SerializeKey(id), x.primary[id]);
      assert e in es;
      KeyRoundTrip(id);
    }
  }

  // ---------------------------------------------------------------- the program

  /** The entries of a named tree, in order; a missing one has none. */
  ghost function EntriesIn(trees: Trees, name: string): seq<Entry>
    requires forall n :: n in trees ==> WellShaped(trees[n])
  {
    if name in trees then Entries(trees[name]) else []
  }

  lemma {:induction false} EntriesInAre(cmp: Cmp, f: File, name: string)
    requires TotalOrder(cmp) && ValidFile(cmp, f)
    ensures Ascending(cmp, EntriesIn(f.trees, name)) && Lists(EntriesIn(f.trees, name), Held(MeaningOf(f), name))
  {
    if name in f.trees {
      EntriesAscend(cmp, f.trees[name], Unbounded, Unbounded);
      forall key, ptr
        ensures (key, ptr) in Entries(f.trees[name]) <==>
                key in Contents(f.trees[name]) && Contents(f.trees[name])[key] == ptr
      {
        EntriesAre(cmp, f.trees[name], Unbounded, Unbounded, key, ptr);
      }
    }
  }

  /** The leaf chain of a tree is whole, so that a scan can follow it. */
  ghost predicate WholeChain(trees: Trees, name: string)
    requires forall n :: n in trees ==> WellShaped(trees[n])
  {
    name in trees ==> Chained(trees[name], 0)
  }

  /** The pointer under an id. */
  method FindId(file: DiskBPlusTree, id: Value, ghost x: Indexes) returns (r: Option<Pointer>)
    requires file.Valid() && SpellsIds(Held(MeaningOf(file.F()), PRIMARY), x.primary)
    modifies file`nodes
    ensures file.Valid() && file.View() == old(file.View())
    ensures r == if id in x.primary then Some(x.primary[id]) else None
  {
    r := file.FindNamed(PRIMARY, SerializeKey(id));
    ghost var held := Held(MeaningOf(file.F()), PRIMARY);
    if id !in x.primary && SerializeKey(id) in held {
      var other :| other in x.primary && SerializeKey(other) == SerializeKey(id);
      SerializeInjective(id, other);
    }
  }

  /** The pointer under a value of a unique index. */
  method FindValue(file: DiskBPlusTree, name: string, v: Value, ghost x: Indexes) returns (r: Option<Pointer>)
    requires file.Valid() && SpellsValues(Held(MeaningOf(file.F()), name), x.unique, name)
    modifies file`nodes
    ensures file.Valid() && file.View() == old(file.View())
    ensures r == if (name, v) in x.unique then Some(x.unique[(name, v)]) else None
  {
    r := file.FindNamed(name, SerializeKey(v));
    ghost var held := Held(MeaningOf(file.F()), name);
    if (name, v) !in x.unique && SerializeKey(v) in held {
      var other :| (name, other) in x.unique && SerializeKey(other) == SerializeKey(v);
      SerializeInjective(v, other);
    }
  }

  /** The ids under a value of a non-unique index. */
  method FindPairs(file: DiskBPlusTree, kinds: Kinds, name: string, v: Value, ghost x: Indexes)
    returns (ids: seq<Value>)
    requires file.Valid() && EmptyFirst(file.cmp) && WholeChain(file.trees, name)
    requires name in kinds.values && SourceLike(file.cmp, Pairs(kinds.values[name], kinds.id))
    requires Askable(kinds.values[name], v)
    requires SpellsPairs(Held(MeaningOf(file.F()), name), x.pairs, name) && Kinded(kinds, x)
    modifies file`nodes
    ensures file.Valid() && file.View() == old(file.View())
    ensures forall p :: p in ids <==> (name, v, p) in x.pairs
  {
    ghost var es, held := EntriesIn(file.trees, name), Held(MeaningOf(file.F()), name);
    EntriesInAre(file.cmp, file.F(), name);
    ScanFinds(file.cmp, kinds, name, es, held, x, v);
    var seen := file.RangeNamed(name, StartOf(v), [], Wanted(v));
    ids := CollectWanted(v, seen);
  }

  method CollectWanted(v: Value, seen: seq<Entry>) returns (ids: seq<Value>)
    ensures ids == WantedIds(v, seen)
  {
    ids := [];
    for i := 0 to |seen|
      invariant ids == WantedIds(v, seen[..i])
    {
      assert seen[..i + 1] == seen[..i] + [seen[i]];
      WantedConcat(v, seen[..i], [seen[i]]);
      WantedOne(v, seen[i]);
      var id := WantedId(v, seen[i]);
      if id.Some? {
        ids := ids + [id.value];
      }
    }
    assert seen[..|seen|] == seen;
  }

  /** All entries of the primary index, for a visitor that never stops. */
  method ScanIds(file: DiskBPlusTree, kinds: Kinds, visit: Visitor, ghost x: Indexes) returns (seen: seq<Entry>)
    requires file.Valid() && EmptyFirst(file.cmp) && WholeChain(file.trees, PRIMARY)
    requires SpellsIds(Held(MeaningOf(file.F()), PRIMARY), x.primary) && Kinded(kinds, x)
    requires NeverStops(x, visit)
    modifies file`nodes
    ensures file.Valid() && file.View() == old(file.View())
    ensures FilesIds(x, seen)
  {
    ghost var es := EntriesIn(file.trees, PRIMARY);
    EntriesInAre(file.cmp, file.F(), PRIMARY);
    IdsAre(kinds, es, Held(MeaningOf(file.F()), PRIMARY), x);
    OpenScanIds(file.cmp, x, es, visit);
    seen := file.RangeNamed(PRIMARY, [], [], visit);
  }
}
