/**
 Validation of unique indexes before a commit: it looks only at the staged records, at the values the
 transaction releases, and at the unique index, and it is exact.
 */
module UniqueCheck {
  import opened Options
  import opened PageFormat
  import opened Values
  import opened Records
  import opened ShadowIndex
  import opened Overlay

  /** No two records of `t` have the same non-nil value in `field`. */
  ghost predicate ClashFree(field: string, t: Table) {
    forall j, k :: j in t && k in t && Field(t[j], field) != Nil && Field(t[j], field) == Field(t[k], field) ==> j == k
  }

  function StagedRecords(c: Changes): Table {
    c.inserts + c.updates
  }

  /** The committed records that the transaction leaves alone. */
  function Untouched(committed: Table, c: Changes): Table {
    if c.cleared then map[] else committed - c.deletes - c.updates.Keys
  }

  lemma {:induction false} ViewParts(committed: Table, c: Changes)
    requires Proper(committed, c)
    ensures View(committed, c) == Untouched(committed, c) + StagedRecords(c)
    ensures Untouched(committed, c).Keys !! StagedRecords(c).Keys
  {
  }

  ghost predicate DistinctNames(schema: Schema) {
    forall i, j :: 0 <= i < j < |schema| ==> schema[i].name != schema[j].name
  }

  /** With distinct index names, an entry of index `i` is a value of its field. */
  lemma {:induction false} EntryMeans(schema: Schema, i: nat, r: Rec, v: Value)
    requires DistinctNames(schema) && i < |schema| && schema[i].unique && v != Nil
    ensures (schema[i].name, v) in UniquesOf(schema, r) <==> Field(r, schema[i].field) == v
  {
  }

  // ---------------------------------------------------------------- what the check tracks

  /** `added` maps the values of the staged records in `done` to their ids. */
  ghost predicate Tracks(field: string, staged: Table, done: set<Value>, added: map<Value, Value>) {
    && done <= staged.Keys
    && (forall v :: v in added ==> v != Nil && added[v] in done && Field(staged[added[v]], field) == v)
    && (forall k :: k in done && Field(staged[k], field) != Nil ==>
          Field(staged[k], field) in added && added[Field(staged[k], field)] == k)
  }

  /** No record of `done` shares its value with an untouched one. */
  ghost predicate Apart(field: string, untouched: Table, staged: Table, done: set<Value>) {
    forall j, k :: j in untouched && k in done && k in staged && Field(staged[k], field) != Nil ==>
      Field(untouched[j], field) != Field(staged[k], field)
  }

  /** `removed` holds the values that the transaction releases. */
  ghost predicate Releases(field: string, committed: Table, keys: set<Value>, removed: set<Value>) {
    forall v :: v in removed <==> v != Nil && exists k :: k in keys && k in committed && Field(committed[k], field) == v
  }

  lemma {:induction false} AllTracked(field: string, committed: Table, c: Changes, added: map<Value, Value>)
    requires Proper(committed, c) && ClashFree(field, committed)
    requires Tracks(field, StagedRecords(c), StagedRecords(c).Keys, added)
    requires Apart(field, Untouched(committed, c), StagedRecords(c), StagedRecords(c).Keys)
    ensures ClashFree(field, View(committed, c))
  {
    var t, outer, staged := View(committed, c), Untouched(committed, c), StagedRecords(c);
    ViewParts(committed, c);
    forall j, k | j in t && k in t && Field(t[j], field) != Nil && Field(t[j], field) == Field(t[k], field)
      ensures j == k
    {
      assert if j in staged then t[j] == staged[j] else j in outer && t[j] == outer[j] == committed[j];
      assert if k in staged then t[k] == staged[k] else k in outer && t[k] == outer[k] == committed[k];
    }
  }

  // ---------------------------------------------------------------- the check

  /** The committed record under `key`, read through the primary index. */
  function ReadCommitted(x: Indexes, read: Reader, key: Value): Option<Rec> {
    if key in x.primary then read(x.primary[key]) else None
  }

  /** Collect the values that the records under `keys` hold in `field`. */
  method CollectReleased(x: Indexes, read: Reader, field: string, keys: set<Value>, ghost committed: Table)
    returns (removed: set<Value>)
    requires PrimaryAgrees(read, x, committed)
    ensures Releases(field, committed, keys, removed)
  {
    var todo := keys;
    removed := {};
    while todo != {}
      invariant todo <= keys && Releases(field, committed, keys - todo, removed)
      decreases todo
    {
      var k :| k in todo;
      var old_ := ReadCommitted(x, read, k);
      ghost var done, before := keys - todo, removed;
      if old_.Some? {
        var v := Field(old_.value, field);
        if v != Nil {
          removed := removed + {v};
        }
      }
      ReleaseOne(field, committed, done, k, before, removed);
      todo := todo - {k};
      assert keys - todo == done + {k};
    }
    assert keys - todo == keys;
  }

  lemma {:induction false} ReleaseOne(field: string, committed: Table, done: set<Value>, k: Value, before: set<Value>,
                                      after: set<Value>)
    requires Releases(field, committed, done, before)
    requires after == before + if k in committed && Field(committed[k], field) != Nil then {Field(committed[k], field)}
             else {}
    ensures Releases(field, committed, done + {k}, after)
  {
  }

  /** One staged record against the staged ones before it and against the index. */
  method CheckConflict(m: IndexMeta, x: Indexes, read: Reader, cleared: bool, removed: set<Value>,
                       added: map<Value, Value>, key: Value, v: Value)
    returns (ok: bool, added': map<Value, Value>)
    ensures v == Nil ==> ok && added' == added
    ensures v != Nil && v in added ==> (ok <==> added[v] == key) && added' == added
    ensures v != Nil && v !in added ==>
            (ok <==> !IndexConflict(m, x, read, cleared, removed, key, v)) && (ok ==> added' == added[v := key])
  {
    if v == Nil { return true, added; }
    if v in added { return added[v] == key, added; }
    if !cleared && v !in removed && (m.name, v) in x.unique {
      var found := read(x.unique[(m.name, v)]);
      if found.Some? && found.value.id != key { return false, added; }
    }
    return true, added[v := key];
  }

  /** The index names a record that keeps the value and is not the one under `key`. */
  predicate IndexConflict(m: IndexMeta, x: Indexes, read: Reader, cleared: bool, removed: set<Value>, key: Value,
                          v: Value) {
    && !cleared && v !in removed && (m.name, v) in x.unique
    && read(x.unique[(m.name, v)]).Some? && read(x.unique[(m.name, v)]).value.id != key
  }

  // ---------------------------------------------------------------- exactness

  /** What the check may rely on: index `i` of the schema, and an agreeing committed state. */
  ghost predicate Ready(schema: Schema, i: nat, x: Indexes, read: Reader, committed: Table, c: Changes) {
    && DistinctNames(schema) && i < |schema| && schema[i].unique
    && Proper(committed, c) && ClashFree(schema[i].field, committed)
    && PrimaryAgrees(read, x, committed) && UniqueAgrees(schema, x, committed)
  }

  /** The index conflicts exactly when an untouched record has the value. */
  lemma {:induction false} ConflictMeans(schema: Schema, i: nat, x: Indexes, read: Reader, committed: Table,
                                         c: Changes, removed: set<Value>, key: Value, v: Value)
    requires Ready(schema, i, x, read, committed, c) && v != Nil && key in StagedRecords(c)
    requires !c.cleared ==> Releases(schema[i].field, committed, c.deletes + c.updates.Keys, removed)
    ensures var outer := Untouched(committed, c);
            IndexConflict(schema[i], x, read, c.cleared, removed, key, v) <==>
            exists j :: j in outer && Field(outer[j], schema[i].field) == v
  {
    var outer, field, u := Untouched(committed, c), schema[i].field, (schema[i].name, v);
    if IndexConflict(schema[i], x, read, c.cleared, removed, key, v) {
      assert HeldBySome(schema, committed, u);
      var k :| Holds(schema, committed, k, u);
      EntryMeans(schema, i, committed[k], v);
      assert k in outer;
    }
    if j :| j in outer && Field(outer[j], field) == v {
      ViewParts(committed, c);
      EntryMeans(schema, i, committed[j], v);
      assert Holds(schema, committed, j, u);
      assert v !in removed;
    }
  }

  /** Two staged records with one value clash in the view. */
  lemma {:induction false} StagedClash(field: string, committed: Table, c: Changes, j: Value, k: Value)
    requires Proper(committed, c) && j in StagedRecords(c) && j != k && Field(StagedRecords(c)[j], field) != Nil
    requires k in View(committed, c) && Field(View(committed, c)[k], field) == Field(StagedRecords(c)[j], field)
    ensures !ClashFree(field, View(committed, c))
  {
    var t := View(committed, c);
    ViewParts(committed, c);
    assert t[j] == StagedRecords(c)[j];
  }

  /** Check the staged records under `keys`, after those in `done`. */
  method CheckAll(schema: Schema, i: nat, x: Indexes, read: Reader, ghost committed: Table, c: Changes,
                  removed: set<Value>, keys: set<Value>, recs: Table, ghost done: set<Value>, added: map<Value, Value>)
    returns (ok: bool, added': map<Value, Value>)
    requires Ready(schema, i, x, read, committed, c)
    requires !c.cleared ==> Releases(schema[i].field, committed, c.deletes + c.updates.Keys, removed)
    requires keys <= recs.Keys && keys !! done
    requires (forall k :: k in keys ==> k in StagedRecords(c) && recs[k] == StagedRecords(c)[k])
    requires Tracks(schema[i].field, StagedRecords(c), done, added)
    requires Apart(schema[i].field, Untouched(committed, c), StagedRecords(c), done)
    ensures !ok ==> !ClashFree(schema[i].field, View(committed, c))
    ensures ok ==> Tracks(schema[i].field, StagedRecords(c), done + keys, added')
    ensures ok ==> Apart(schema[i].field, Untouched(committed, c), StagedRecords(c), done + keys)
  {
    var todo := keys;
    ok, added' := true, added;
    while todo != {}
      invariant ok && todo <= keys
      invariant Tracks(schema[i].field, StagedRecords(c), done + (keys - todo), added')
      invariant Apart(schema[i].field, Untouched(committed, c), StagedRecords(c), done + (keys - todo))
      decreases todo
    {
      var k :| k in todo;
      var v := Field(recs[k], schema[i].field);
      ghost var before := added';
      ok, added' := CheckConflict(schema[i], x, read, c.cleared, removed, added', k, v);
      CheckedOne(schema, i, x, read, committed, c, removed, done + (keys - todo), before, k, ok, added');
      if !ok { return; }
      assert done + (keys - todo) + {k} == done + (keys - (todo - {k}));
      todo := todo - {k};
    }
    assert done + (keys - todo) == done + keys;
  }

  lemma {:induction false} CheckedOne(schema: Schema, i: nat, x: Indexes, read: Reader, committed: Table, c: Changes,
                                      removed: set<Value>, done: set<Value>, added: map<Value, Value>, k: Value,
                                      ok: bool, added': map<Value, Value>)
    requires Ready(schema, i, x, read, committed, c) && k in StagedRecords(c) && k !in done
    requires !c.cleared ==> Releases(schema[i].field, committed, c.deletes + c.updates.Keys, removed)
    requires Tracks(schema[i].field, StagedRecords(c), done, added)
    requires Apart(schema[i].field, Untouched(committed, c), StagedRecords(c), done)
    requires var v := Field(StagedRecords(c)[k], schema[i].field);
             && (v == Nil ==> ok && added' == added)
             && (v != Nil && v in added ==> (ok <==> added[v] == k) && added' == added)
             && (v != Nil && v !in added ==>
                   (ok <==> !IndexConflict(schema[i], x, read, c.cleared, removed, k, v))
                     && (ok ==> added' == added[v := k]))
    ensures !ok ==> !ClashFree(schema[i].field, View(committed, c))
    ensures ok ==> Tracks(schema[i].field, StagedRecords(c), done + {k}, added')
    ensures ok ==> Apart(schema[i].field, Untouched(committed, c), StagedRecords(c), done + {k})
  {
    var field, staged, outer := schema[i].field, StagedRecords(c), Untouched(committed, c);
    var v := Field(staged[k], field);
    if v != Nil && v !in added {
      ConflictMeans(schema, i, x, read, committed, c, removed, k, v);
    }
    if ok {
      TrackOne(field, outer, staged, done, added, k, added');
    } else {
      ViewParts(committed, c);
      var j := if v in added then added[v] else var j :| j in outer && Field(outer[j], field) == v; j;
      StagedClash(field, committed, c, k, j);
    }
  }

  lemma {:induction false} TrackOne(field: string, outer: Table, staged: Table, done: set<Value>,
                                    added: map<Value, Value>, k: Value, added': map<Value, Value>)
    requires Tracks(field, staged, done, added) && Apart(field, outer, staged, done) && k in staged && k !in done
    requires var v := Field(staged[k], field);
             if v == Nil then added' == added
             else v !in added && added' == added[v := k] && forall j :: j in outer ==> Field(outer[j], field) != v
    ensures Tracks(field, staged, done + {k}, added') && Apart(field, outer, staged, done + {k})
  {
  }

  /** One unique index: accepted if and only if the view has no duplicates in it. */
  method ValidateIndex(schema: Schema, i: nat, x: Indexes, read: Reader, ghost committed: Table, c: Changes)
    returns (ok: bool)
    requires Ready(schema, i, x, read, committed, c)
    ensures ok <==> ClashFree(schema[i].field, View(committed, c))
  {
    var removed := {};
    if !c.cleared {
      removed := CollectReleased(x, read, schema[i].field, c.deletes + c.updates.Keys, committed);
    }
    var added: map<Value, Value>;
    ok, added := CheckAll(schema, i, x, read, committed, c, removed, c.inserts.Keys, c.inserts, {}, map[]);
    if !ok { return; }
    ok, added := CheckAll(schema, i, x, read, committed, c, removed, c.updates.Keys, c.updates, {} + c.inserts.Keys,
                          added);
    if ok {
      assert {} + c.inserts.Keys + c.updates.Keys == StagedRecords(c).Keys;
      AllTracked(schema[i].field, committed, c, added);
    }
  }

  /** All unique indexes of a table: accepted if and only if the view has no duplicates in any of them. */
  method ValidateUniqueIndexes(schema: Schema, x: Indexes, read: Reader, ghost committed: Table, c: Changes)
    returns (ok: bool)
    requires DistinctNames(schema) && Proper(committed, c)
    requires forall i :: 0 <= i < |schema| && schema[i].unique ==> ClashFree(schema[i].field, committed)
    requires PrimaryAgrees(read, x, committed) && UniqueAgrees(schema, x, committed)
    ensures ok <==> forall i :: 0 <= i < |schema| && schema[i].unique ==> ClashFree(schema[i].field, View(committed, c))
  {
    if !c.cleared && c.inserts == map[] && c.updates == map[] && c.deletes == {} {
      assert View(committed, c) == committed;
      return true;
    }
    for i := 0 to |schema|
      invariant forall j :: 0 <= j < i && schema[j].unique ==> ClashFree(schema[j].field, View(committed, c))
    {
      if schema[i].unique {
        var good := ValidateIndex(schema, i, x, read, committed, c);
        if !good { return false; }
      }
    }
    return true;
  }

  // ---------------------------------------------------------------- what the indexes list

  /** A unique index that agrees with a table lists exactly the values of its field, and nil is none. */
  lemma {:induction false} UniquesMean(schema: Schema, i: nat, x: Indexes, t: Table, v: Value)
    requires DistinctNames(schema) && i < |schema| && schema[i].unique && UniqueAgrees(schema, x, t)
    ensures (schema[i].name, v) in x.unique <==> v != Nil && exists k :: k in t && Field(t[k], schema[i].field) == v
  {
    var u := (schema[i].name, v);
    if u in x.unique {
      var k :| Holds(schema, t, k, u);
      assert v != Nil;
      EntryMeans(schema, i, t[k], v);
    }
    if k :| k in t && v != Nil && Field(t[k], schema[i].field) == v {
      EntryMeans(schema, i, t[k], v);
      assert Holds(schema, t, k, u);
    }
  }

  /** Any other index that agrees with it lists exactly the values with the ids of their records. */
  lemma {:induction false} PairsMean(schema: Schema, i: nat, x: Indexes, t: Table, v: Value, k: Value)
    requires DistinctNames(schema) && i < |schema| && !schema[i].unique && PairsAgree(schema, x, t)
    ensures (schema[i].name, v, k) in x.pairs <==> v != Nil && k in t && Field(t[k], schema[i].field) == v
  {
    assert (schema[i].name, v, k).2 == k;
    if k in t && v != Nil && Field(t[k], schema[i].field) == v {
      assert (schema[i].name, v, k) in PairsOf(schema, t[k], k);
    }
  }

  /** What validation checks, index by index, is that no two records share a value in a unique index. */
  lemma {:induction false} ClashFreeIff(schema: Schema, t: Table)
    requires DistinctNames(schema)
    ensures NoDuplicates(schema, t) <==>
            forall i :: 0 <= i < |schema| && schema[i].unique ==> ClashFree(schema[i].field, t)
  {
    if NoDuplicates(schema, t) {
      forall i | 0 <= i < |schema| && schema[i].unique
        ensures ClashFree(schema[i].field, t)
      {
        NoClash(schema, t, i);
      }
    }
    if forall i :: 0 <= i < |schema| && schema[i].unique ==> ClashFree(schema[i].field, t) {
      forall j, k, u | Holds(schema, t, j, u) && Holds(schema, t, k, u)
        ensures j == k
      {
        var i :| 0 <= i < |schema| && schema[i].unique && u == (schema[i].name, Field(t[j], schema[i].field))
                 && Field(t[j], schema[i].field) != Nil;
        EntryMeans(schema, i, t[k], u.1);
      }
    }
  }

  lemma {:induction false} NoClash(schema: Schema, t: Table, i: nat)
    requires DistinctNames(schema) && i < |schema| && schema[i].unique && NoDuplicates(schema, t)
    ensures ClashFree(schema[i].field, t)
  {
    var field := schema[i].field;
    forall j, k | j in t && k in t && Field(t[j], field) != Nil && Field(t[j], field) == Field(t[k], field)
      ensures j == k
    {
      EntryMeans(schema, i, t[j], Field(t[j], field));
      EntryMeans(schema, i, t[k], Field(t[j], field));
      assert Holds(schema, t, j, (schema[i].name, Field(t[j], field)));
      assert Holds(schema, t, k, (schema[i].name, Field(t[j], field)));
    }
  }
}
