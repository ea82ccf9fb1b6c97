/**
 The index file of a table as maps: the primary index, the non-unique indexes keyed by value and id,
 and the unique indexes keyed by value. What it means that they agree with a table.
 */
module ShadowIndex {
  import opened Options
  import opened PageFormat
  import opened Values
  import opened Records

  type Pair = (string, Value, Value)

  datatype Indexes = Indexes(primary: map<Value, Pointer>, pairs: map<Pair, Pointer>,
                             unique: map<(string, Value), Pointer>)

  const EMPTY: Indexes := Indexes(map[], map[], map[])

  type Schema = seq<IndexMeta>

  /** The non-unique entries of a record filed under `key`. */
  function PairsOf(schema: Schema, r: Rec, key: Value): set<Pair> {
    set i | 0 <= i < |schema| && !schema[i].unique && Field(r, schema[i].field) != Nil ::
      (schema[i].name, Field(r, schema[i].field), key)
  }

  /** The unique entries of a record. */
  function UniquesOf(schema: Schema, r: Rec): set<(string, Value)> {
    set i | 0 <= i < |schema| && schema[i].unique && Field(r, schema[i].field) != Nil ::
      (schema[i].name, Field(r, schema[i].field))
  }

  function PutAll<K>(m: map<K, Pointer>, keys: set<K>, p: Pointer): map<K, Pointer> {
    m + map k | k in keys :: p
  }

  lemma {:induction false} PutOneMore<K>(m: map<K, Pointer>, keys: set<K>, k: K, p: Pointer)
    ensures PutAll(m, keys + {k}, p) == PutAll(m, keys, p)[k := p]
  {
  }

  function Enter(x: Indexes, schema: Schema, r: Rec, p: Pointer): Indexes {
    Indexes(x.primary[r.id := p], PutAll(x.pairs, PairsOf(schema, r, r.id), p),
            PutAll(x.unique, UniquesOf(schema, r), p))
  }

  /** Remove `key`, and the entries of its old record if that is known. */
  function Leave(x: Indexes, schema: Schema, key: Value, old_: Option<Rec>): Indexes {
    match old_
    case None => x.(primary := x.primary - {key})
    case Some(r) => Indexes(x.primary - {key}, x.pairs - PairsOf(schema, r, key), x.unique - UniquesOf(schema, r))
  }

  /** The same as the program does it, index by index. */
  class ShadowFile {
    var primary: map<Value, Pointer>
    var pairs: map<Pair, Pointer>
    var unique: map<(string, Value), Pointer>

    ghost function State(): Indexes
      reads this
    {
      Indexes(primary, pairs, unique)
    }

    constructor (x: Indexes)
      ensures State() == x
    {
      primary, pairs, unique := x.primary, x.pairs, x.unique;
    }

    method ShadowInsert(schema: Schema, r: Rec, p: Pointer) returns (ok: bool)
      modifies this
      ensures ok == (r.id != Nil)
      ensures State() == if ok then Enter(old(State()), schema, r, p) else old(State())
    {
      ok := r.id != Nil;
      if !ok { return; }
      primary := primary[r.id := p];
      for i := 0 to |schema|
        invariant primary == old(primary)[r.id := p]
        invariant pairs == PutAll(old(pairs), PairsOf(schema[..i], r, r.id), p)
        invariant unique == PutAll(old(unique), UniquesOf(schema[..i], r), p)
      {
        var v := Field(r, schema[i].field);
        EnterOneMore(schema, i, r, p, old(pairs), old(unique));
        if v != Nil {
          if schema[i].unique {
            unique := unique[(schema[i].name, v) := p];
          } else {
            pairs := pairs[(schema[i].name, v, r.id) := p];
          }
        }
      }
      assert schema[..|schema|] == schema;
    }

    method ShadowDelete(schema: Schema, key: Value, old_: Option<Rec>)
      modifies this
      ensures State() == Leave(old(State()), schema, key, old_)
    {
      primary := primary - {key};
      if old_.None? { return; }
      var r := old_.value;
      for i := 0 to |schema|
        invariant primary == old(primary) - {key}
        invariant pairs == old(pairs) - PairsOf(schema[..i], r, key)
        invariant unique == old(unique) - UniquesOf(schema[..i], r)
      {
        var v := Field(r, schema[i].field);
        OneMore(schema, i, r, key);
        if v != Nil {
          if schema[i].unique {
            unique := unique - {(schema[i].name, v)};
          } else {
            pairs := pairs - {(schema[i].name, v, key)};
          }
        }
      }
      assert schema[..|schema|] == schema;
    }
  }

  lemma {:induction false} OneMore(schema: Schema, i: nat, r: Rec, key: Value)
    requires i < |schema|
    ensures var v := Field(r, schema[i].field);
            && PairsOf(schema[..i + 1], r, key) ==
               PairsOf(schema[..i], r, key) + (if !schema[i].unique && v != Nil then {(schema[i].name, v, key)} else {})
            && UniquesOf(schema[..i + 1], r) ==
               UniquesOf(schema[..i], r) + (if schema[i].unique && v != Nil then {(schema[i].name, v)} else {})
  {
    var s := schema[..i + 1];
    assert forall j :: 0 <= j < i ==> s[j] == schema[..i][j];
    assert s[i] == schema[i];
  }

  lemma {:induction false} EnterOneMore(schema: Schema, i: nat, r: Rec, p: Pointer, pairs: map<Pair, Pointer>,
                                        unique: map<(string, Value), Pointer>)
    requires i < |schema|
    ensures var m, v := schema[i], Field(r, schema[i].field);
            var before, after := PutAll(pairs, PairsOf(schema[..i], r, r.id), p),
              PutAll(pairs, PairsOf(schema[..i + 1], r, r.id), p);
            after == if !m.unique && v != Nil then before[(m.name, v, r.id) := p] else before
    ensures var m, v := schema[i], Field(r, schema[i].field);
            var before, after := PutAll(unique, UniquesOf(schema[..i], r), p),
              PutAll(unique, UniquesOf(schema[..i + 1], r), p);
            after == if m.unique && v != Nil then before[(m.name, v) := p] else before
  {
    var m, v := schema[i], Field(r, schema[i].field);
    OneMore(schema, i, r, r.id);
    PutOneMore(pairs, PairsOf(schema[..i], r, r.id), (m.name, v, r.id), p);
    PutOneMore(unique, UniquesOf(schema[..i], r), (m.name, v), p);
    assert PairsOf(schema[..i], r, r.id) + {} == PairsOf(schema[..i], r, r.id);
    assert UniquesOf(schema[..i], r) + {} == UniquesOf(schema[..i], r);
  }

  // ---------------------------------------------------------------- agreement

  type Reader = Pointer -> Option<Rec>

  /** The primary index names exactly the ids of the table, and its pointers read back the records. */
  ghost predicate PrimaryAgrees(read: Reader, x: Indexes, t: Table) {
    x.primary.Keys == t.Keys && forall k :: k in t ==> read(x.primary[k]) == Some(t[k])
  }

  /** The non-unique indexes hold exactly the entries of the table's records. */
  ghost predicate PairsAgree(schema: Schema, x: Indexes, t: Table) {
    && (forall e :: e in x.pairs <==> e.2 in t && e in PairsOf(schema, t[e.2], e.2))
    && (forall e :: e in x.pairs && e.2 in x.primary ==> x.pairs[e] == x.primary[e.2])
  }

  /** The record under `k` has entry `u` in a unique index. */
  ghost predicate Holds(schema: Schema, t: Table, k: Value, u: (string, Value)) {
    k in t && u in UniquesOf(schema, t[k])
  }

  ghost predicate HeldBySome(schema: Schema, t: Table, u: (string, Value)) {
    exists k :: Holds(schema, t, k, u)
  }

  /** The unique indexes hold exactly the values of the table's records, each with its record's pointer. */
  ghost predicate UniqueAgrees(schema: Schema, x: Indexes, t: Table) {
    && (forall u :: u in x.unique ==> HeldBySome(schema, t, u))
    && (forall u, k :: Holds(schema, t, k, u) ==> u in x.unique && k in x.primary && x.unique[u] == x.primary[k])
  }

  /** No two records share a value in a unique index. */
  ghost predicate NoDuplicates(schema: Schema, t: Table) {
    forall j, k, u :: Holds(schema, t, j, u) && Holds(schema, t, k, u) ==> j == k
  }

  lemma {:induction false} EnterAgrees(schema: Schema, read: Reader, x: Indexes, t: Table, r: Rec, p: Pointer)
    requires PrimaryAgrees(read, x, t) && PairsAgree(schema, x, t) && r.id !in t && read(p) == Some(r)
    ensures PrimaryAgrees(read, Enter(x, schema, r, p), t[r.id := r])
    ensures PairsAgree(schema, Enter(x, schema, r, p), t[r.id := r])
  {
  }

  lemma {:induction false} LeaveAgrees(schema: Schema, read: Reader, x: Indexes, t: Table, k: Value)
    requires PrimaryAgrees(read, x, t) && PairsAgree(schema, x, t) && k in t
    ensures var x' := Leave(x, schema, k, Some(t[k]));
            PrimaryAgrees(read, x', t - {k}) && PairsAgree(schema, x', t - {k})
  {
  }

  lemma {:induction false} EnterUnique(schema: Schema, x: Indexes, t: Table, r: Rec, p: Pointer)
    requires UniqueAgrees(schema, x, t) && NoDuplicates(schema, t[r.id := r]) && r.id !in t
    ensures UniqueAgrees(schema, Enter(x, schema, r, p), t[r.id := r])
  {
    var x', t' := Enter(x, schema, r, p), t[r.id := r];
    forall u, k | Holds(schema, t', k, u)
      ensures u in x'.unique && k in x'.primary && x'.unique[u] == x'.primary[k]
    {
      EnterHolder(schema, x, t, r, p, u, k);
    }
    forall u | u in x'.unique
      ensures HeldBySome(schema, t', u)
    {
      EnterHeld(schema, x, t, r, p, u);
    }
  }

  lemma {:induction false} EnterHeld(schema: Schema, x: Indexes, t: Table, r: Rec, p: Pointer, u: (string, Value))
    requires UniqueAgrees(schema, x, t) && r.id !in t && u in Enter(x, schema, r, p).unique
    ensures HeldBySome(schema, t[r.id := r], u)
  {
    if u in UniquesOf(schema, r) {
      assert Holds(schema, t[r.id := r], r.id, u);
    } else {
      var k :| Holds(schema, t, k, u);
      assert Holds(schema, t[r.id := r], k, u);
    }
  }

  lemma {:induction false} EnterHolder(schema: Schema, x: Indexes, t: Table, r: Rec, p: Pointer, u: (string, Value),
                                       k: Value)
    requires UniqueAgrees(schema, x, t) && NoDuplicates(schema, t[r.id := r]) && r.id !in t
    requires Holds(schema, t[r.id := r], k, u)
    ensures var x' := Enter(x, schema, r, p); u in x'.unique && k in x'.primary && x'.unique[u] == x'.primary[k]
  {
    if k != r.id {
      assert Holds(schema, t, k, u);
      assert u in UniquesOf(schema, r) ==> Holds(schema, t[r.id := r], r.id, u);
    }
  }

  lemma {:induction false} LeaveUnique(schema: Schema, x: Indexes, t: Table, k: Value)
    requires UniqueAgrees(schema, x, t) && NoDuplicates(schema, t) && k in t
    ensures UniqueAgrees(schema, Leave(x, schema, k, Some(t[k])), t - {k})
  {
    var x', t' := Leave(x, schema, k, Some(t[k])), t - {k};
    forall u | u in x'.unique
      ensures HeldBySome(schema, t', u)
    {
      var j :| Holds(schema, t, j, u);
      assert Holds(schema, t', j, u);
    }
    forall u, j | Holds(schema, t', j, u)
      ensures u in x'.unique && j in x'.primary && x'.unique[u] == x'.primary[j]
    {
      assert Holds(schema, t, j, u);
      assert u in UniquesOf(schema, t[k]) ==> Holds(schema, t, k, u);
    }
  }
}
