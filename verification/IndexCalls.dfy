/**
 The calls that a table makes on its index file, and why the maps of `ShadowIndex` stand for the pages.

 Entering or removing a record is a list of insertions and deletions of byte keys in named trees. Running
 the calls of a commit on the index file does what `CommitApply.Applied` does on maps, and each of its
 deletions hits a key that is there, so that it keeps the ownership of pages.
 */
module IndexCalls {
  import opened Options
  import opened KeyOrder
  import opened PageFormat
  import opened Values
  import opened Records
  import opened ShadowIndex
  import opened Overlay
  import opened UniqueCheck
  import opened CommitApply
  import opened UniqueCommit
  import opened KeyCodec
  import opened KeyCompare
  import opened TreeOrder
  import opened TreeDelete
  import opened IndexFile
  import opened IndexLookup

  // ---------------------------------------------------------------- the calls

  /** The key under which an index files a record. */
  function KeyIn(meta: IndexMeta, r: Rec, id: Value): Key {
    var v := Field(r, meta.field);
    if meta.unique then SerializeKey(v) else SerializeComposite(v, id)
  }

  function PutOne(meta: IndexMeta, r: Rec, p: Pointer, g: nat): seq<Op> {
    if Field(r, meta.field) == Nil then [] else [Put(meta.name, KeyIn(meta, r, r.id), p, g)]
  }

  function DropOne(meta: IndexMeta, r: Rec, id: Value, g: nat): seq<Op> {
    if Field(r, meta.field) == Nil then [] else [Drop(meta.name, KeyIn(meta, r, id), g)]
  }

  function IndexPuts(schema: Schema, r: Rec, p: Pointer, g: nat): seq<Op> {
    if schema == [] then [] else PutOne(schema[0], r, p, g) + IndexPuts(schema[1..], r, p, g)
  }

  function IndexDrops(schema: Schema, r: Rec, id: Value, g: nat): seq<Op> {
    if schema == [] then [] else DropOne(schema[0], r, id, g) + IndexDrops(schema[1..], r, id, g)
  }

  function InsertCalls(schema: Schema, r: Rec, p: Pointer, g: nat): seq<Op> {
    [Put(PRIMARY, SerializeKey(r.id), p, g)] + IndexPuts(schema, r, p, g)
  }

  function DeleteCalls(schema: Schema, id: Value, old_: Option<Rec>, g: nat): seq<Op> {
    [Drop(PRIMARY, SerializeKey(id), g)] + (match old_ case None => [] case Some(r) => IndexDrops(schema, r, id, g))
  }

  /** Index names are distinct, and none is the name of the primary index. */
  ghost predicate ProperNames(schema: Schema) {
    DistinctNames(schema) && forall i :: 0 <= i < |schema| ==> schema[i].name != PRIMARY
  }

  lemma {:induction false} ApplyConcat(m: Meaning, a: seq<Op>, b: seq<Op>)
    ensures ApplyAll(m, a + b) == ApplyAll(ApplyAll(m, a), b)
    decreases |a|
  {
    if a == [] {
      assert a + b == b;
    } else {
      assert (a + b)[0] == a[0] && (a + b)[1..] == a[1..] + b;
      ApplyConcat(Apply(m, a[0]), a[1..], b);
    }
  }

  /** Every deletion of a list of calls hits a key that is there. */
  predicate AllHit(m: Meaning, ops: seq<Op>)
    decreases |ops|
  {
    ops == [] || ((ops[0].Drop? ==> ops[0].key in Held(m, ops[0].name)) && AllHit(Apply(m, ops[0]), ops[1..]))
  }

  lemma {:induction false} HitConcat(m: Meaning, a: seq<Op>, b: seq<Op>)
    ensures AllHit(m, a + b) <==> AllHit(m, a) && AllHit(ApplyAll(m, a), b)
    decreases |a|
  {
    if a == [] {
      assert a + b == b;
    } else {
      assert (a + b)[0] == a[0] && (a + b)[1..] == a[1..] + b;
      HitConcat(Apply(m, a[0]), a[1..], b);
    }
  }

  // ---------------------------------------------------------------- what they do to each index

  /** Calls on other names leave an index alone. */
  lemma {:induction false} Elsewhere(m: Meaning, ops: seq<Op>, n: string)
    requires forall i :: 0 <= i < |ops| ==> !ops[i].Commit? && ops[i].name != n
    ensures Held(ApplyAll(m, ops), n) == Held(m, n)
    decreases |ops|
  {
    if ops != [] {
      assert forall i :: 0 <= i < |ops[1..]| ==> ops[1..][i] == ops[i + 1];
      Elsewhere(Apply(m, ops[0]), ops[1..], n);
    }
  }

  lemma {:induction false} PutOneAt(m: Meaning, meta: IndexMeta, r: Rec, p: Pointer, g: nat, n: string)
    ensures Held(ApplyAll(m, PutOne(meta, r, p, g)), n) ==
            if n == meta.name && Field(r, meta.field) != Nil then Held(m, n)[KeyIn(meta, r, r.id) := p] else Held(m, n)
  {
    var one := PutOne(meta, r, p, g);
    if one != [] {
      assert one[1..] == [];
    }
  }

  lemma {:induction false} DropOneAt(m: Meaning, meta: IndexMeta, r: Rec, id: Value, g: nat, n: string)
    ensures Held(ApplyAll(m, DropOne(meta, r, id, g)), n) ==
            if n == meta.name && Field(r, meta.field) != Nil then Held(m, n) - {KeyIn(meta, r, id)} else Held(m, n)
    ensures (Field(r, meta.field) != Nil ==> KeyIn(meta, r, id) in Held(m, meta.name)) ==>
            AllHit(m, DropOne(meta, r, id, g))
  {
    var one := DropOne(meta, r, id, g);
    if one != [] {
      assert one[1..] == [];
      assert Held(m, n) - {} == Held(m, n);
    }
  }

  /** An index that the schema does not name. */
  lemma {:induction false} PutsElsewhere(m: Meaning, schema: Schema, r: Rec, p: Pointer, g: nat, n: string)
    requires forall i :: 0 <= i < |schema| ==> schema[i].name != n
    ensures Held(ApplyAll(m, IndexPuts(schema, r, p, g)), n) == Held(m, n)
    decreases |schema|
  {
    if schema != [] {
      var m' := ApplyAll(m, PutOne(schema[0], r, p, g));
      ApplyConcat(m, PutOne(schema[0], r, p, g), IndexPuts(schema[1..], r, p, g));
      PutOneAt(m, schema[0], r, p, g, n);
      PutsElsewhere(m', schema[1..], r, p, g, n);
    }
  }

  lemma {:induction false} DropsElsewhere(m: Meaning, schema: Schema, r: Rec, id: Value, g: nat, n: string)
    requires forall i :: 0 <= i < |schema| ==> schema[i].name != n
    ensures Held(ApplyAll(m, IndexDrops(schema, r, id, g)), n) == Held(m, n)
    decreases |schema|
  {
    if schema != [] {
      var m' := ApplyAll(m, DropOne(schema[0], r, id, g));
      ApplyConcat(m, DropOne(schema[0], r, id, g), IndexDrops(schema[1..], r, id, g));
      DropOneAt(m, schema[0], r, id, g, n);
      DropsElsewhere(m', schema[1..], r, id, g, n);
    }
  }

  /** What index `i` holds after a record was entered. */
  lemma {:induction false} PutsAt(m: Meaning, schema: Schema, i: nat, r: Rec, p: Pointer, g: nat)
    requires DistinctNames(schema) && i < |schema|
    ensures Held(ApplyAll(m, IndexPuts(schema, r, p, g)), schema[i].name) ==
            if Field(r, schema[i].field) == Nil then Held(m, schema[i].name)
            else Held(m, schema[i].name)[KeyIn(schema[i], r, r.id) := p]
    decreases i
  {
    var rest, m' := schema[1..], ApplyAll(m, PutOne(schema[0], r, p, g));
    ApplyConcat(m, PutOne(schema[0], r, p, g), IndexPuts(rest, r, p, g));
    PutOneAt(m, schema[0], r, p, g, schema[i].name);
    assert forall j :: 0 <= j < |rest| ==> rest[j] == schema[j + 1];
    if i == 0 {
      PutsElsewhere(m', rest, r, p, g, schema[0].name);
    } else {
      PutsAt(m', rest, i - 1, r, p, g);
    }
  }

  lemma {:induction false} DropsAt(m: Meaning, schema: Schema, i: nat, r: Rec, id: Value, g: nat)
    requires DistinctNames(schema) && i < |schema|
    ensures Held(ApplyAll(m, IndexDrops(schema, r, id, g)), schema[i].name) ==
            if Field(r, schema[i].field) == Nil then Held(m, schema[i].name)
            else Held(m, schema[i].name) - {KeyIn(schema[i], r, id)}
    decreases i
  {
    var rest, m' := schema[1..], ApplyAll(m, DropOne(schema[0], r, id, g));
    ApplyConcat(m, DropOne(schema[0], r, id, g), IndexDrops(rest, r, id, g));
    DropOneAt(m, schema[0], r, id, g, schema[i].name);
    assert forall j :: 0 <= j < |rest| ==> rest[j] == schema[j + 1];
    if i == 0 {
      DropsElsewhere(m', rest, r, id, g, schema[0].name);
    } else {
      DropsAt(m', rest, i - 1, r, id, g);
    }
  }

  /** Deletions of the entries of a record hit them if they are there. */
  lemma {:induction false} DropsHit(m: Meaning, schema: Schema, r: Rec, id: Value, g: nat)
    requires DistinctNames(schema)
    requires forall i :: 0 <= i < |schema| && Field(r, schema[i].field) != Nil ==>
             KeyIn(schema[i], r, id) in Held(m, schema[i].name)
    ensures AllHit(m, IndexDrops(schema, r, id, g))
    decreases |schema|
  {
    if schema != [] {
      var rest, m' := schema[1..], ApplyAll(m, DropOne(schema[0], r, id, g));
      assert forall j :: 0 <= j < |rest| ==> rest[j] == schema[j + 1];
      HitConcat(m, DropOne(schema[0], r, id, g), IndexDrops(rest, r, id, g));
      DropOneAt(m, schema[0], r, id, g, schema[0].name);
      forall i | 0 <= i < |rest| && Field(r, rest[i].field) != Nil
        ensures KeyIn(rest[i], r, id) in Held(m', rest[i].name)
      {
        DropOneAt(m, schema[0], r, id, g, rest[i].name);
      }
      DropsHit(m', rest, r, id, g);
    }
  }

  // ---------------------------------------------------------------- spelling

  /** The entries of a record fit the kinds of their indexes. */
  ghost predicate KindedRec(kinds: Kinds, schema: Schema, r: Rec, id: Value) {
    && OfKind(id, kinds.id) && Storable(id)
    && forall i :: 0 <= i < |schema| && !schema[i].unique && Field(r, schema[i].field) != Nil ==>
         var n, v := schema[i].name, Field(r, schema[i].field);
         n in kinds.values && OfKind(v, kinds.values[n]) && PlainParts(v, id)
  }

  lemma {:induction false} IdsPut(held: map<Key, Pointer>, ids: map<Value, Pointer>, id: Value, p: Pointer)
    requires SpellsIds(held, ids)
    ensures SpellsIds(held[SerializeKey(id) := p], ids[id := p])
  {
    forall other | other in ids && SerializeKey(other) == SerializeKey(id)
      ensures other == id
    {
      SerializeInjective(other, id);
    }
    var held' := held[SerializeKey(id) := p];
    forall key | key in held'
      ensures exists other :: other in ids[id := p] && SerializeKey(other) == key
    {
      if key == SerializeKey(id) {
        assert id in ids[id := p];
      } else {
        var other :| other in ids && SerializeKey(other) == key;
        assert other in ids[id := p];
      }
    }
  }

  lemma {:induction false} IdsDrop(held: map<Key, Pointer>, ids: map<Value, Pointer>, id: Value)
    requires SpellsIds(held, ids)
    ensures SpellsIds(held - {SerializeKey(id)}, ids - {id})
  {
    forall other | other in ids && SerializeKey(other) == SerializeKey(id)
      ensures other == id
    {
      SerializeInjective(other, id);
    }
    forall key | key in held - {SerializeKey(id)}
      ensures exists other :: other in ids - {id} && SerializeKey(other) == key
    {
      var other :| other in ids && SerializeKey(other) == key;
      assert other in ids - {id};
    }
  }

  lemma {:induction false} ValuesPut(held: map<Key, Pointer>, a: map<(string, Value), Pointer>,
                                     b: map<(string, Value), Pointer>, name: string, v: Value, p: Pointer)
    requires SpellsValues(held, a, name)
    requires forall w ::
               && ((name, w) in b <==> (name, w) in a || w == v)
               && ((name, w) in b ==> b[(name, w)] == if w == v then p else a[(name, w)])
    ensures SpellsValues(held[SerializeKey(v) := p], b, name)
  {
    forall w | SerializeKey(w) == SerializeKey(v)
      ensures w == v
    {
      SerializeInjective(w, v);
    }
    var held' := held[SerializeKey(v) := p];
    forall key | key in held'
      ensures exists w :: (name, w) in b && SerializeKey(w) == key
    {
      if key == SerializeKey(v) {
        assert (name, v) in b;
      } else {
        var w :| (name, w) in a && SerializeKey(w) == key;
        assert (name, w) in b;
      }
    }
  }

  lemma {:induction false} ValuesDrop(held: map<Key, Pointer>, a: map<(string, Value), Pointer>,
                                      b: map<(string, Value), Pointer>, name: string, v: Value)
    requires SpellsValues(held, a, name)
    requires forall w ::
               && ((name, w) in b <==> (name, w) in a && w != v)
               && ((name, w) in b ==> b[(name, w)] == a[(name, w)])
    ensures SpellsValues(held - {SerializeKey(v)}, b, name)
  {
    forall w | SerializeKey(w) == SerializeKey(v)
      ensures w == v
    {
      SerializeInjective(w, v);
    }
    forall key | key in held - {SerializeKey(v)}
      ensures exists w :: (name, w) in b && SerializeKey(w) == key
    {
      var w :| (name, w) in a && SerializeKey(w) == key;
      assert (name, w) in b;
    }
  }

  /** The parts of the entries of an index are told apart by their keys. */
  ghost predicate ShortEntries(pairs: map<Pair, Pointer>, name: string) {
    forall s, q :: (name, s, q) in pairs ==> !s.Nil? && PlainParts(s, q)
  }

  lemma {:induction false} SamePair(s: Value, q: Value, v: Value, id: Value)
    requires !s.Nil? && PlainParts(s, q) && !v.Nil? && PlainParts(v, id)
    requires SerializeComposite(s, q) == SerializeComposite(v, id)
    ensures s == v && q == id
  {
    TwoUnique(SerializeComposite(s, q), s, q, v, id);
  }

  /** `b` is `a` with the entry of `v` and `id`. */
  ghost predicate PutPair(a: map<Pair, Pointer>, b: map<Pair, Pointer>, name: string, v: Value, id: Value, p: Pointer) {
    && (forall s, q :: (name, s, q) in b <==> (name, s, q) in a || (s == v && q == id))
    && (forall s, q :: (name, s, q) in b ==> b[(name, s, q)] == if s == v && q == id then p else a[(name, s, q)])
  }

  lemma {:induction false} PairsPut(held: map<Key, Pointer>, a: map<Pair, Pointer>, b: map<Pair, Pointer>, name: string,
                                    v: Value, id: Value, p: Pointer)
    requires SpellsPairs(held, a, name) && ShortEntries(a, name) && !v.Nil? && PlainParts(v, id)
    requires PutPair(a, b, name, v, id, p)
    ensures SpellsPairs(held[SerializeComposite(v, id) := p], b, name)
  {
    var own := SerializeComposite(v, id);
    var held' := held[own := p];
    forall s, q | (name, s, q) in b
      ensures SerializeComposite(s, q) in held' && held'[SerializeComposite(s, q)] == b[(name, s, q)]
    {
      if (name, s, q) in a && SerializeComposite(s, q) == own {
        SamePair(s, q, v, id);
      }
    }
    PairsPutBack(held, held', a, b, name, v, id, p);
  }

  lemma {:induction false} PairsPutBack(held: map<Key, Pointer>, held': map<Key, Pointer>, a: map<Pair, Pointer>,
                                        b: map<Pair, Pointer>, name: string, v: Value, id: Value, p: Pointer)
    requires SpellsPairs(held, a, name) && PutPair(a, b, name, v, id, p)
    requires held' == held[SerializeComposite(v, id) := p]
    ensures forall key :: key in held' ==> exists s, q :: (name, s, q) in b && SerializeComposite(s, q) == key
  {
    var own := SerializeComposite(v, id);
    forall key | key in held'
      ensures exists s, q :: (name, s, q) in b && SerializeComposite(s, q) == key
    {
      if key == own {
        assert (name, v, id) in b;
      } else {
        var s, q :| (name, s, q) in a && SerializeComposite(s, q) == key;
        assert (name, s, q) in b;
      }
    }
  }

  lemma {:induction false} PairsDrop(held: map<Key, Pointer>, a: map<Pair, Pointer>, b: map<Pair, Pointer>,
                                     name: string, v: Value, id: Value)
    requires SpellsPairs(held, a, name) && ShortEntries(a, name) && !v.Nil? && PlainParts(v, id)
    requires forall s, q :: (name, s, q) in b <==> (name, s, q) in a && !(s == v && q == id)
    requires forall s, q :: (name, s, q) in b ==> b[(name, s, q)] == a[(name, s, q)]
    ensures SpellsPairs(held - {SerializeComposite(v, id)}, b, name)
  {
    forall s, q | (name, s, q) in a && SerializeComposite(s, q) == SerializeComposite(v, id)
      ensures s == v && q == id
    {
      SamePair(s, q, v, id);
    }
    forall key | key in held - {SerializeComposite(v, id)}
      ensures exists s, q :: (name, s, q) in b && SerializeComposite(s, q) == key
    {
      var s, q :| (name, s, q) in a && SerializeComposite(s, q) == key;
      assert (name, s, q) in b;
    }
  }

  // ---------------------------------------------------------------- one record

  /** With distinct names, an index holds of a record what its own field says. */
  lemma {:induction false} OwnPair(schema: Schema, i: nat, r: Rec, id: Value, s: Value, q: Value)
    requires DistinctNames(schema) && i < |schema| && !schema[i].unique
    ensures (schema[i].name, s, q) in PairsOf(schema, r, id) <==> s != Nil && s == Field(r, schema[i].field) && q == id
  {
  }

  lemma {:induction false} OwnValue(schema: Schema, i: nat, r: Rec, v: Value)
    requires DistinctNames(schema) && i < |schema| && schema[i].unique
    ensures (schema[i].name, v) in UniquesOf(schema, r) <==> v != Nil && v == Field(r, schema[i].field)
  {
  }

  lemma {:induction false} KindedShort(kinds: Kinds, x: Indexes, n: string)
    requires Kinded(kinds, x)
    ensures ShortEntries(x.pairs, n)
  {
  }

  lemma {:induction false} EnterValues(held: map<Key, Pointer>, schema: Schema, x: Indexes, r: Rec, p: Pointer, i: nat)
    requires DistinctNames(schema) && i < |schema| && schema[i].unique && SpellsValues(held, x.unique, schema[i].name)
    ensures var v := Field(r, schema[i].field);
            SpellsValues(if v == Nil then held else held[SerializeKey(v) := p], Enter(x, schema, r, p).unique,
                         schema[i].name)
  {
    var n, v, x' := schema[i].name, Field(r, schema[i].field), Enter(x, schema, r, p);
    forall w
      ensures (n, w) in UniquesOf(schema, r) <==> w != Nil && w == v
    {
      OwnValue(schema, i, r, w);
    }
    if v != Nil {
      ValuesPut(held, x.unique, x'.unique, n, v, p);
    }
  }

  lemma {:induction false} EnterPairs(held: map<Key, Pointer>, schema: Schema, x: Indexes, r: Rec, p: Pointer, i: nat)
    requires DistinctNames(schema) && i < |schema| && !schema[i].unique && SpellsPairs(held, x.pairs, schema[i].name)
    requires ShortEntries(x.pairs, schema[i].name)
    requires (Field(r, schema[i].field) != Nil ==> PlainParts(Field(r, schema[i].field), r.id))
    ensures var v := Field(r, schema[i].field);
            SpellsPairs(if v == Nil then held else held[SerializeComposite(v, r.id) := p],
                        Enter(x, schema, r, p).pairs, schema[i].name)
  {
    var n, v, x' := schema[i].name, Field(r, schema[i].field), Enter(x, schema, r, p);
    forall s, q
      ensures (n, s, q) in PairsOf(schema, r, r.id) <==> s != Nil && s == v && q == r.id
    {
      OwnPair(schema, i, r, r.id, s, q);
    }
    if v != Nil {
      PairsPut(held, x.pairs, x'.pairs, n, v, r.id, p);
    }
  }

  lemma {:induction false} EnterIndex(kinds: Kinds, m: Meaning, m': Meaning, schema: Schema, x: Indexes, r: Rec,
                                      p: Pointer, i: nat)
    requires DistinctNames(schema) && i < |schema| && Kinded(kinds, x) && KindedRec(kinds, schema, r, r.id)
    requires SpellsIndex(m, schema, x, i)
    requires Held(m', schema[i].name) ==
             if Field(r, schema[i].field) == Nil then Held(m, schema[i].name)
             else Held(m, schema[i].name)[KeyIn(schema[i], r, r.id) := p]
    ensures SpellsIndex(m', schema, Enter(x, schema, r, p), i)
  {
    if schema[i].unique {
      EnterValues(Held(m, schema[i].name), schema, x, r, p, i);
    } else {
      KindedShort(kinds, x, schema[i].name);
      EnterPairs(Held(m, schema[i].name), schema, x, r, p, i);
    }
  }

  lemma {:induction false} LeaveIndex(kinds: Kinds, m: Meaning, m': Meaning, schema: Schema, x: Indexes, r: Rec,
                                      id: Value, i: nat)
    requires DistinctNames(schema) && i < |schema| && Kinded(kinds, x) && KindedRec(kinds, schema, r, id)
    requires SpellsIndex(m, schema, x, i)
    requires Held(m', schema[i].name) ==
             if Field(r, schema[i].field) == Nil then Held(m, schema[i].name)
             else Held(m, schema[i].name) - {KeyIn(schema[i], r, id)}
    ensures SpellsIndex(m', schema, Leave(x, schema, id, Some(r)), i)
  {
    var n, v, x' := schema[i].name, Field(r, schema[i].field), Leave(x, schema, id, Some(r));
    if schema[i].unique {
      forall w
        ensures (n, w) in UniquesOf(schema, r) <==> w != Nil && w == v
      {
        OwnValue(schema, i, r, w);
      }
      if v != Nil {
        ValuesDrop(Held(m, n), x.unique, x'.unique, n, v);
      }
    } else {
      KindedShort(kinds, x, n);
      forall s, q
        ensures (n, s, q) in PairsOf(schema, r, id) <==> s != Nil && s == v && q == id
      {
        OwnPair(schema, i, r, id, s, q);
      }
      if v != Nil {
        PairsDrop(Held(m, n), x.pairs, x'.pairs, n, v, id);
      }
    }
  }

  lemma {:induction false} EnterKinded(kinds: Kinds, schema: Schema, x: Indexes, r: Rec, p: Pointer)
    requires Kinded(kinds, x) && KindedRec(kinds, schema, r, r.id)
    ensures Kinded(kinds, Enter(x, schema, r, p))
  {
  }

  lemma {:induction false} LeaveKinded(kinds: Kinds, schema: Schema, x: Indexes, id: Value, old_: Option<Rec>)
    requires Kinded(kinds, x)
    ensures Kinded(kinds, Leave(x, schema, id, old_))
  {
  }

  /** The calls for a new record enter it. */
  lemma {:induction false} InsertSpells(kinds: Kinds, m: Meaning, schema: Schema, x: Indexes, r: Rec, p: Pointer,
                                        g: nat)
    requires ProperNames(schema) && Spells(m, schema, x) && Kinded(kinds, x) && KindedRec(kinds, schema, r, r.id)
    ensures Spells(ApplyAll(m, InsertCalls(schema, r, p, g)), schema, Enter(x, schema, r, p))
    ensures AllHit(m, InsertCalls(schema, r, p, g))
  {
    var calls, rest, first := InsertCalls(schema, r, p, g), IndexPuts(schema, r, p, g),
      Put(PRIMARY, SerializeKey(r.id), p, g);
    var m1 := Apply(m, first);
    assert calls[0] == first && calls[1..] == rest;
    PutsHit(m1, schema, r, p, g);
    PutsElsewhere(m1, schema, r, p, g, PRIMARY);
    IdsPut(Held(m, PRIMARY), x.primary, r.id, p);
    PutsSpell(kinds, m, m1, schema, x, r, p, g);
  }

  lemma {:induction false} PutsSpell(kinds: Kinds, m: Meaning, m1: Meaning, schema: Schema, x: Indexes, r: Rec,
                                     p: Pointer, g: nat)
    requires ProperNames(schema) && Spells(m, schema, x) && Kinded(kinds, x) && KindedRec(kinds, schema, r, r.id)
    requires forall n :: n != PRIMARY ==> Held(m1, n) == Held(m, n)
    ensures forall i :: 0 <= i < |schema| ==>
            SpellsIndex(ApplyAll(m1, IndexPuts(schema, r, p, g)), schema, Enter(x, schema, r, p), i)
  {
    forall i | 0 <= i < |schema|
      ensures SpellsIndex(ApplyAll(m1, IndexPuts(schema, r, p, g)), schema, Enter(x, schema, r, p), i)
    {
      PutsAt(m1, schema, i, r, p, g);
      EnterIndex(kinds, m, ApplyAll(m1, IndexPuts(schema, r, p, g)), schema, x, r, p, i);
    }
  }

  lemma {:induction false} PutsHit(m: Meaning, schema: Schema, r: Rec, p: Pointer, g: nat)
    ensures AllHit(m, IndexPuts(schema, r, p, g))
    decreases |schema|
  {
    if schema != [] {
      var one := PutOne(schema[0], r, p, g);
      HitConcat(m, one, IndexPuts(schema[1..], r, p, g));
      PutsHit(ApplyAll(m, one), schema[1..], r, p, g);
      assert one != [] ==> one[1..] == [];
    }
  }

  /** The entries of the record are in the indexes. */
  ghost predicate HasEntries(schema: Schema, x: Indexes, r: Rec, id: Value) {
    id in x.primary && PairsOf(schema, r, id) <= x.pairs.Keys && UniquesOf(schema, r) <= x.unique.Keys
  }

  /** The calls for an old record remove it, and hit its entries if they are there. */
  lemma {:induction false} DeleteSpells(kinds: Kinds, m: Meaning, schema: Schema, x: Indexes, r: Rec, id: Value, g: nat)
    requires ProperNames(schema) && Spells(m, schema, x) && Kinded(kinds, x) && KindedRec(kinds, schema, r, id)
    ensures Spells(ApplyAll(m, DeleteCalls(schema, id, Some(r), g)), schema, Leave(x, schema, id, Some(r)))
    ensures HasEntries(schema, x, r, id) ==> AllHit(m, DeleteCalls(schema, id, Some(r), g))
  {
    var calls, rest, first := DeleteCalls(schema, id, Some(r), g), IndexDrops(schema, r, id, g),
      Drop(PRIMARY, SerializeKey(id), g);
    var m1 := Apply(m, first);
    assert calls[0] == first && calls[1..] == rest;
    DropsElsewhere(m1, schema, r, id, g, PRIMARY);
    IdsDrop(Held(m, PRIMARY), x.primary, id);
    assert Held(m1, PRIMARY) == Held(m, PRIMARY) - {SerializeKey(id)};
    DropsSpell(kinds, m, m1, schema, x, r, id, g);
    if HasEntries(schema, x, r, id) {
      EntriesHit(m, m1, schema, x, r, id, g);
    }
  }

  lemma {:induction false} DropsSpell(kinds: Kinds, m: Meaning, m1: Meaning, schema: Schema, x: Indexes, r: Rec,
                                      id: Value, g: nat)
    requires ProperNames(schema) && Spells(m, schema, x) && Kinded(kinds, x) && KindedRec(kinds, schema, r, id)
    requires forall n :: n != PRIMARY ==> Held(m1, n) == Held(m, n)
    ensures forall i :: 0 <= i < |schema| ==>
              SpellsIndex(ApplyAll(m1, IndexDrops(schema, r, id, g)), schema, Leave(x, schema, id, Some(r)), i)
  {
    forall i | 0 <= i < |schema|
      ensures SpellsIndex(ApplyAll(m1, IndexDrops(schema, r, id, g)), schema, Leave(x, schema, id, Some(r)), i)
    {
      DropsAt(m1, schema, i, r, id, g);
      LeaveIndex(kinds, m, ApplyAll(m1, IndexDrops(schema, r, id, g)), schema, x, r, id, i);
    }
  }

  lemma {:induction false} EntriesHit(m: Meaning, m1: Meaning, schema: Schema, x: Indexes, r: Rec, id: Value, g: nat)
    requires ProperNames(schema) && Spells(m, schema, x) && HasEntries(schema, x, r, id)
    requires forall n :: n != PRIMARY ==> Held(m1, n) == Held(m, n)
    ensures AllHit(m1, IndexDrops(schema, r, id, g))
  {
    forall i | 0 <= i < |schema| && Field(r, schema[i].field) != Nil
      ensures KeyIn(schema[i], r, id) in Held(m1, schema[i].name)
    {
      EntryHeld(m, schema, x, r, id, i);
    }
    DropsHit(m1, schema, r, id, g);
  }

  lemma {:induction false} EntryHeld(m: Meaning, schema: Schema, x: Indexes, r: Rec, id: Value, i: nat)
    requires ProperNames(schema) && Spells(m, schema, x) && i < |schema| && Field(r, schema[i].field) != Nil
    requires PairsOf(schema, r, id) <= x.pairs.Keys && UniquesOf(schema, r) <= x.unique.Keys
    ensures KeyIn(schema[i], r, id) in Held(m, schema[i].name)
  {
    var n, v := schema[i].name, Field(r, schema[i].field);
    assert SpellsIndex(m, schema, x, i);
    if schema[i].unique {
      OwnValue(schema, i, r, v);
      assert (n, v) in x.unique;
    } else {
      OwnPair(schema, i, r, id, v, id);
      assert (n, v, id) in x.pairs;
    }
  }
}
