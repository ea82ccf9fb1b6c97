/**
 Applying a committed transaction to the indexes of a table: deletions, then insertions, then updates,
 each kind in the order in which the program happens to iterate over its map.

 The primary and the non-unique indexes always end up agreeing with the view of the transaction. The
 unique indexes do so exactly when no value is handed from an update to a record entered before it.
 */
module CommitApply {
  import opened Options
  import opened PageFormat
  import opened Values
  import opened Records
  import opened ShadowIndex
  import opened Overlay
  import opened UniqueCheck

  // ---------------------------------------------------------------- the steps

  function LeaveAll(x: Indexes, schema: Schema, read: Reader, ks: seq<Value>): Indexes
    decreases |ks|
  {
    if ks == [] then x
    else
      var y, k := LeaveAll(x, schema, read, ks[..|ks| - 1]), ks[|ks| - 1];
      Leave(y, schema, k, ReadCommitted(y, read, k))
  }

  function EnterAll(x: Indexes, schema: Schema, rs: seq<Rec>, ps: seq<Pointer>): Indexes
    requires |ps| == |rs|
    decreases |rs|
  {
    if rs == [] then x
    else Enter(EnterAll(x, schema, rs[..|rs| - 1], ps[..|rs| - 1]), schema, rs[|rs| - 1], ps[|rs| - 1])
  }

  function ReplaceAll(x: Indexes, schema: Schema, read: Reader, rs: seq<Rec>, ps: seq<Pointer>): Indexes
    requires |ps| == |rs|
    decreases |rs|
  {
    if rs == [] then x
    else
      var y, r := ReplaceAll(x, schema, read, rs[..|rs| - 1], ps[..|rs| - 1]), rs[|rs| - 1];
      Enter(Leave(y, schema, r.id, ReadCommitted(y, read, r.id)), schema, r, ps[|rs| - 1])
  }

  /** The order in which the program goes through the staged changes. */
  datatype Order = Order(deletes: seq<Value>, inserts: seq<Rec>, updates: seq<Rec>)

  function Applied(x: Indexes, schema: Schema, read: Reader, c: Changes, o: Order, ps: seq<Pointer>): Indexes
    requires |ps| == |o.inserts| + |o.updates|
  {
    var n := |o.inserts|;
    var x0 := if c.cleared then EMPTY else x;
    ReplaceAll(EnterAll(LeaveAll(x0, schema, read, o.deletes), schema, o.inserts, ps[..n]), schema, read, o.updates,
               ps[n..])
  }

  method ApplyCommit(file: ShadowFile, schema: Schema, read: Reader, c: Changes, o: Order, ps: seq<Pointer>)
    returns (ok: bool)
    requires |ps| == |o.inserts| + |o.updates|
    requires (forall i :: 0 <= i < |o.inserts| ==> o.inserts[i].id != Nil)
    requires (forall i :: 0 <= i < |o.updates| ==> o.updates[i].id != Nil)
    modifies file
    ensures ok && file.State() == Applied(old(file.State()), schema, read, c, o, ps)
  {
    ok := true;
    ghost var x0 := if c.cleared then EMPTY else file.State();
    if c.cleared {
      file.primary, file.pairs, file.unique := map[], map[], map[];
    }
    for i := 0 to |o.deletes|
      invariant file.State() == LeaveAll(x0, schema, read, o.deletes[..i])
    {
      assert o.deletes[..i + 1][..i] == o.deletes[..i];
      var k := o.deletes[i];
      var old_ := if k in file.primary then read(file.primary[k]) else None;
      file.ShadowDelete(schema, k, old_);
    }
    assert o.deletes[..|o.deletes|] == o.deletes;
    ghost var x1 := file.State();
    var n := |o.inserts|;
    for i := 0 to n
      invariant ok && file.State() == EnterAll(x1, schema, o.inserts[..i], ps[..i])
    {
      assert o.inserts[..i + 1][..i] == o.inserts[..i] && ps[..i + 1][..i] == ps[..i];
      ok := file.ShadowInsert(schema, o.inserts[i], ps[i]);
    }
    assert o.inserts[..n] == o.inserts;
    ghost var x2 := file.State();
    ok := ApplyUpdates(file, schema, read, o.updates, ps[n..]);
  }

  method ApplyUpdates(file: ShadowFile, schema: Schema, read: Reader, updates: seq<Rec>, ps: seq<Pointer>)
    returns (ok: bool)
    requires |ps| == |updates| && forall i :: 0 <= i < |updates| ==> updates[i].id != Nil
    modifies file
    ensures ok && file.State() == ReplaceAll(old(file.State()), schema, read, updates, ps)
  {
    ok := true;
    for i := 0 to |updates|
      invariant ok && file.State() == ReplaceAll(old(file.State()), schema, read, updates[..i], ps[..i])
    {
      assert updates[..i + 1][..i] == updates[..i] && ps[..i + 1][..i] == ps[..i];
      ok := ApplyUpdate(file, schema, read, updates[i], ps[i]);
    }
    assert updates[..|updates|] == updates && ps[..|updates|] == ps;
  }

  method ApplyUpdate(file: ShadowFile, schema: Schema, read: Reader, r: Rec, p: Pointer) returns (ok: bool)
    requires r.id != Nil
    modifies file
    ensures var x := old(file.State());
            ok && file.State() == Enter(Leave(x, schema, r.id, ReadCommitted(x, read, r.id)), schema, r, p)
  {
    var old_ := if r.id in file.primary then read(file.primary[r.id]) else None;
    file.ShadowDelete(schema, r.id, old_);
    ok := file.ShadowInsert(schema, r, p);
  }

  // ---------------------------------------------------------------- the tables in between

  function PutRecs(t: Table, rs: seq<Rec>): Table
    decreases |rs|
  {
    if rs == [] then t else PutRecs(t, rs[..|rs| - 1])[rs[|rs| - 1].id := rs[|rs| - 1]]
  }

  function Minus(t: Table, ks: seq<Value>): Table
    decreases |ks|
  {
    if ks == [] then t else Minus(t, ks[..|ks| - 1]) - {ks[|ks| - 1]}
  }

  ghost predicate DistinctIds(rs: seq<Rec>) {
    forall i, j :: 0 <= i < j < |rs| ==> rs[i].id != rs[j].id
  }

  /** `rs` lists the records of `t`, each once. */
  ghost predicate ListsTable(rs: seq<Rec>, t: Table) {
    && DistinctIds(rs)
    && (forall i :: 0 <= i < |rs| ==> rs[i].id in t && t[rs[i].id] == rs[i])
    && (forall k :: k in t ==> exists i :: 0 <= i < |rs| && rs[i].id == k)
  }

  ghost predicate ListsSet(ks: seq<Value>, s: set<Value>) {
    && (forall i, j :: 0 <= i < j < |ks| ==> ks[i] != ks[j])
    && (forall i :: 0 <= i < |ks| ==> ks[i] in s)
    && (forall k :: k in s ==> k in ks)
  }

  lemma {:induction false} PutRecsAt(t: Table, rs: seq<Rec>, k: Value)
    requires DistinctIds(rs)
    ensures forall i :: 0 <= i < |rs| && rs[i].id == k ==> k in PutRecs(t, rs) && PutRecs(t, rs)[k] == rs[i]
    ensures (forall i :: 0 <= i < |rs| ==> rs[i].id != k) ==>
              (k in PutRecs(t, rs) <==> k in t) && (k in t ==> PutRecs(t, rs)[k] == t[k])
    decreases |rs|
  {
    if rs != [] {
      var init := rs[..|rs| - 1];
      assert forall i :: 0 <= i < |init| ==> init[i] == rs[i];
      PutRecsAt(t, init, k);
    }
  }

  lemma {:induction false} MinusAt(t: Table, ks: seq<Value>, k: Value)
    ensures k in Minus(t, ks) <==> k in t && k !in ks
    ensures k in Minus(t, ks) ==> Minus(t, ks)[k] == t[k]
    decreases |ks|
  {
    if ks != [] {
      MinusAt(t, ks[..|ks| - 1], k);
      assert ks == ks[..|ks| - 1] + [ks[|ks| - 1]];
    }
  }

  /** The table after some of the insertions and updates. */
  function Midway(committed: Table, c: Changes, deletes: seq<Value>, inserts: seq<Rec>, updates: seq<Rec>): Table {
    PutRecs(PutRecs(Minus(if c.cleared then map[] else committed, deletes), inserts), updates)
  }

  ghost predicate Follows(o: Order, c: Changes) {
    ListsSet(o.deletes, c.deletes) && ListsTable(o.inserts, c.inserts) && ListsTable(o.updates, c.updates)
  }

  /** At the end it is the view of the transaction. */
  lemma {:induction false} MidwayEnds(committed: Table, c: Changes, o: Order)
    requires Proper(committed, c) && Follows(o, c)
    ensures Midway(committed, c, o.deletes, o.inserts, o.updates) == View(committed, c)
  {
    var base := if c.cleared then map[] else committed;
    var t0 := Minus(base, o.deletes);
    var t1 := PutRecs(t0, o.inserts);
    var t := PutRecs(t1, o.updates);
    var v := View(committed, c);
    forall k
      ensures (k in t <==> k in v) && (k in t ==> t[k] == v[k])
    {
      MinusAt(base, o.deletes, k);
      PutRecsAt(t0, o.inserts, k);
      PutRecsAt(t1, o.updates, k);
    }
  }

  // ---------------------------------------------------------------- primary and non-unique indexes

  ghost predicate Agrees(schema: Schema, read: Reader, x: Indexes, t: Table) {
    PrimaryAgrees(read, x, t) && PairsAgree(schema, x, t)
  }

  lemma {:induction false} LeaveAllAgrees(schema: Schema, read: Reader, x: Indexes, t: Table, ks: seq<Value>)
    requires Agrees(schema, read, x, t)
    requires (forall i, j :: 0 <= i < j < |ks| ==> ks[i] != ks[j]) && forall i :: 0 <= i < |ks| ==> ks[i] in t
    ensures Agrees(schema, read, LeaveAll(x, schema, read, ks), Minus(t, ks))
    decreases |ks|
  {
    if ks != [] {
      var init, k := ks[..|ks| - 1], ks[|ks| - 1];
      LeaveAllAgrees(schema, read, x, t, init);
      MinusAt(t, init, k);
      LeaveAgrees(schema, read, LeaveAll(x, schema, read, init), Minus(t, init), k);
    }
  }

  /** New records with pointers that read them back. */
  ghost predicate Enterable(read: Reader, t: Table, rs: seq<Rec>, ps: seq<Pointer>) {
    |ps| == |rs| && DistinctIds(rs) && forall i :: 0 <= i < |rs| ==> rs[i].id !in t && read(ps[i]) == Some(rs[i])
  }

  lemma {:induction false} EnterableInit(read: Reader, t: Table, rs: seq<Rec>, ps: seq<Pointer>)
    requires Enterable(read, t, rs, ps) && rs != []
    ensures var n := |rs| - 1;
            Enterable(read, t, rs[..n], ps[..n]) && rs[n].id !in PutRecs(t, rs[..n]) && read(ps[n]) == Some(rs[n])
  {
    PutRecsAt(t, rs[..|rs| - 1], rs[|rs| - 1].id);
  }

  lemma {:induction false} EnterAllAgrees(schema: Schema, read: Reader, x: Indexes, t: Table, rs: seq<Rec>,
                                          ps: seq<Pointer>)
    requires Agrees(schema, read, x, t) && Enterable(read, t, rs, ps)
    ensures Agrees(schema, read, EnterAll(x, schema, rs, ps), PutRecs(t, rs))
    decreases |rs|
  {
    if rs != [] {
      var n := |rs| - 1;
      EnterableInit(read, t, rs, ps);
      EnterAllAgrees(schema, read, x, t, rs[..n], ps[..n]);
      EnterAgrees(schema, read, EnterAll(x, schema, rs[..n], ps[..n]), PutRecs(t, rs[..n]), rs[n], ps[n]);
    }
  }

  lemma {:induction false} ReplaceAllAgrees(schema: Schema, read: Reader, x: Indexes, t: Table, rs: seq<Rec>,
                                            ps: seq<Pointer>)
    requires Agrees(schema, read, x, t) && DistinctIds(rs) && |ps| == |rs|
    requires forall i :: 0 <= i < |rs| ==> rs[i].id in t && read(ps[i]) == Some(rs[i])
    ensures Agrees(schema, read, ReplaceAll(x, schema, read, rs, ps), PutRecs(t, rs))
    decreases |rs|
  {
    if rs != [] {
      var n := |rs| - 1;
      var init, ps' := rs[..n], ps[..n];
      assert forall i :: 0 <= i < n ==> init[i] == rs[i] && ps'[i] == ps[i];
      ReplaceAllAgrees(schema, read, x, t, init, ps');
      PutRecsAt(t, init, rs[n].id);
      ReplaceAgrees(schema, read, ReplaceAll(x, schema, read, init, ps'), PutRecs(t, init), rs[n], ps[n]);
    }
  }

  /** An update removes the entries of the old record and enters the new one. */
  lemma {:induction false} ReplaceAgrees(schema: Schema, read: Reader, x: Indexes, t: Table, r: Rec, p: Pointer)
    requires Agrees(schema, read, x, t) && r.id in t && read(p) == Some(r)
    ensures ReadCommitted(x, read, r.id) == Some(t[r.id])
    ensures Agrees(schema, read, Enter(Leave(x, schema, r.id, ReadCommitted(x, read, r.id)), schema, r, p),
                   t[r.id := r])
  {
    LeaveAgrees(schema, read, x, t, r.id);
    EnterAgrees(schema, read, Leave(x, schema, r.id, Some(t[r.id])), t - {r.id}, r, p);
    assert (t - {r.id})[r.id := r] == t[r.id := r];
  }

  /** The pointers that the table file returned read back the staged records. */
  ghost predicate Written(read: Reader, o: Order, ps: seq<Pointer>) {
    |ps| == |o.inserts| + |o.updates| && forall i :: 0 <= i < |ps| ==> read(ps[i]) == Some((o.inserts + o.updates)[i])
  }

  /** After the commit the primary index and the non-unique indexes agree with the view of the transaction. */
  lemma {:induction false} CommitAgrees(schema: Schema, read: Reader, x: Indexes, committed: Table, c: Changes,
                                        o: Order, ps: seq<Pointer>)
    requires Proper(committed, c) && Follows(o, c) && Agrees(schema, read, x, committed) && Written(read, o, ps)
    ensures Agrees(schema, read, Applied(x, schema, read, c, o, ps), View(committed, c))
  {
    var n := |o.inserts|;
    var t0 := if c.cleared then map[] else committed;
    var t2 := PutRecs(Minus(t0, o.deletes), o.inserts);
    EnteredAgrees(schema, read, x, committed, c, o, ps);
    UpdatesReady(read, committed, c, o, ps);
    ReplaceAllAgrees(schema, read, Entered(x, schema, read, c, o, ps), t2, o.updates, ps[n..]);
    MidwayEnds(committed, c, o);
  }

  lemma {:induction false} UpdatesReady(read: Reader, committed: Table, c: Changes, o: Order, ps: seq<Pointer>)
    requires Proper(committed, c) && Follows(o, c) && Written(read, o, ps)
    ensures var n := |o.inserts|;
            var t2 := PutRecs(Minus(if c.cleared then map[] else committed, o.deletes), o.inserts);
            forall i :: 0 <= i < |o.updates| ==> o.updates[i].id in t2 && read(ps[n..][i]) == Some(o.updates[i])
  {
    var n := |o.inserts|;
    var t2 := PutRecs(Minus(if c.cleared then map[] else committed, o.deletes), o.inserts);
    forall i | 0 <= i < |o.updates|
      ensures o.updates[i].id in t2 && read(ps[n..][i]) == Some(o.updates[i])
    {
      UpdatePresent(committed, c, o, i);
      assert (o.inserts + o.updates)[n + i] == o.updates[i];
    }
  }

  /** The indexes after the deletions and insertions. */
  function Entered(x: Indexes, schema: Schema, read: Reader, c: Changes, o: Order, ps: seq<Pointer>): Indexes
    requires |ps| == |o.inserts| + |o.updates|
  {
    EnterAll(LeaveAll(if c.cleared then EMPTY else x, schema, read, o.deletes), schema, o.inserts, ps[..|o.inserts|])
  }

  lemma {:induction false} UpdatePresent(committed: Table, c: Changes, o: Order, i: nat)
    requires Proper(committed, c) && Follows(o, c) && i < |o.updates|
    ensures var t0 := if c.cleared then map[] else committed;
            o.updates[i].id in PutRecs(Minus(t0, o.deletes), o.inserts)
    ensures PutRecs(Minus(committed, o.deletes), o.inserts)[o.updates[i].id] == committed[o.updates[i].id]
  {
    var k := o.updates[i].id;
    MinusAt(committed, o.deletes, k);
    PutRecsAt(Minus(committed, o.deletes), o.inserts, k);
  }

  lemma {:induction false} EnteredAgrees(schema: Schema, read: Reader, x: Indexes, committed: Table, c: Changes,
                                         o: Order, ps: seq<Pointer>)
    requires Proper(committed, c) && Follows(o, c) && Agrees(schema, read, x, committed) && Written(read, o, ps)
    ensures var t0 := if c.cleared then map[] else committed;
            Agrees(schema, read, Entered(x, schema, read, c, o, ps), PutRecs(Minus(t0, o.deletes), o.inserts))
  {
    var n := |o.inserts|;
    var x0, t0 := if c.cleared then EMPTY else x, if c.cleared then map[] else committed;
    EmptyAgrees(schema, read);
    LeaveAllAgrees(schema, read, x0, t0, o.deletes);
    forall i | 0 <= i < n
      ensures o.inserts[i].id !in Minus(t0, o.deletes) && read(ps[..n][i]) == Some(o.inserts[i])
    {
      MinusAt(t0, o.deletes, o.inserts[i].id);
      assert (o.inserts + o.updates)[i] == o.inserts[i];
    }
    EnterAllAgrees(schema, read, LeaveAll(x0, schema, read, o.deletes), Minus(t0, o.deletes), o.inserts, ps[..n]);
  }

  lemma {:induction false} EmptyAgrees(schema: Schema, read: Reader)
    ensures Agrees(schema, read, EMPTY, map[]) && UniqueAgrees(schema, EMPTY, map[])
  {
  }
}
