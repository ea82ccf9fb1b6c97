/**
 When the log of some transactions gives no unique value away, so that recovery rebuilds their unique
 indexes: if none of them leaves duplicates, and in none does an update give up a value that another
 staged record takes. That is the condition under which their commits keep the unique indexes right.
 */
module LogUnique {
  import opened Values
  import opened Records
  import opened ShadowIndex
  import opened Overlay
  import opened CommitApply
  import opened CommitTable
  import opened UniqueCommit
  import opened Replay
  import opened ReplayUnique
  import opened Recovery
  import opened CommitLog

  /** Change `ch` of table `t` takes `u` from record `j` while record `k` holds it too. */
  ghost predicate TakesAway(schema: Schema, t: Table, ch: Change, j: Value, k: Value, u: Entry) {
    && j != k && Holds(schema, t, j, u) && Holds(schema, t, k, u) && !Holds(schema, FoldOne(t, ch), j, u)
    && !ch.Wipe? && k !in Touches(ch)
  }

  ghost predicate TakesNothing(schema: Schema, t: Table, ch: Change) {
    forall j, k, u :: !TakesAway(schema, t, ch, j, k, u)
  }

  lemma {:induction false} OneMoreGives(schema: Schema, cs: seq<Change>, ch: Change)
    requires !LogGivesAway(schema, cs) && TakesNothing(schema, Fold(cs), ch)
    ensures !LogGivesAway(schema, cs + [ch])
  {
    var all := cs + [ch];
    forall q: nat, j, k, u
      ensures !GivesAway(schema, all, q, j, k, u)
    {
      if q < |cs| {
        assert all[..q] == cs[..q] && all[..q + 1] == cs[..q + 1];
        assert forall i :: q <= i < |cs| ==> cs[i] == all[i];
        assert !GivesAway(schema, cs, q, j, k, u);
      } else if q == |cs| {
        assert all[..q] == cs && all[..q + 1] == all && all[q] == ch;
        assert all[..|all| - 1] == cs;
        assert !TakesAway(schema, Fold(cs), ch, j, k, u);
      }
    }
  }

  lemma {:induction false} RemovesGive(codec: Codec, schema: Schema, cs: seq<Change>, ks: seq<Value>)
    requires LoggedExactly(codec, cs) && NoDuplicates(schema, Fold(cs)) && !LogGivesAway(schema, cs)
    requires (forall i, j :: 0 <= i < j < |ks| ==> ks[i] != ks[j]) && forall i :: 0 <= i < |ks| ==> ks[i] in Fold(cs)
    ensures !LogGivesAway(schema, cs + Removes(ks))
    decreases |ks|
  {
    if ks == [] {
      assert cs + [] == cs;
    } else {
      var n := |ks| - 1;
      RemovesGive(codec, schema, cs, ks[..n]);
      LogRemoves(codec, cs, ks[..n]);
      MinusNoDuplicates(schema, Fold(cs), ks[..n]);
      OneMoreGives(schema, cs + Removes(ks[..n]), Remove(ks[n]));
      assert cs + Removes(ks) == cs + Removes(ks[..n]) + [Remove(ks[n])];
    }
  }

  lemma {:induction false} MinusNoDuplicates(schema: Schema, t: Table, ks: seq<Value>)
    requires NoDuplicates(schema, t)
    ensures NoDuplicates(schema, Minus(t, ks))
  {
    forall j, k, u | Holds(schema, Minus(t, ks), j, u) && Holds(schema, Minus(t, ks), k, u)
      ensures j == k
    {
      MinusAt(t, ks, j);
      MinusAt(t, ks, k);
      assert Holds(schema, t, j, u) && Holds(schema, t, k, u);
    }
  }

  /** Putting `rs` one after the other takes no value from a record while another holds it. */
  ghost predicate PutsFreely(schema: Schema, t: Table, kind: Kind, rs: seq<Rec>) {
    forall i :: 0 <= i < |rs| ==> TakesNothing(schema, PutRecs(t, rs[..i]), Put(kind, rs[i]))
  }

  lemma {:induction false} FreelyNext(schema: Schema, t: Table, kind: Kind, rs: seq<Rec>)
    requires rs != [] && PutsFreely(schema, t, kind, rs)
    ensures var n := |rs| - 1;
            PutsFreely(schema, t, kind, rs[..n]) && TakesNothing(schema, PutRecs(t, rs[..n]), Put(kind, rs[n]))
  {
    var init := rs[..|rs| - 1];
    assert forall i :: 0 <= i < |init| ==> init[..i] == rs[..i] && init[i] == rs[i];
  }

  lemma {:induction false} PutsGive(codec: Codec, schema: Schema, cs: seq<Change>, kind: Kind, rs: seq<Rec>)
    requires LoggedExactly(codec, cs) && Loggable(codec, kind, rs, Fold(cs))
    requires !LogGivesAway(schema, cs) && PutsFreely(schema, Fold(cs), kind, rs)
    ensures !LogGivesAway(schema, cs + Puts(kind, rs))
    decreases |rs|
  {
    if rs == [] {
      assert cs + [] == cs;
    } else {
      var n := |rs| - 1;
      var init := rs[..n];
      LoggableNext(codec, kind, rs, Fold(cs));
      FreelyNext(schema, Fold(cs), kind, rs);
      PutsGive(codec, schema, cs, kind, init);
      LogPuts(codec, cs, kind, init);
      OneMoreGives(schema, cs + Puts(kind, init), Put(kind, rs[n]));
      assert cs + Puts(kind, rs) == cs + Puts(kind, init) + [Put(kind, rs[n])];
    }
  }

  /** Insertions take nothing from anybody. */
  lemma {:induction false} InsertsFreely(schema: Schema, t: Table, rs: seq<Rec>)
    requires DistinctIds(rs) && forall i :: 0 <= i < |rs| ==> rs[i].id !in t
    ensures PutsFreely(schema, t, Inserted, rs)
  {
    forall i | 0 <= i < |rs|
      ensures rs[i].id !in PutRecs(t, rs[..i])
    {
      PutRecsAt(t, rs[..i], rs[i].id);
    }
  }

  /** Nor do updates, if no value is handed over. */
  lemma {:induction false} UpdatesFreely(schema: Schema, committed: Table, c: Changes, o: Order)
    requires Proper(committed, c) && Follows(o, c) && NoDuplicates(schema, committed)
    requires !ValueHandedOver(schema, committed, c)
    ensures var t0 := if c.cleared then map[] else committed;
            PutsFreely(schema, PutRecs(Minus(t0, o.deletes), o.inserts), Updated, o.updates)
  {
    var t0 := if c.cleared then map[] else committed;
    var t := PutRecs(Minus(t0, o.deletes), o.inserts);
    forall i | 0 <= i < |o.updates|
      ensures TakesNothing(schema, PutRecs(t, o.updates[..i]), Put(Updated, o.updates[i]))
    {
      forall j, k, u
        ensures !TakesAway(schema, PutRecs(t, o.updates[..i]), Put(Updated, o.updates[i]), j, k, u)
      {
        UpdateTakes(schema, committed, c, o, i, j, k, u);
      }
    }
  }

  /** The record under `k` between two updates: staged, or committed. */
  lemma {:induction false} BetweenUpdates(committed: Table, c: Changes, o: Order, i: nat, k: Value)
    requires Proper(committed, c) && Follows(o, c) && i <= |o.updates|
    ensures var t0 := if c.cleared then map[] else committed;
            var t := PutRecs(PutRecs(Minus(t0, o.deletes), o.inserts), o.updates[..i]);
            k in t ==>
              || (k in c.updates && t[k] == c.updates[k] && exists l :: 0 <= l < i && o.updates[l].id == k)
              || (k in c.inserts && t[k] == c.inserts[k])
              || (k in committed && t[k] == committed[k] && !c.cleared)
  {
    var t0 := if c.cleared then map[] else committed;
    PutRecsAt(PutRecs(Minus(t0, o.deletes), o.inserts), o.updates[..i], k);
    PutRecsAt(Minus(t0, o.deletes), o.inserts, k);
    MinusAt(t0, o.deletes, k);
    assert forall l :: 0 <= l < i ==> o.updates[..i][l] == o.updates[l];
  }

  /** Putting a record takes values from none but its older version. */
  lemma {:induction false} PutTakes(schema: Schema, t: Table, kind: Kind, r: Rec, j: Value, k: Value, u: Entry)
    ensures TakesAway(schema, t, Put(kind, r), j, k, u) ==>
              j == r.id && j != k && Holds(schema, t, j, u) && Holds(schema, t, k, u)
  {
  }

  lemma {:induction false} UpdateTakes(schema: Schema, committed: Table, c: Changes, o: Order, i: nat, j: Value,
                                       k: Value, u: Entry)
    requires Proper(committed, c) && Follows(o, c) && NoDuplicates(schema, committed)
    requires !ValueHandedOver(schema, committed, c) && i < |o.updates|
    ensures var t0 := if c.cleared then map[] else committed;
            var t := PutRecs(PutRecs(Minus(t0, o.deletes), o.inserts), o.updates[..i]);
            !TakesAway(schema, t, Put(Updated, o.updates[i]), j, k, u)
  {
    var t0 := if c.cleared then map[] else committed;
    var t := PutRecs(PutRecs(Minus(t0, o.deletes), o.inserts), o.updates[..i]);
    PutTakes(schema, t, Updated, o.updates[i], j, k, u);
    BetweenUpdates(committed, c, o, i, j);
    BetweenUpdates(committed, c, o, i, k);
    assert !HandedOver(schema, committed, c, k, j, u);
    assert Holds(schema, committed, j, u) && Holds(schema, committed, k, u) ==> j == k;
  }

  /** The log of one commit gives nothing away. */
  lemma {:induction false} CommitGives(codec: Codec, schema: Schema, cs: seq<Change>, committed: Table, c: Changes,
                                       o: Order)
    requires LoggedExactly(codec, cs) && Fold(cs) == committed
    requires Proper(committed, c) && Follows(o, c) && Readable(codec, o)
    requires NoDuplicates(schema, committed) && !ValueHandedOver(schema, committed, c) && !LogGivesAway(schema, cs)
    ensures !LogGivesAway(schema, cs + ChangesOf(c, o))
  {
    var wipe: seq<Change> := if c.cleared then [Wipe] else [];
    var t0 := if c.cleared then map[] else committed;
    var cs0 := cs + wipe;
    if c.cleared {
      ExtendOne(codec, cs, Wipe);
      OneMoreGives(schema, cs, Wipe);
    } else {
      assert cs0 == cs;
    }
    var cs1 := cs0 + Removes(o.deletes);
    var cs2 := cs1 + Puts(Inserted, o.inserts);
    LogRemoves(codec, cs0, o.deletes);
    RemovesGive(codec, schema, cs0, o.deletes);
    ListedLoggable(codec, committed, c, o);
    LogPuts(codec, cs1, Inserted, o.inserts);
    InsertsFreely(schema, Fold(cs1), o.inserts);
    PutsGive(codec, schema, cs1, Inserted, o.inserts);
    UpdatesFreely(schema, committed, c, o);
    PutsGive(codec, schema, cs2, Updated, o.updates);
    Regroup(cs, wipe, Removes(o.deletes), Puts(Inserted, o.inserts), Puts(Updated, o.updates));
  }

  // ---------------------------------------------------------------- many transactions

  /** No value is handed over in the changes that a transaction stages for table `n`. */
  ghost predicate TxHandsNothing(schema: Schema, t: Table, tx: Tx, n: string) {
    forall i :: 0 <= i < |tx| && tx[i].table == n ==> !ValueHandedOver(schema, t, tx[i].changes)
  }

  /** The transactions leave no duplicates in table `n` and hand no value of it over. */
  ghost predicate Uniquely(schema: Schema, txs: seq<Tx>, n: string)
    decreases |txs|
  {
    && NoDuplicates(schema, TableOf(txs, n))
    && (txs != [] ==>
          var init := txs[..|txs| - 1];
          Uniquely(schema, init, n) && TxHandsNothing(schema, TableOf(init, n), txs[|txs| - 1], n))
  }

  lemma {:induction false} TxGives(codec: Codec, schema: Schema, cs: seq<Change>, tx: Tx, n: string)
    requires LoggedExactly(codec, cs) && DistinctTables(tx)
    requires forall i :: 0 <= i < |tx| && tx[i].table == n ==> StagedOn(codec, Fold(cs), tx[i])
    requires NoDuplicates(schema, Fold(cs)) && TxHandsNothing(schema, Fold(cs), tx, n) && !LogGivesAway(schema, cs)
    ensures !LogGivesAway(schema, cs + Project(StepsOfTx(tx), n))
    decreases |tx|
  {
    if tx == [] {
      assert cs + [] == cs;
    } else {
      var k := |tx| - 1;
      assert forall i :: 0 <= i < k ==> tx[..k][i] == tx[i];
      ProjectLast(tx, n);
      var before := Project(StepsOfTx(tx[..k]), n);
      if tx[k].table == n {
        Elsewhere(tx[..k], n);
        CommitGives(codec, schema, cs, Fold(cs), tx[k].changes, tx[k].order);
        assert before + ChangesOf(tx[k].changes, tx[k].order) == ChangesOf(tx[k].changes, tx[k].order);
      } else {
        TxGives(codec, schema, cs, tx[..k], n);
        assert before + [] == before;
      }
    }
  }

  /** The log of such transactions gives nothing away. */
  lemma {:induction false} LogGives(codec: Codec, schema: Schema, txs: seq<Tx>, n: string)
    requires Transacted(codec, txs) && Uniquely(schema, txs, n)
    ensures !LogGivesAway(schema, Project(StepsOfAll(txs), n))
    decreases |txs|
  {
    if txs != [] {
      var k := |txs| - 1;
      LogFolds(codec, txs[..k], n);
      LogGives(codec, schema, txs[..k], n);
      TxGives(codec, schema, Project(StepsOfAll(txs[..k]), n), txs[k], n);
      ProjectConcat(StepsOfAll(txs[..k]), StepsOfTx(txs[k]), n);
    }
  }

  /**
   The unique indexes after recovery. From index files whose entries come from the history of the log, they
   agree with the table that the transactions left if and only if the log gives no value away; and it
   gives none away if the transactions leave no duplicates and hand none over.
   */
  lemma {:induction false} RecoveryGivesUniques(codec: Codec, schemas: string -> Schema, db: Db, txs: seq<Tx>,
                                                n: string)
    requires RoundTrips(codec) && Transacted(codec, txs) && NoDuplicates(schemas(n), TableOf(txs, n))
    requires UniqueFromHistory(schemas(n), FileOf(db, n).x, Project(StepsOfAll(txs), n))
    ensures var f, cs := FileOf(ReplayDb(codec, schemas, db, StepsOfAll(txs)), n), Project(StepsOfAll(txs), n);
            && (UniqueAgrees(schemas(n), f.x, TableOf(txs, n)) <==> !LogGivesAway(schemas(n), cs))
            && (Uniquely(schemas(n), txs, n) ==> UniqueAgrees(schemas(n), f.x, TableOf(txs, n)))
  {
    LogFolds(codec, txs, n);
    RecoveryUniques(codec, schemas, db, StepsOfAll(txs), n);
    if Uniquely(schemas(n), txs, n) {
      LogGives(codec, schemas(n), txs, n);
    }
  }
}
