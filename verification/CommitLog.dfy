/**
 The log records of a commit, and why recovery gives what the transactions saw.

 A commit logs the clearing of a table, then its deletions, insertions and updates, in the orders in
 which it later applies them. Folding the log of any sequence of transactions gives the views of the
 last of them, table by table, so that is what recovery rebuilds.
 */
module CommitLog {
  import opened Values
  import opened Records
  import opened ShadowIndex
  import opened Overlay
  import opened TableStorage
  import opened CommitApply
  import opened CommitTable
  import opened Replay
  import opened ReplayUnique
  import opened Recovery

  function Removes(ks: seq<Value>): seq<Change>
    decreases |ks|
  {
    if ks == [] then [] else Removes(ks[..|ks| - 1]) + [Remove(ks[|ks| - 1])]
  }

  function Puts(kind: Kind, rs: seq<Rec>): seq<Change>
    decreases |rs|
  {
    if rs == [] then [] else Puts(kind, rs[..|rs| - 1]) + [Put(kind, rs[|rs| - 1])]
  }

  /** What a commit logs for one table. */
  function ChangesOf(c: Changes, o: Order): seq<Change> {
    (if c.cleared then [Wipe] else []) + Removes(o.deletes) + Puts(Inserted, o.inserts) + Puts(Updated, o.updates)
  }

  // ---------------------------------------------------------------- one table

  ghost predicate LoggedExactly(codec: Codec, cs: seq<Change>) {
    Logged(codec, cs) && Exact(cs)
  }

  /** What logging `more` behind `cs` needs and gives, step by step. */
  ghost predicate Extends(codec: Codec, cs: seq<Change>, more: seq<Change>, t: Table) {
    LoggedExactly(codec, cs + more) && Fold(cs + more) == t
  }

  lemma {:induction false} ExtendOne(codec: Codec, cs: seq<Change>, ch: Change)
    requires LoggedExactly(codec, cs) && ExactOne(Fold(cs), ch)
    requires ch.Put? ==> ch.rec.id != Nil && |codec.marshal(ch.rec)| <= MAX_RECORD
    ensures Extends(codec, cs, [ch], FoldOne(Fold(cs), ch))
  {
    var all := cs + [ch];
    assert all[..|cs|] == cs;
    assert forall i :: 0 <= i < |cs| ==> all[i] == cs[i] && all[..i] == cs[..i];
  }

  lemma {:induction false} ExtendMore(codec: Codec, cs: seq<Change>, a: seq<Change>, b: seq<Change>, t: Table)
    requires Extends(codec, cs + a, b, t)
    ensures Extends(codec, cs, a + b, t)
  {
    assert cs + a + b == cs + (a + b);
  }

  lemma {:induction false} LogRemoves(codec: Codec, cs: seq<Change>, ks: seq<Value>)
    requires LoggedExactly(codec, cs)
    requires (forall i, j :: 0 <= i < j < |ks| ==> ks[i] != ks[j]) && forall i :: 0 <= i < |ks| ==> ks[i] in Fold(cs)
    ensures Extends(codec, cs, Removes(ks), Minus(Fold(cs), ks))
    decreases |ks|
  {
    if ks == [] {
      assert cs + [] == cs;
    } else {
      var n := |ks| - 1;
      LogRemoves(codec, cs, ks[..n]);
      MinusAt(Fold(cs), ks[..n], ks[n]);
      ExtendOne(codec, cs + Removes(ks[..n]), Remove(ks[n]));
      ExtendMore(codec, cs, Removes(ks[..n]), [Remove(ks[n])], Minus(Fold(cs), ks));
    }
  }

  /** Records that may be logged behind a table `t`: insertions are new to it, and updates are not. */
  ghost predicate Loggable(codec: Codec, kind: Kind, rs: seq<Rec>, t: Table) {
    && DistinctIds(rs) && SmallEnough(codec, rs)
    && forall i :: 0 <= i < |rs| ==> rs[i].id != Nil && (kind.Inserted? <==> rs[i].id !in t)
  }

  lemma {:induction false} LoggableNext(codec: Codec, kind: Kind, rs: seq<Rec>, t: Table)
    requires rs != [] && Loggable(codec, kind, rs, t)
    ensures var n := |rs| - 1;
            && Loggable(codec, kind, rs[..n], t) && ExactOne(PutRecs(t, rs[..n]), Put(kind, rs[n]))
            && rs[n].id != Nil && |codec.marshal(rs[n])| <= MAX_RECORD
  {
    var init := rs[..|rs| - 1];
    assert forall i :: 0 <= i < |init| ==> init[i] == rs[i];
    PutRecsAt(t, init, rs[|rs| - 1].id);
  }

  lemma {:induction false} LogPuts(codec: Codec, cs: seq<Change>, kind: Kind, rs: seq<Rec>)
    requires LoggedExactly(codec, cs) && Loggable(codec, kind, rs, Fold(cs))
    ensures Extends(codec, cs, Puts(kind, rs), PutRecs(Fold(cs), rs))
    decreases |rs|
  {
    if rs == [] {
      assert cs + [] == cs;
    } else {
      var n := |rs| - 1;
      LoggableNext(codec, kind, rs, Fold(cs));
      LogPuts(codec, cs, kind, rs[..n]);
      ExtendOne(codec, cs + Puts(kind, rs[..n]), Put(kind, rs[n]));
      ExtendMore(codec, cs, Puts(kind, rs[..n]), [Put(kind, rs[n])], PutRecs(Fold(cs), rs));
    }
  }

  /** Orders whose records can be read back. */
  ghost predicate Readable(codec: Codec, o: Order) {
    SmallEnough(codec, o.inserts) && SmallEnough(codec, o.updates)
  }

  lemma {:induction false} ListedLoggable(codec: Codec, committed: Table, c: Changes, o: Order)
    requires Proper(committed, c) && Follows(o, c) && Readable(codec, o)
    ensures var t0 := if c.cleared then map[] else committed;
            && Loggable(codec, Inserted, o.inserts, Minus(t0, o.deletes))
            && Loggable(codec, Updated, o.updates, PutRecs(Minus(t0, o.deletes), o.inserts))
  {
    var t0 := if c.cleared then map[] else committed;
    forall i | 0 <= i < |o.inserts|
      ensures o.inserts[i].id !in Minus(t0, o.deletes)
    {
      MinusAt(t0, o.deletes, o.inserts[i].id);
    }
    forall i | 0 <= i < |o.updates|
      ensures o.updates[i].id in PutRecs(Minus(t0, o.deletes), o.inserts)
    {
      MinusAt(t0, o.deletes, o.updates[i].id);
      PutRecsAt(Minus(t0, o.deletes), o.inserts, o.updates[i].id);
    }
  }

  /** The log of a commit is well formed behind that of the committed table, and folds to the transaction's view. */
  lemma {:induction false} CommitFolds(codec: Codec, cs: seq<Change>, committed: Table, c: Changes, o: Order)
    requires LoggedExactly(codec, cs) && Fold(cs) == committed
    requires Proper(committed, c) && Follows(o, c) && Readable(codec, o)
    ensures Extends(codec, cs, ChangesOf(c, o), View(committed, c))
  {
    var wipe: seq<Change> := if c.cleared then [Wipe] else [];
    var t0 := if c.cleared then map[] else committed;
    var cs0 := cs + wipe;
    if c.cleared {
      ExtendOne(codec, cs, Wipe);
    } else {
      assert cs0 == cs;
    }
    var cs1 := cs0 + Removes(o.deletes);
    var cs2 := cs1 + Puts(Inserted, o.inserts);
    LogRemoves(codec, cs0, o.deletes);
    ListedLoggable(codec, committed, c, o);
    LogPuts(codec, cs1, Inserted, o.inserts);
    LogPuts(codec, cs2, Updated, o.updates);
    MidwayEnds(committed, c, o);
    Regroup(cs, wipe, Removes(o.deletes), Puts(Inserted, o.inserts), Puts(Updated, o.updates));
  }

  lemma {:induction false} Regroup(a: seq<Change>, b: seq<Change>, c: seq<Change>, d: seq<Change>, e: seq<Change>)
    ensures a + b + c + d + e == a + (b + c + d + e)
  {
  }

  // ---------------------------------------------------------------- many transactions, many tables

  datatype Staged = Staged(table: string, changes: Changes, order: Order)

  /** A transaction: its staged changes, table by table in the order in which it logs them. */
  type Tx = seq<Staged>

  ghost predicate DistinctTables(tx: Tx) {
    forall i, j :: 0 <= i < j < |tx| ==> tx[i].table != tx[j].table
  }

  function Tag(n: string, cs: seq<Change>): (r: seq<Step>)
    ensures |r| == |cs|
  {
    seq(|cs|, i requires 0 <= i < |cs| => (n, cs[i]))
  }

  /** What the records of a transaction decode to. */
  function StepsOfTx(tx: Tx): seq<Step>
    decreases |tx|
  {
    if tx == [] then []
    else
      var last := tx[|tx| - 1];
      StepsOfTx(tx[..|tx| - 1]) + Tag(last.table, ChangesOf(last.changes, last.order))
  }

  function StepsOfAll(txs: seq<Tx>): seq<Step>
    decreases |txs|
  {
    if txs == [] then [] else StepsOfAll(txs[..|txs| - 1]) + StepsOfTx(txs[|txs| - 1])
  }

  /** The table `n` after some transactions. */
  function TableOf(txs: seq<Tx>, n: string): Table
    decreases |txs|
  {
    if txs == [] then map[] else AfterTx(TableOf(txs[..|txs| - 1], n), txs[|txs| - 1], n)
  }

  function AfterTx(t: Table, tx: Tx, n: string): Table
    decreases |tx|
  {
    if tx == [] then t
    else if tx[|tx| - 1].table == n then View(t, tx[|tx| - 1].changes)
    else AfterTx(t, tx[..|tx| - 1], n)
  }

  /** The changes were staged over the table `t`. */
  ghost predicate StagedOn(codec: Codec, t: Table, s: Staged) {
    Proper(t, s.changes) && Follows(s.order, s.changes) && Readable(codec, s.order)
  }

  /** Every transaction staged its changes over the tables that the ones before it left. */
  ghost predicate Transacted(codec: Codec, txs: seq<Tx>)
    decreases |txs|
  {
    txs == [] ||
    var init, last := txs[..|txs| - 1], txs[|txs| - 1];
    && Transacted(codec, init) && DistinctTables(last)
    && forall i :: 0 <= i < |last| ==> StagedOn(codec, TableOf(init, last[i].table), last[i])
  }

  lemma {:induction false} ProjectConcat(a: seq<Step>, b: seq<Step>, n: string)
    ensures Project(a + b, n) == Project(a, n) + Project(b, n)
    decreases |b|
  {
    if b == [] {
      assert a + b == a;
    } else {
      assert (a + b)[..|a + b| - 1] == a + b[..|b| - 1];
      ProjectConcat(a, b[..|b| - 1], n);
    }
  }

  lemma {:induction false} TagLast(m: string, cs: seq<Change>)
    requires cs != []
    ensures var k := |cs| - 1; Tag(m, cs)[..k] == Tag(m, cs[..k]) && Tag(m, cs)[k] == (m, cs[k])
  {
  }

  lemma {:induction false} ProjectTag(m: string, cs: seq<Change>, n: string)
    ensures Project(Tag(m, cs), n) == if m == n then cs else []
    decreases |cs|
  {
    if cs != [] {
      var k := |cs| - 1;
      TagLast(m, cs);
      ProjectTag(m, cs[..k], n);
      assert cs == cs[..k] + [cs[k]];
    }
  }

  lemma {:induction false} ProjectLast(tx: Tx, n: string)
    requires tx != []
    ensures var k := |tx| - 1;
            Project(StepsOfTx(tx), n) ==
            Project(StepsOfTx(tx[..k]), n) + (if tx[k].table == n then ChangesOf(tx[k].changes, tx[k].order) else [])
  {
    var last := tx[|tx| - 1];
    var more := ChangesOf(last.changes, last.order);
    ProjectConcat(StepsOfTx(tx[..|tx| - 1]), Tag(last.table, more), n);
    ProjectTag(last.table, more, n);
  }

  /** Of one transaction, a table has the changes staged for it and no others. */
  lemma {:induction false} TxFolds(codec: Codec, cs: seq<Change>, tx: Tx, n: string)
    requires LoggedExactly(codec, cs) && DistinctTables(tx)
    requires forall i :: 0 <= i < |tx| && tx[i].table == n ==> StagedOn(codec, Fold(cs), tx[i])
    ensures Extends(codec, cs, Project(StepsOfTx(tx), n), AfterTx(Fold(cs), tx, n))
    decreases |tx|
  {
    if tx == [] {
      assert cs + [] == cs;
    } else {
      var k := |tx| - 1;
      assert forall i :: 0 <= i < k ==> tx[..k][i] == tx[i];
      ProjectLast(tx, n);
      var before := Project(StepsOfTx(tx[..k]), n);
      if tx[k].table == n {
        Elsewhere(tx[..k], n);
        CommitFolds(codec, cs, Fold(cs), tx[k].changes, tx[k].order);
        assert before + ChangesOf(tx[k].changes, tx[k].order) == ChangesOf(tx[k].changes, tx[k].order);
      } else {
        TxFolds(codec, cs, tx[..k], n);
        assert before + [] == before;
      }
    }
  }

  lemma {:induction false} Elsewhere(tx: Tx, n: string)
    requires forall i :: 0 <= i < |tx| ==> tx[i].table != n
    ensures Project(StepsOfTx(tx), n) == []
    decreases |tx|
  {
    if tx != [] {
      var k := |tx| - 1;
      assert forall i :: 0 <= i < k ==> tx[..k][i] == tx[i];
      Elsewhere(tx[..k], n);
      ProjectLast(tx, n);
    }
  }

  /** The log of any transactions is well formed, and folds to the tables they leave. */
  lemma {:induction false} LogFolds(codec: Codec, txs: seq<Tx>, n: string)
    requires Transacted(codec, txs)
    ensures LoggedExactly(codec, Project(StepsOfAll(txs), n)) && Fold(Project(StepsOfAll(txs), n)) == TableOf(txs, n)
    decreases |txs|
  {
    if txs != [] {
      var k := |txs| - 1;
      LogFolds(codec, txs[..k], n);
      TxFolds(codec, Project(StepsOfAll(txs[..k]), n), txs[k], n);
      ProjectConcat(StepsOfAll(txs[..k]), StepsOfTx(txs[k]), n);
    }
  }

  /**
   Recovery gives the tables back: after replaying the log of any transactions, the indexes and the file of
   every table agree with the view of the last transaction on it, if what the index file held before
   comes from the history of that log.
   */
  lemma {:induction false} RecoveryGivesViews(codec: Codec, schemas: string -> Schema, db: Db, txs: seq<Tx>, n: string)
    requires RoundTrips(codec) && Transacted(codec, txs)
    requires FromHistory(schemas(n), FileOf(db, n).x, Project(StepsOfAll(txs), n))
    ensures var f := FileOf(ReplayDb(codec, schemas, db, StepsOfAll(txs)), n);
            Agrees(schemas(n), FileReader(codec, f.bytes), f.x, TableOf(txs, n))
  {
    LogFolds(codec, txs, n);
    RecoveryIsFold(codec, schemas, db, StepsOfAll(txs), n);
  }
}
