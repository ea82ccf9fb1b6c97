/**
 Recovery as a whole: select the committed transactions of a log, order them by generation, and replay
 their changes on the tables.
 */
module Recovery {
  import opened Options
  import opened KeyOrder
  import opened BigEndian
  import opened Records
  import opened ShadowIndex
  import opened CommitApply
  import opened CommitTable
  import opened WalFormat
  import opened WalRecovery
  import opened WalBatch
  import opened GenSort
  import opened Replay
  import opened ReplayUnique

  type Db = map<string, TableFile>
  type Step = (string, Change)

  /** How a mutation record names its table and change; `None` for a payload that does not decode. */
  type Decode = Record -> Option<Step>

  predicate IsMarker(r: Record) { r.op == BEGIN || r.op == COMMIT || r.op == ROLLBACK }

  /** The changes of some records, markers skipped; `None` if one does not decode. */
  function DecodeAll(decode: Decode, rs: seq<Record>): Option<seq<Step>>
    decreases |rs|
  {
    if rs == [] then Some([])
    else match DecodeAll(decode, rs[..|rs| - 1])
      case None => None
      case Some(steps) =>
        var r := rs[|rs| - 1];
        if IsMarker(r) then Some(steps)
        else match decode(r)
          case None => None
          case Some(step) => Some(steps + [step])
  }

  // ---------------------------------------------------------------- order of transactions

  /** The generation of the first record of a transaction. */
  function FirstGen(rs: seq<Record>, tx: Int64): int {
    var g := Group(rs, tx);
    if g == [] then 0 else g[0].gen
  }

  /** The transactions in the order of their generations. */
  function SortByGen(rs: seq<Record>, txs: seq<Int64>): seq<Int64> {
    Sort((tx: Int64) => FirstGen(rs, tx), txs)
  }

  // ---------------------------------------------------------------- the changes to replay

  function StepsOf(decode: Decode, rs: seq<Record>, txs: seq<Int64>): Option<seq<Step>>
    decreases |txs|
  {
    if txs == [] then Some([])
    else
      match (StepsOf(decode, rs, txs[..|txs| - 1]), DecodeAll(decode, Group(rs, txs[|txs| - 1])))
      case (Some(a), Some(b)) => Some(a + b)
      case _ => None
  }

  /** The changes of the committed transactions, in generation order. */
  function CommittedSteps(decode: Decode, rs: seq<Record>): Option<seq<Step>> {
    StepsOf(decode, rs, SortByGen(rs, Active(rs)))
  }

  /** An order of the committed transactions in which the generations of their first records never decrease. */
  ghost predicate InGenOrder(rs: seq<Record>, order: seq<Int64>) {
    && multiset(order) == multiset(Active(rs)) && (forall i :: 0 <= i < |order| ==> Group(rs, order[i]) != [])
    && forall i, j :: 0 <= i < j < |order| ==> Group(rs, order[i])[0].gen <= Group(rs, order[j])[0].gen
  }

  lemma {:induction false} SortedInGenOrder(rs: seq<Record>)
    ensures InGenOrder(rs, SortByGen(rs, Active(rs)))
  {
    var key := (tx: Int64) => FirstGen(rs, tx);
    var order := SortByGen(rs, Active(rs));
    SortIs(key, Active(rs));
    assert Sorted(key, order);
    forall i | 0 <= i < |order|
      ensures Group(rs, order[i]) != [] && FirstGen(rs, order[i]) == Group(rs, order[i])[0].gen
    {
      assert order[i] in multiset(order);
      WithoutMember(Marked(rs, COMMIT), Marked(rs, ROLLBACK), order[i]);
      MarkedInGroup(rs, COMMIT, order[i]);
    }
    forall i, j | 0 <= i < j < |order|
      ensures Group(rs, order[i])[0].gen <= Group(rs, order[j])[0].gen
    {
      assert key(order[i]) <= key(order[j]);
    }
  }

  /** With distinct generations these do not depend on the sorting algorithm, which need not be stable. */
  lemma {:induction false} AnySortedOrder(decode: Decode, rs: seq<Record>, txs: seq<Int64>)
    requires Sorted((tx: Int64) => FirstGen(rs, tx), txs) && multiset(txs) == multiset(Active(rs))
    requires forall i, j :: 0 <= i < j < |txs| ==> FirstGen(rs, txs[i]) != FirstGen(rs, txs[j])
    ensures StepsOf(decode, rs, txs) == CommittedSteps(decode, rs)
  {
    var key := (tx: Int64) => FirstGen(rs, tx);
    SortIs(key, Active(rs));
    assert SortByGen(rs, Active(rs)) == Sort(key, Active(rs));
    OneOrder(key, txs, Sort(key, Active(rs)));
  }

  function FileOf(db: Db, n: string): TableFile {
    if n in db then db[n] else TableFile([], EMPTY, false)
  }

  function ApplyStep(codec: Codec, schemas: string -> Schema, db: Db, s: Step): Db {
    db[s.0 := ReplayOne(codec, schemas(s.0), FileOf(db, s.0), s.1)]
  }

  function ReplayDb(codec: Codec, schemas: string -> Schema, db: Db, steps: seq<Step>): Db
    decreases |steps|
  {
    if steps == [] then db else ApplyStep(codec, schemas, ReplayDb(codec, schemas, db, steps[..|steps| - 1]),
                                          steps[|steps| - 1])
  }

  lemma {:induction false} ReplayDbConcat(codec: Codec, schemas: string -> Schema, db: Db, a: seq<Step>, b: seq<Step>)
    ensures ReplayDb(codec, schemas, db, a + b) == ReplayDb(codec, schemas, ReplayDb(codec, schemas, db, a), b)
    decreases |b|
  {
    if b == [] {
      assert a + b == a;
    } else {
      assert (a + b)[..|a + b| - 1] == a + b[..|b| - 1];
      ReplayDbConcat(codec, schemas, db, a, b[..|b| - 1]);
    }
  }

  /** Replay the records of one transaction. */
  method ReplayGroup(codec: Codec, schemas: string -> Schema, decode: Decode, group: seq<Record>, db: Db)
    returns (r: Option<Db>)
    ensures match DecodeAll(decode, group)
            case None => r == None
            case Some(steps) => r == Some(ReplayDb(codec, schemas, db, steps))
  {
    var cur := db;
    ghost var steps: seq<Step> := [];
    for i := 0 to |group|
      invariant DecodeAll(decode, group[..i]) == Some(steps) && cur == ReplayDb(codec, schemas, db, steps)
    {
      assert group[..i + 1][..i] == group[..i];
      if !IsMarker(group[i]) {
        var step := decode(group[i]);
        if step.None? {
          DecodeFails(decode, group, i + 1);
          return None;
        }
        assert (steps + [step.value])[..|steps|] == steps;
        cur := ApplyStep(codec, schemas, cur, step.value);
        steps := steps + [step.value];
      }
    }
    assert group[..|group|] == group;
    r := Some(cur);
  }

  lemma {:induction false} DecodeFails(decode: Decode, rs: seq<Record>, i: nat)
    requires i <= |rs| && DecodeAll(decode, rs[..i]) == None
    ensures DecodeAll(decode, rs) == None
    decreases |rs| - i
  {
    if i == |rs| {
      assert rs[..i] == rs;
    } else {
      assert rs[..i + 1][..i] == rs[..i];
      DecodeFails(decode, rs, i + 1);
    }
  }

  lemma {:induction false} StepsFail(decode: Decode, rs: seq<Record>, txs: seq<Int64>, i: nat)
    requires i <= |txs| && StepsOf(decode, rs, txs[..i]) == None
    ensures StepsOf(decode, rs, txs) == None
    decreases |txs| - i
  {
    if i == |txs| {
      assert txs[..i] == txs;
    } else {
      assert txs[..i + 1][..i] == txs[..i];
      StepsFail(decode, rs, txs, i + 1);
    }
  }

  /**
   Recovery: the committed transactions, replayed in an order of rising generations, or an error if one does
   not decode.
   */
  method Recover(codec: Codec, schemas: string -> Schema, decode: Decode, rs: seq<Record>, db: Db)
    returns (r: Option<Db>, ghost order: seq<Int64>)
    ensures InGenOrder(rs, order) && StepsOf(decode, rs, order) == CommittedSteps(decode, rs)
    ensures match StepsOf(decode, rs, order)
            case None => r == None
            case Some(steps) => r == Some(ReplayDb(codec, schemas, db, steps))
  {
    var groups, active := SelectCommits(rs);
    SortedInGenOrder(rs);
    order := SortByGen(rs, active);
    r := ReplayTransactions(codec, schemas, decode, rs, groups, SortByGen(rs, active), db);
  }

  method ReplayTransactions(codec: Codec, schemas: string -> Schema, decode: Decode, ghost rs: seq<Record>,
                            groups: map<Int64, seq<Record>>, txs: seq<Int64>, db: Db) returns (r: Option<Db>)
    requires forall tx :: (if tx in groups then groups[tx] else []) == Group(rs, tx)
    ensures match StepsOf(decode, rs, txs)
            case None => r == None
            case Some(steps) => r == Some(ReplayDb(codec, schemas, db, steps))
  {
    var cur := db;
    ghost var steps: seq<Step> := [];
    for i := 0 to |txs|
      invariant StepsOf(decode, rs, txs[..i]) == Some(steps) && cur == ReplayDb(codec, schemas, db, steps)
    {
      assert txs[..i + 1][..i] == txs[..i];
      var group := if txs[i] in groups then groups[txs[i]] else [];
      var next := ReplayGroup(codec, schemas, decode, group, cur);
      if next.None? {
        StepsFail(decode, rs, txs, i + 1);
        return None;
      }
      ghost var more := DecodeAll(decode, group).value;
      ReplayDbConcat(codec, schemas, db, steps, more);
      cur, steps := next.value, steps + more;
    }
    assert txs[..|txs|] == txs;
    r := Some(cur);
  }

  // ---------------------------------------------------------------- what recovery yields

  /** The changes of one table. */
  function Project(steps: seq<Step>, n: string): seq<Change>
    decreases |steps|
  {
    if steps == [] then []
    else
      var last := steps[|steps| - 1];
      Project(steps[..|steps| - 1], n) + (if last.0 == n then [last.1] else [])
  }

  /** Each table is replayed on its own. */
  lemma {:induction false} ReplayByTable(codec: Codec, schemas: string -> Schema, db: Db, steps: seq<Step>, n: string)
    ensures FileOf(ReplayDb(codec, schemas, db, steps), n) ==
            ReplayAll(codec, schemas(n), FileOf(db, n), Project(steps, n))
    decreases |steps|
  {
    if steps != [] {
      var init, last := steps[..|steps| - 1], steps[|steps| - 1];
      ReplayByTable(codec, schemas, db, init, n);
      if last.0 == n {
        assert (Project(init, n) + [last.1])[..|Project(init, n)|] == Project(init, n);
      } else {
        assert Project(init, n) + [] == Project(init, n);
      }
    }
  }

  /**
   After recovery the indexes of every table agree with the fold of its committed changes, whatever part of
   the log the index files already held.
   */
  lemma {:induction false} RecoveryIsFold(codec: Codec, schemas: string -> Schema, db: Db, steps: seq<Step>, n: string)
    requires RoundTrips(codec) && Logged(codec, Project(steps, n))
    requires FromHistory(schemas(n), FileOf(db, n).x, Project(steps, n))
    ensures var f := FileOf(ReplayDb(codec, schemas, db, steps), n);
            Agrees(schemas(n), FileReader(codec, f.bytes), f.x, Fold(Project(steps, n)))
  {
    ReplayByTable(codec, schemas, db, steps, n);
    ReplayAgrees(codec, schemas(n), FileOf(db, n), Project(steps, n));
  }

  /**
   The unique indexes agree with it too, from entries of the history of the log, if and only if the log gives
   no unique value away.
   */
  lemma {:induction false} RecoveryUniques(codec: Codec, schemas: string -> Schema, db: Db, steps: seq<Step>, n: string)
    requires RoundTrips(codec) && Logged(codec, Project(steps, n)) && Exact(Project(steps, n))
    requires UniqueFromHistory(schemas(n), FileOf(db, n).x, Project(steps, n))
    requires NoDuplicates(schemas(n), Fold(Project(steps, n)))
    ensures var f := FileOf(ReplayDb(codec, schemas, db, steps), n);
            UniqueAgrees(schemas(n), f.x, Fold(Project(steps, n))) <==> !LogGivesAway(schemas(n), Project(steps, n))
  {
    ReplayByTable(codec, schemas, db, steps, n);
    ReplayUniques(codec, schemas(n), FileOf(db, n), Project(steps, n));
  }

  lemma {:induction false} ProjectPrefix(steps: seq<Step>, i: nat, n: string)
    requires i <= |steps|
    ensures Project(steps[..i], n) <= Project(steps, n)
    decreases |steps|
  {
    if i == |steps| {
      assert steps[..i] == steps;
    } else {
      var init := steps[..|steps| - 1];
      assert init[..i] == steps[..i];
      ProjectPrefix(init, i, n);
    }
  }

  /** A table file as a new recovery finds it: the indexes last committed, and any bytes. */
  ghost predicate LeftBy(db: Db, db': Db, n: string) {
    FileOf(db', n).x == FileOf(db, n).x
  }

  /** The index files that a crash leaves: the outcome of the first `i` changes of the log. */
  lemma {:induction false} RecoveryFromPrefix(codec: Codec, schemas: string -> Schema, db: Db, steps: seq<Step>,
                                              i: nat, n: string)
    requires RoundTrips(codec) && Logged(codec, Project(steps, n)) && i <= |steps|
    requires var x, t := FileOf(db, n).x, Fold(Project(steps[..i], n));
             x.primary.Keys == t.Keys && PairsAgree(schemas(n), x, t)
    ensures var f := FileOf(ReplayDb(codec, schemas, db, steps), n);
            Agrees(schemas(n), FileReader(codec, f.bytes), f.x, Fold(Project(steps, n)))
  {
    var cs, init := Project(steps, n), Project(steps[..i], n);
    ProjectPrefix(steps, i, n);
    assert cs[..|init|] == init;
    PrefixFromHistory(schemas(n), FileOf(db, n).x, cs, |init|);
    RecoveryIsFold(codec, schemas, db, steps, n);
  }

  /** A recovery that stopped after `i` changes and is repeated. */
  lemma {:induction false} RecoveryRepeated(codec: Codec, schemas: string -> Schema, db: Db, db': Db, steps: seq<Step>,
                                            i: nat, n: string)
    requires RoundTrips(codec) && Logged(codec, Project(steps, n)) && i <= |steps|
    requires FromHistory(schemas(n), FileOf(db, n).x, Project(steps, n))
    requires LeftBy(ReplayDb(codec, schemas, db, steps[..i]), db', n)
    ensures FromHistory(schemas(n), FileOf(db', n).x, Project(steps, n))
    ensures var f := FileOf(ReplayDb(codec, schemas, db', steps), n);
            Agrees(schemas(n), FileReader(codec, f.bytes), f.x, Fold(Project(steps, n)))
  {
    var cs, init := Project(steps, n), Project(steps[..i], n);
    ProjectPrefix(steps, i, n);
    assert cs[..|init|] == init;
    ReplayByTable(codec, schemas, db, steps[..i], n);
    InterruptedFromHistory(codec, schemas(n), FileOf(db, n), cs, |init|);
    RecoveryIsFold(codec, schemas, db', steps, n);
  }

  lemma {:induction false} DecodeConcat(decode: Decode, a: seq<Record>, b: seq<Record>)
    ensures DecodeAll(decode, a + b) ==
            match (DecodeAll(decode, a), DecodeAll(decode, b))
            case (Some(x), Some(y)) => Some(x + y)
            case _ => None
    decreases |b|
  {
    if b == [] {
      assert a + b == a;
      assert DecodeAll(decode, a).Some? ==> DecodeAll(decode, a).value + [] == DecodeAll(decode, a).value;
    } else {
      assert (a + b)[..|a + b| - 1] == a + b[..|b| - 1];
      DecodeConcat(decode, a, b[..|b| - 1]);
      var x, y, last := DecodeAll(decode, a), DecodeAll(decode, b[..|b| - 1]), b[|b| - 1];
      if x.Some? && y.Some? && !IsMarker(last) && decode(last).Some? {
        assert x.value + (y.value + [decode(last).value]) == x.value + y.value + [decode(last).value];
      }
    }
  }

  /** Of a complete transaction, recovery replays exactly the changes that were submitted. */
  lemma {:induction false} CompleteDecodes(decode: Decode, t: Task)
    ensures DecodeAll(decode, Complete(t)) == DecodeAll(decode, t.records)
  {
    DecodeConcat(decode, [Marker(t, BEGIN)], t.records);
    DecodeConcat(decode, TaskRecords(t), [Marker(t, COMMIT)]);
    assert [Marker(t, BEGIN)][..0] == [] && [Marker(t, COMMIT)][..0] == [];
    assert DecodeAll(decode, [Marker(t, BEGIN)]) == Some([]) && DecodeAll(decode, [Marker(t, COMMIT)]) == Some([]);
    var steps := DecodeAll(decode, t.records);
    if steps.Some? {
      assert [] + steps.value + [] == steps.value;
    }
  }

  /**
   From batches to tables: whatever prefix of the log of a run is read after a crash, every transaction
   that recovery replays is a task of the run, with exactly the changes it submitted; and if the
   synced part of the log survived, a task that was answered without error is replayed if and only
   if its marker precedes the first torn record.
   */
  lemma {:induction false} CrashThenRecover(crc: Crc, mode: Mode, decode: Decode, events: seq<Event>, n: nat,
                                            rs: seq<Record>)
    requires GoodRun(events) && Shaped(events) && !mode.Async?
    requires n <= |Bytes(crc, RunLog(crc, mode, events))| && NoCollision(crc, RunLog(crc, mode, events))
    requires Parse(crc, Bytes(crc, RunLog(crc, mode, events))[..n]) == Records(rs)
    ensures forall tx :: tx in SortByGen(rs, Active(rs)) <==> tx in Marked(rs, COMMIT)
    ensures forall i :: 0 <= i < |Tasks(events)| && Tasks(events)[i].tx in SortByGen(rs, Active(rs)) ==>
              DecodeAll(decode, Group(rs, Tasks(events)[i].tx)) == DecodeAll(decode, Tasks(events)[i].records)
    ensures var w := RunLog(crc, mode, events);
            n >= w.synced ==>
              forall tx :: tx in w.acked ==>
                (tx in SortByGen(rs, Active(rs)) <==> w.junk == [] || tx in Marked(w.recs, COMMIT))
  {
    DurableBatches(crc, mode, events, n);
    var active := Active(rs);
    SortIs((tx: Int64) => FirstGen(rs, tx), active);
    forall tx
      ensures tx in SortByGen(rs, active) <==> tx in active
    {
      assert tx in multiset(SortByGen(rs, active)) <==> tx in multiset(active);
    }
    forall i | 0 <= i < |Tasks(events)| && Tasks(events)[i].tx in active
      ensures DecodeAll(decode, Group(rs, Tasks(events)[i].tx)) == DecodeAll(decode, Tasks(events)[i].records)
    {
      CompleteDecodes(decode, Tasks(events)[i]);
    }
  }
}
