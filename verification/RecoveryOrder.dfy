/**
 From the log to the tables: the transactions that a log holds are replayed one after the other, in the
 order of their generations, so that recovery gives the tables that the last of them left.
 */
module RecoveryOrder {
  import opened Options
  import opened KeyOrder
  import opened BigEndian
  import opened Records
  import opened ShadowIndex
  import opened CommitApply
  import opened CommitTable
  import opened WalFormat
  import opened WalRecovery
  import opened WalBatch
  import opened WalSuccess
  import opened GenSort
  import opened Replay
  import opened ReplayUnique
  import opened Recovery
  import opened CommitLog
  import opened LogUnique

  /** What transactions submitted, one after the other. */
  function Submitted(decode: Decode, ts: seq<Task>): Option<seq<Step>> {
    if ts == [] then Some([])
    else
      match (DecodeAll(decode, ts[0].records), Submitted(decode, ts[1..]))
      case (Some(a), Some(b)) => Some(a + b)
      case _ => None
  }

  /** Transactions of rising generations. */
  ghost predicate RisingTasks(ts: seq<Task>) {
    && Distinct(ts) && (forall i :: 0 <= i < |ts| ==> ValidTask(ts[i]))
    && forall i, j :: 0 <= i < j < |ts| ==> ts[i].gen < ts[j].gen
  }

  /** The committed transactions of a log, however their records lie in it, are `ts`. */
  ghost predicate HoldsCommitted(rs: seq<Record>, ts: seq<Task>) {
    && (forall i :: 0 <= i < |ts| ==> Recoverable(rs, ts[i]))
    && (forall tx :: tx in Active(rs) ==> tx in Ids(ts))
  }

  function IdsOf(ts: seq<Task>): (r: seq<Int64>)
    ensures |r| == |ts| && forall i :: 0 <= i < |ts| ==> r[i] == ts[i].tx
  {
    seq(|ts|, i requires 0 <= i < |ts| => ts[i].tx)
  }

  // ---------------------------------------------------------------- each transaction is selected once

  lemma {:induction false} MarkedCount(rs: seq<Record>, op: Byte, tx: Int64)
    ensures multiset(Marked(rs, op))[tx] == |Marked(Group(rs, tx), op)|
  {
    if rs != [] {
      MarkedCount(rs[1..], op, tx);
      var head := if rs[0].op == op then [rs[0].tx] else [];
      var own := if rs[0].tx == tx then [rs[0]] else [];
      MarkedConcat(own, Group(rs[1..], tx), op);
      assert own != [] ==> own[1..] == [];
      assert multiset(Marked(rs, op)) == multiset(head) + multiset(Marked(rs[1..], op));
    }
  }

  lemma {:induction false} WithoutCount(txs: seq<Int64>, out: seq<Int64>, tx: Int64)
    ensures multiset(Without(txs, out))[tx] == if tx in out then 0 else multiset(txs)[tx]
  {
    if txs != [] {
      WithoutCount(txs[1..], out, tx);
      var head := if txs[0] in out then [] else [txs[0]];
      assert txs == [txs[0]] + txs[1..];
      assert multiset(Without(txs, out)) == multiset(head) + multiset(Without(txs[1..], out));
    }
  }

  lemma {:induction false} SelectedOnce(rs: seq<Record>, t: Task)
    requires ValidTask(t) && Recoverable(rs, t)
    ensures multiset(Active(rs))[t.tx] == 1
  {
    MarkedCount(rs, COMMIT, t.tx);
    WithoutCount(Marked(rs, COMMIT), Marked(rs, ROLLBACK), t.tx);
    WithoutMember(Marked(rs, COMMIT), Marked(rs, ROLLBACK), t.tx);
    TaskGroup(t, t.tx);
    assert Recorded(t, 10) == TaskRecords(t) + [Marker(t, COMMIT)];
    MarkedConcat(TaskRecords(t), [Marker(t, COMMIT)], COMMIT);
    assert [Marker(t, COMMIT)][1..] == [];
  }

  lemma {:induction false} SameMembers(rs: seq<Record>, ts: seq<Task>)
    requires RisingTasks(ts) && HoldsCommitted(rs, ts)
    ensures multiset(IdsOf(ts)) == multiset(Active(rs))
  {
    forall tx
      ensures multiset(IdsOf(ts))[tx] == multiset(Active(rs))[tx]
    {
      if i :| 0 <= i < |ts| && ts[i].tx == tx {
        SelectedOnce(rs, ts[i]);
        OnceIn(IdsOf(ts), i);
      } else {
        assert tx !in IdsOf(ts);
        assert tx !in Active(rs);
      }
    }
  }

  lemma {:induction false} OnceIn(s: seq<Int64>, i: nat)
    requires i < |s| && forall j, k :: 0 <= j < k < |s| ==> s[j] != s[k]
    ensures multiset(s)[s[i]] == 1
  {
    assert s == s[..i] + [s[i]] + s[i + 1..];
    assert s[i] !in s[..i] && s[i] !in s[i + 1..];
  }

  // ---------------------------------------------------------------- in order

  lemma {:induction false} StepsOfTasks(decode: Decode, rs: seq<Record>, ts: seq<Task>)
    requires (forall i :: 0 <= i < |ts| ==> ValidTask(ts[i]) && Recoverable(rs, ts[i]))
    ensures StepsOf(decode, rs, IdsOf(ts)) == Submitted(decode, ts)
    decreases |ts|
  {
    if ts != [] {
      var n := |ts| - 1;
      StepsOfTasks(decode, rs, ts[..n]);
      assert IdsOf(ts)[..n] == IdsOf(ts[..n]);
      RecordedDecodes(decode, rs, ts[n]);
      SubmittedLast(decode, ts);
    }
  }

  lemma {:induction false} RecordedDecodes(decode: Decode, rs: seq<Record>, t: Task)
    requires Recoverable(rs, t)
    ensures DecodeAll(decode, Group(rs, t.tx)) == DecodeAll(decode, t.records)
  {
    assert Recorded(t, 10) == Complete(t);
    CompleteDecodes(decode, t);
  }

  lemma {:induction false} SubmittedLast(decode: Decode, ts: seq<Task>)
    requires ts != []
    ensures var n := |ts| - 1;
            Submitted(decode, ts) ==
            match (Submitted(decode, ts[..n]), DecodeAll(decode, ts[n].records))
            case (Some(x), Some(y)) => Some(x + y)
            case _ => None
  {
    var n := |ts| - 1;
    assert ts == ts[..n] + [ts[n]];
    SubmittedConcat(decode, ts[..n], [ts[n]]);
    SubmittedOne(decode, ts[n]);
  }

  lemma {:induction false} SubmittedOne(decode: Decode, t: Task)
    ensures Submitted(decode, [t]) == DecodeAll(decode, t.records)
  {
    assert [t][1..] == [];
    if DecodeAll(decode, t.records).Some? {
      assert DecodeAll(decode, t.records).value + [] == DecodeAll(decode, t.records).value;
    }
  }

  lemma {:induction false} SubmittedConcat(decode: Decode, a: seq<Task>, b: seq<Task>)
    ensures Submitted(decode, a + b) ==
            match (Submitted(decode, a), Submitted(decode, b))
            case (Some(x), Some(y)) => Some(x + y)
            case _ => None
  {
    if a == [] {
      assert a + b == b;
      assert Submitted(decode, b).Some? ==> [] + Submitted(decode, b).value == Submitted(decode, b).value;
    } else {
      assert (a + b)[0] == a[0] && (a + b)[1..] == a[1..] + b;
      SubmittedConcat(decode, a[1..], b);
      var x, y, z := DecodeAll(decode, a[0].records), Submitted(decode, a[1..]), Submitted(decode, b);
      assert x.Some? && y.Some? && z.Some? ==> x.value + (y.value + z.value) == x.value + y.value + z.value;
    }
  }

  /**
   Committed transactions are replayed in the order of their generations, whatever the order of their records
   in the log: what recovery replays is what they submitted, one after the other.
   */
  lemma {:induction false} ReplaysInOrder(decode: Decode, rs: seq<Record>, ts: seq<Task>)
    requires RisingTasks(ts) && HoldsCommitted(rs, ts)
    ensures CommittedSteps(decode, rs) == Submitted(decode, ts)
  {
    var key, txs := (tx: Int64) => FirstGen(rs, tx), IdsOf(ts);
    SameMembers(rs, ts);
    assert forall i :: 0 <= i < |ts| ==> Recoverable(rs, ts[i]) && FirstGen(rs, txs[i]) == ts[i].gen;
    assert Sorted(key, txs);
    AnySortedOrder(decode, rs, txs);
    StepsOfTasks(decode, rs, ts);
  }

  /** So it is after any failures and any crash, for the transactions whose markers can be read. */
  lemma {:induction false} CrashReplaysInOrder(crc: Crc, mode: Mode, decode: Decode, events: seq<Event>, n: nat,
                                               rs: seq<Record>, ts: seq<Task>)
    requires GoodRun(events) && Shaped(events) && !mode.Async?
    requires n <= |Bytes(crc, RunLog(crc, mode, events))| && NoCollision(crc, RunLog(crc, mode, events))
    requires Parse(crc, Bytes(crc, RunLog(crc, mode, events))[..n]) == Records(rs)
    requires RisingTasks(ts) && forall t :: t in ts <==> t in Tasks(events) && t.tx in Marked(rs, COMMIT)
    ensures CommittedSteps(decode, rs) == Submitted(decode, ts)
  {
    DurableBatches(crc, mode, events, n);
    HoldsThose(rs, Tasks(events), ts);
    ReplaysInOrder(decode, rs, ts);
  }

  lemma {:induction false} HoldsThose(rs: seq<Record>, done: seq<Task>, ts: seq<Task>)
    requires RecoversCommitted(rs, done) && forall t :: t in ts <==> t in done && t.tx in Marked(rs, COMMIT)
    ensures HoldsCommitted(rs, ts)
  {
    forall i | 0 <= i < |ts|
      ensures Recoverable(rs, ts[i])
    {
      assert ts[i] in ts;
      var j :| 0 <= j < |done| && done[j] == ts[i];
      assert Complete(done[j]) == Recorded(done[j], 10);
    }
    forall tx | tx in Active(rs)
      ensures tx in Ids(ts)
    {
      var j :| 0 <= j < |done| && done[j].tx == tx;
      assert done[j] in ts;
      var i :| 0 <= i < |ts| && ts[i] == done[j];
    }
  }

  /** If nothing fails, everything submitted is recovered, in the order of its generations. */
  lemma {:induction false} CleanRunRecovers(crc: Crc, mode: Mode, decode: Decode, events: seq<Event>)
    requires GoodRun(events) && Shaped(events) && !mode.Async? && CleanRun(mode, events) && RisingTasks(Tasks(events))
    ensures var w := RunLog(crc, mode, events);
            && w.acked == Ids(Tasks(events)) && Parse(crc, Bytes(crc, w)) == Records(w.recs)
            && CommittedSteps(decode, w.recs) == Submitted(decode, Tasks(events))
  {
    var w := RunLog(crc, mode, events);
    CleanRunReads(crc, mode, events);
    DurableBatches(crc, mode, events, |Bytes(crc, w)|);
    HoldsThose(w.recs, Tasks(events), Tasks(events));
    ReplaysInOrder(decode, w.recs, Tasks(events));
  }

  lemma {:induction false} CleanRunReads(crc: Crc, mode: Mode, events: seq<Event>)
    requires GoodRun(events) && Shaped(events) && !mode.Async? && CleanRun(mode, events)
    ensures var w := RunLog(crc, mode, events);
            && w.acked == Ids(Tasks(events)) && NoCollision(crc, w) && Parse(crc, Bytes(crc, w)) == Records(w.recs)
            && Bytes(crc, w)[..|Bytes(crc, w)|] == Bytes(crc, w)
            && forall t :: t in Tasks(events) ==> t.tx in Marked(w.recs, COMMIT)
  {
    var w, done := RunLog(crc, mode, events), Tasks(events);
    RunSucceeds(crc, mode, events);
    RunConsistent(crc, mode, events);
    ReadsThenStops(crc, w.recs, []);
    forall t | t in done
      ensures t.tx in Marked(w.recs, COMMIT)
    {
      var i :| 0 <= i < |done| && done[i] == t;
      assert t.tx in Ids(done);
    }
  }

  // ---------------------------------------------------------------- the tables

  /** The records of the tasks are those that the transactions log. */
  ghost predicate LogsOf(decode: Decode, ts: seq<Task>, txs: seq<Tx>) {
    |ts| == |txs| && forall i :: 0 <= i < |ts| ==> ValidTask(ts[i]) && LogOf(decode, ts[i].records, StepsOfTx(txs[i]))
  }

  /** Each record decodes to its change. */
  ghost predicate LogOf(decode: Decode, rs: seq<Record>, steps: seq<Step>) {
    |rs| == |steps| && forall i :: 0 <= i < |rs| ==> decode(rs[i]) == Some(steps[i])
  }

  lemma {:induction false} LogDecodes(decode: Decode, rs: seq<Record>, steps: seq<Step>)
    requires LogOf(decode, rs, steps) && forall i :: 0 <= i < |rs| ==> !IsMarker(rs[i])
    ensures DecodeAll(decode, rs) == Some(steps)
    decreases |rs|
  {
    if rs != [] {
      var n := |rs| - 1;
      LogDecodes(decode, rs[..n], steps[..n]);
      assert steps == steps[..n] + [steps[n]];
    }
  }

  lemma {:induction false} SubmittedSteps(decode: Decode, ts: seq<Task>, txs: seq<Tx>)
    requires LogsOf(decode, ts, txs)
    ensures Submitted(decode, ts) == Some(StepsOfAll(txs))
    decreases |ts|
  {
    if ts != [] {
      var n := |ts| - 1;
      assert LogsOf(decode, ts[..n], txs[..n]);
      SubmittedSteps(decode, ts[..n], txs[..n]);
      LogDecodes(decode, ts[n].records, StepsOfTx(txs[n]));
      SubmittedLast(decode, ts);
    }
  }

  /**
   Recovery of a log that holds some committed transactions gives every table as the last of them left it:
   ids, records and non-unique entries always, unique entries if no value was handed over.
   */
  lemma {:induction false} RecoveredTables(codec: Codec, schemas: string -> Schema, decode: Decode, rs: seq<Record>,
                                           db: Db, ts: seq<Task>, txs: seq<Tx>, n: string)
    requires RisingTasks(ts) && HoldsCommitted(rs, ts) && LogsOf(decode, ts, txs)
    requires RoundTrips(codec) && Transacted(codec, txs)
    requires FromHistory(schemas(n), FileOf(db, n).x, Project(StepsOfAll(txs), n))
    requires UniqueFromHistory(schemas(n), FileOf(db, n).x, Project(StepsOfAll(txs), n))
    ensures CommittedSteps(decode, rs).Some?
    ensures var f := FileOf(ReplayDb(codec, schemas, db, CommittedSteps(decode, rs).value), n);
            && Agrees(schemas(n), FileReader(codec, f.bytes), f.x, TableOf(txs, n))
            && (Uniquely(schemas(n), txs, n) ==> UniqueAgrees(schemas(n), f.x, TableOf(txs, n)))
  {
    ReplaysInOrder(decode, rs, ts);
    SubmittedSteps(decode, ts, txs);
    RecoveryGivesViews(codec, schemas, db, txs, n);
    if Uniquely(schemas(n), txs, n) {
      RecoveryGivesUniques(codec, schemas, db, txs, n);
    }
  }
}
