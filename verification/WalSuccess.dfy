/**
 When a batch succeeds, in terms of the failures of its steps: which tasks are answered without error,
 which transactions recovery will select, and what is on disk then.
 */
module WalSuccess {
  import opened Options
  import opened KeyOrder
  import opened BigEndian
  import opened WalFormat
  import opened WalRecovery
  import opened WalBatch

  /** The syncs that the mode makes went well; Async makes none. */
  predicate SyncsWell(mode: Mode, f: Faults) {
    mode == Async || (f.mutationSync && f.tableSync && f.markerSync)
  }

  /** A task is answered without error exactly if nothing failed but, perhaps, table appends of others. */
  lemma {:induction false} AnsweredIff(mode: Mode, tasks: seq<Task>, f: Faults, i: nat)
    requires |f.appended| == |tasks| && i < |tasks|
    ensures Answers(mode, tasks, f)[i] <==>
            f.mutations == None && f.markers == None && SyncsWell(mode, f) && f.appended[i]
  {
    assert Answers(mode, tasks, f)[i] == (Clean(mode, f) && f.appended[i]);
  }

  /** Without a failed append all mutations and all markers are added. */
  lemma {:induction false} WholeBatch(crc: Crc, mode: Mode, w: Wal, tasks: seq<Task>, f: Faults)
    requires |f.appended| == |tasks| && tasks != [] && w.junk == [] && f.mutations == None && f.markers == None
    ensures var w' := AfterBatch(crc, mode, w, tasks, f);
            w'.junk == [] && w'.recs == w.recs + (Mutations(tasks) + Markers(tasks, Good(mode, tasks, f)))
  {
    AppendTears(crc, w, Mutations(tasks), None);
    AppendTears(crc, AfterMutations(crc, mode, w, tasks, f), Markers(tasks, Good(mode, tasks, f)), None);
    JoinRecords(w.recs, Mutations(tasks), Markers(tasks, Good(mode, tasks, f)));
  }

  /** The records of a transaction: begin record, mutations, and a marker. */
  function Recorded(t: Task, op: Byte): seq<Record> {
    [Record(0, t.tx, t.gen, [])] + t.records + [Record(op, t.tx, t.gen, [])]
  }

  /**
   If no append failed, a transaction is recovered exactly if its own table appends went through and the syncs
   before the markers did; otherwise it has been rolled back.
   */
  lemma {:induction false} BatchOutcome(crc: Crc, mode: Mode, w: Wal, tasks: seq<Task>, f: Faults, i: nat)
    requires |f.appended| == |tasks| && w.junk == [] && f.mutations == None && f.markers == None
    requires Distinct(tasks) && (forall j :: 0 <= j < |tasks| ==> ValidTask(tasks[j]))
    requires i < |tasks| && Group(w.recs, tasks[i].tx) == []
    ensures var rs, tx := AfterBatch(crc, mode, w, tasks, f).recs, tasks[i].tx;
            if f.appended[i] && (mode == Async || (f.mutationSync && f.tableSync)) then
              tx in Active(rs) && Group(rs, tx) == Recorded(tasks[i], 10)
            else
              tx !in Active(rs) && Group(rs, tx) == Recorded(tasks[i], 11)
  {
    var t, good := tasks[i], Good(mode, tasks, f);
    var ms := Markers(tasks, good);
    var own := Marker(t, if good[i] then COMMIT else ROLLBACK);
    WholeBatch(crc, mode, w, tasks, f);
    GroupConcat(w.recs, Mutations(tasks) + ms, t.tx);
    GroupConcat(Mutations(tasks), ms, t.tx);
    MutationOwn(tasks, i);
    SingleGroup(ms, t.tx);
    assert ms[i].tx == t.tx;
    var g := TaskRecords(t) + [own];
    assert [] + g == g;
    EndsWith(AfterBatch(crc, mode, w, tasks, f).recs, t, own);
  }

  /** A transaction is selected if its last record is a commit marker, and not if it is a rollback marker. */
  lemma {:induction false} EndsWith(rs: seq<Record>, t: Task, own: Record)
    requires ValidTask(t) && Group(rs, t.tx) == TaskRecords(t) + [own] && own.tx == t.tx
    requires own.op == COMMIT || own.op == ROLLBACK
    ensures t.tx in Active(rs) <==> own.op == COMMIT
  {
    var g := Group(rs, t.tx);
    assert g[|g| - 1] == own;
    MarkedInGroup(rs, COMMIT, t.tx);
    MarkedInGroup(rs, ROLLBACK, t.tx);
    WithoutMember(Marked(rs, COMMIT), Marked(rs, ROLLBACK), t.tx);
  }

  /** Nothing failed that the mode depends on. */
  predicate NothingFails(mode: Mode, f: Faults) {
    && f.mutations == None && f.markers == None && SyncsWell(mode, f)
    && forall i :: 0 <= i < |f.appended| ==> f.appended[i]
  }

  /** Recovery will select the transaction, with all its records. */
  ghost predicate Recoverable(rs: seq<Record>, t: Task) {
    t.tx in Active(rs) && Group(rs, t.tx) == Recorded(t, 10)
  }

  /** Tasks with distinct ids that are new to the log. */
  ghost predicate NewTo(w: Wal, tasks: seq<Task>) {
    Distinct(tasks) && forall i :: 0 <= i < |tasks| ==> ValidTask(tasks[i]) && Group(w.recs, tasks[i].tx) == []
  }

  /**
   A batch in which nothing fails: every task is answered without error and can be recovered with all its
   records, and outside the Async mode the whole log is on disk.
   */
  lemma {:induction false} BatchSucceeds(crc: Crc, mode: Mode, w: Wal, tasks: seq<Task>, f: Faults)
    requires |f.appended| == |tasks| && w.junk == [] && NothingFails(mode, f) && NewTo(w, tasks)
    ensures var w' := AfterBatch(crc, mode, w, tasks, f);
            && w'.junk == [] && w'.acked == w.acked + Ids(tasks)
            && (tasks != [] && mode != Async ==> w'.synced == |Bytes(crc, w')|)
            && forall i :: 0 <= i < |tasks| ==> Answers(mode, tasks, f)[i] && Recoverable(w'.recs, tasks[i])
  {
    if tasks != [] {
      WholeBatch(crc, mode, w, tasks, f);
      forall i | 0 <= i < |tasks|
        ensures Answers(mode, tasks, f)[i] && Recoverable(AfterBatch(crc, mode, w, tasks, f).recs, tasks[i])
      {
        AnsweredIff(mode, tasks, f, i);
        BatchOutcome(crc, mode, w, tasks, f, i);
      }
      AllAnswered(crc, mode, w, tasks, f);
    }
  }

  lemma {:induction false} AllAnswered(crc: Crc, mode: Mode, w: Wal, tasks: seq<Task>, f: Faults)
    requires |f.appended| == |tasks| && tasks != [] && NothingFails(mode, f)
    ensures var w' := AfterBatch(crc, mode, w, tasks, f);
            w'.acked == w.acked + Ids(tasks) && (mode != Async ==> w'.synced == |Bytes(crc, w')|)
  {
    assert AnsweredWell(tasks, Answers(mode, tasks, f)) == Ids(tasks) by {
      forall i | 0 <= i < |tasks|
        ensures Answers(mode, tasks, f)[i]
      {
        AnsweredIff(mode, tasks, f, i);
      }
    }
  }

  // ---------------------------------------------------------------- runs in which nothing fails

  ghost predicate CleanRun(mode: Mode, events: seq<Event>) {
    forall i :: 0 <= i < |events| ==>
      match events[i]
      case Batch(_, f) => NothingFails(mode, f)
      case Mark(_, fault, _) => fault == None
  }

  lemma {:induction false} NewAfter(recs: seq<Record>, done: seq<Task>, marks: set<Int64>, tasks: seq<Task>)
    requires RecordsConsistent(recs, done, marks) && NewTasks(tasks, done, marks)
    ensures forall i :: 0 <= i < |tasks| ==> Group(recs, tasks[i].tx) == []
  {
    forall i | 0 <= i < |tasks|
      ensures tasks[i].tx in Ids(tasks)
    {
    }
  }

  /** The log of such a run is whole, and every transaction submitted has been answered without error. */
  lemma {:induction false} RunSucceeds(crc: Crc, mode: Mode, events: seq<Event>)
    requires GoodRun(events) && Shaped(events) && !mode.Async? && CleanRun(mode, events)
    ensures RunLog(crc, mode, events).junk == [] && RunLog(crc, mode, events).acked == Ids(Tasks(events))
    decreases |events|
  {
    if events != [] {
      var init, last := events[..|events| - 1], events[|events| - 1];
      var w := RunLog(crc, mode, init);
      RunSucceeds(crc, mode, init);
      match last
      case Batch(tasks, f) =>
        RunConsistent(crc, mode, init);
        NewAfter(w.recs, Tasks(init), Marks(init), tasks);
        BatchSucceeds(crc, mode, w, tasks, f);
        IdsConcat(Tasks(init), tasks);
      case Mark(r, fault, _) =>
        AppendTears(crc, w, [r], None);
        assert Tasks(events) == Tasks(init);
    }
  }

  // ---------------------------------------------------------------- rolling back by hand

  /** A transaction with a rollback marker is never selected, whatever is logged later. */
  lemma {:induction false} RollbackSticks(rs: seq<Record>, more: seq<Record>, tx: Int64)
    requires exists i :: 0 <= i < |rs| && rs[i].op == 11 && rs[i].tx == tx
    ensures tx !in Active(rs + more)
  {
    var i :| 0 <= i < |rs| && rs[i].op == 11 && rs[i].tx == tx;
    MarkedConcat(rs, more, ROLLBACK);
    MarkedAt(rs, i);
    WithoutMember(Marked(rs + more, COMMIT), Marked(rs + more, ROLLBACK), tx);
  }

  lemma {:induction false} MarkedAt(rs: seq<Record>, i: nat)
    requires i < |rs|
    ensures rs[i].tx in Marked(rs, rs[i].op)
  {
    if i > 0 {
      MarkedAt(rs[1..], i - 1);
    }
  }

  /** So a marker written by hand, on a log that is not torn, takes its transaction out. */
  lemma {:induction false} MarkRollsBack(crc: Crc, mode: Mode, w: Wal, r: Record, syncs: bool)
    requires w.junk == [] && r.op == 11
    ensures var w' := AfterMark(crc, mode, w, r, None, syncs);
            w'.junk == [] && w'.recs == w.recs + [r] && r.tx !in Active(w'.recs)
  {
    AppendTears(crc, w, [r], None);
    var rs := w.recs + [r];
    assert rs[|w.recs|] == r;
    RollbackSticks(rs, [], r.tx);
    assert rs + [] == rs;
  }

  /** Outside the Async mode the mutations are on disk before any table is written, or the batch does not go on. */
  lemma {:induction false} MutationsFirst(crc: Crc, mode: Mode, w: Wal, tasks: seq<Task>, f: Faults)
    requires |f.appended| == |tasks| && mode != Async
    ensures var w' := AfterMutations(crc, mode, w, tasks, f);
            if f.mutations == None && f.mutationSync then w'.synced == |Bytes(crc, w')|
            else forall i :: 0 <= i < |tasks| ==> !Good(mode, tasks, f)[i]
  {
  }
}
