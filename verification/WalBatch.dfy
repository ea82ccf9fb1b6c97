/**
 The batch writer of the log: a batch of transactions is written in seven steps (mutations, sync,
 table appends, table sync, markers, sync, answers), any of which may fail, an append after any byte.

 The main theorem is about every run of batches and rollback markers, every pattern of failures,
 and every prefix of the log that a crash may leave. Recovery selects exactly the transactions
 whose commit marker lies whole before the first torn record, each with all its records. That is
 every transaction that was answered without error if and only if no append of the run stopped
 inside a record: the writer goes on behind a torn record, and what it writes there is lost.
 */
module WalBatch {
  import opened Options
  import opened KeyOrder
  import opened BigEndian
  import opened WalFormat
  import opened WalRecovery

  datatype Mode = Sync | Batched | Async

  datatype Task = Task(tx: Int64, gen: Int64, records: seq<Record>)

  /** What a transaction writes: mutations under its own id, no markers. */
  predicate ValidTask(t: Task) {
    forall i :: 0 <= i < |t.records| ==>
      var r := t.records[i]; r.tx == t.tx && Writable(r) && r.op != BEGIN && r.op != COMMIT && r.op != ROLLBACK
  }

  /**
   The failures of one batch. `None` in an append means that it succeeded, `Some(n)` that it
   failed after `n` bytes; the flags say whether the syncs succeed, and `appended[i]`
   whether the table appends of task `i` do.
   */
  datatype Faults = Faults(mutations: Option<nat>, mutationSync: bool, appended: seq<bool>, tableSync: bool,
                           markers: Option<nat>, markerSync: bool)

  function Marker(t: Task, op: Byte): Record {
    Record(op, t.tx, t.gen, [])
  }

  function TaskRecords(t: Task): seq<Record> {
    [Marker(t, BEGIN)] + t.records
  }

  function Mutations(tasks: seq<Task>): seq<Record> {
    if tasks == [] then [] else TaskRecords(tasks[0]) + Mutations(tasks[1..])
  }

  /** The markers of a batch: commit for the tasks that are `good`, rollback for the others. */
  function Markers(tasks: seq<Task>, good: seq<bool>): (r: seq<Record>)
    requires |good| == |tasks|
    ensures |r| == |tasks|
    ensures forall i :: 0 <= i < |tasks| ==> r[i] == Marker(tasks[i], if good[i] then COMMIT else ROLLBACK)
  {
    seq(|tasks|, i requires 0 <= i < |tasks| => Marker(tasks[i], if good[i] then COMMIT else ROLLBACK))
  }

  // ---------------------------------------------------------------- one append

  /** The part of a buffer that reaches the file. */
  function CutBytes(buffer: seq<Byte>, fault: Option<nat>): (s: seq<Byte>)
    ensures |s| <= |buffer| && s == buffer[..|s|]
  {
    match fault
    case None => buffer
    case Some(n) => if n <= |buffer| then buffer[..n] else buffer
  }

  /**
   The log: the records before the first torn one, the bytes from there on, how many bytes are known
   to be on disk, and the transactions answered without error.
   */
  datatype Wal = Wal(recs: seq<Record>, junk: seq<Byte>, synced: nat, acked: set<Int64>)

  function Bytes(crc: Crc, w: Wal): seq<Byte> {
    EncodeAll(crc, w.recs) + w.junk
  }

  /** How many records of an append reach the file whole. */
  function Landing(crc: Crc, rs: seq<Record>, fault: Option<nat>): (k: nat)
    ensures k <= |rs|
  {
    Whole(crc, rs, |CutBytes(EncodeAll(crc, rs), fault)|)
  }

  /** The records that an append adds to the readable part of the log. */
  function Landed(crc: Crc, w: Wal, rs: seq<Record>, fault: Option<nat>): seq<Record> {
    if w.junk != [] then [] else rs[..Landing(crc, rs, fault)]
  }

  /** What an append leaves of a torn record, or adds behind one. */
  function Litter(crc: Crc, w: Wal, rs: seq<Record>, fault: Option<nat>): seq<Byte> {
    var written := CutBytes(EncodeAll(crc, rs), fault);
    if w.junk != [] then written
    else
      WholeFits(crc, rs, |written|);
      written[WholeBytes(crc, rs, |written|)..]
  }

  function Append(crc: Crc, w: Wal, rs: seq<Record>, fault: Option<nat>): Wal {
    w.(recs := w.recs + Landed(crc, w, rs, fault), junk := w.junk + Litter(crc, w, rs, fault))
  }

  /** The whole records and the torn one are what was written. */
  lemma {:induction false} LandedAndLitter(crc: Crc, w: Wal, rs: seq<Record>, fault: Option<nat>)
    requires w.junk == []
    ensures EncodeAll(crc, Landed(crc, w, rs, fault)) + Litter(crc, w, rs, fault) == CutBytes(EncodeAll(crc, rs), fault)
  {
    var all := EncodeAll(crc, rs);
    var written := CutBytes(all, fault);
    WholeFits(crc, rs, |written|);
    var n := WholeBytes(crc, rs, |written|);
    CutAgain(all, |written|, n);
  }

  lemma {:induction false} CutAgain(s: seq<Byte>, m: nat, n: nat)
    requires n <= m <= |s|
    ensures s[..n] + s[..m][n..] == s[..m]
  {
  }

  /** The file grows by the bytes written. */
  lemma {:induction false} AppendBytes(crc: Crc, w: Wal, rs: seq<Record>, fault: Option<nat>)
    ensures Bytes(crc, Append(crc, w, rs, fault)) == Bytes(crc, w) + CutBytes(EncodeAll(crc, rs), fault)
  {
    var x, landed, litter := EncodeAll(crc, w.recs), Landed(crc, w, rs, fault), Litter(crc, w, rs, fault);
    EncodeConcat(crc, w.recs, landed);
    if w.junk == [] {
      LandedAndLitter(crc, w, rs, fault);
      JoinClean(x, EncodeAll(crc, landed), litter);
    } else {
      JoinTorn(x, w.junk, litter);
    }
  }

  lemma {:induction false} JoinClean(a: seq<Byte>, b: seq<Byte>, c: seq<Byte>)
    ensures (a + b) + ([] + c) == (a + []) + (b + c)
  {
  }

  lemma {:induction false} JoinTorn(a: seq<Byte>, b: seq<Byte>, c: seq<Byte>)
    ensures (a + []) + (b + c) == (a + b) + c
  {
  }

  /** The append stops inside a record. */
  predicate Tears(crc: Crc, rs: seq<Record>, fault: Option<nat>) {
    var n := |CutBytes(EncodeAll(crc, rs), fault)|;
    WholeBytes(crc, rs, n) != n
  }

  /** An append that goes through adds all its records; the log is torn from the first torn record on. */
  lemma {:induction false} AppendTears(crc: Crc, w: Wal, rs: seq<Record>, fault: Option<nat>)
    ensures Append(crc, w, rs, fault).junk == [] <==> w.junk == [] && !Tears(crc, rs, fault)
    ensures fault.None? ==> !Tears(crc, rs, fault) && (w.junk == [] ==> Landed(crc, w, rs, fault) == rs)
    ensures Landed(crc, w, rs, fault) <= rs
  {
    var n := |CutBytes(EncodeAll(crc, rs), fault)|;
    WholeFits(crc, rs, n);
    if fault.None? {
      WholeAll(crc, rs, n);
      assert rs[..|rs|] == rs;
    }
  }

  /** An append and the sync after it. */
  function AfterWrite(crc: Crc, toSync: bool, w: Wal, rs: seq<Record>, fault: Option<nat>, syncs: bool): Wal {
    var w' := Append(crc, w, rs, fault);
    if toSync && fault.None? && syncs then w'.(synced := |Bytes(crc, w')|) else w'
  }

  // ---------------------------------------------------------------- one batch

  /** Steps 1 to 4 succeeded as far as they concern the whole batch. */
  predicate Prepared(mode: Mode, f: Faults) {
    f.mutations.None? && (mode.Async? || (f.mutationSync && f.tableSync))
  }

  /** The tasks that get a commit marker. */
  function Good(mode: Mode, tasks: seq<Task>, f: Faults): (r: seq<bool>)
    requires |f.appended| == |tasks|
    ensures |r| == |tasks| && forall i :: 0 <= i < |tasks| ==> r[i] == (Prepared(mode, f) && f.appended[i])
  {
    seq(|tasks|, i requires 0 <= i < |tasks| => Prepared(mode, f) && f.appended[i])
  }

  /** No error was reported to anybody. */
  predicate Clean(mode: Mode, f: Faults) {
    Prepared(mode, f) && f.markers.None? && (mode.Async? || f.markerSync)
  }

  function Answers(mode: Mode, tasks: seq<Task>, f: Faults): (r: seq<bool>)
    requires |f.appended| == |tasks|
    ensures |r| == |tasks| && forall i :: 0 <= i < |tasks| ==> r[i] == (Clean(mode, f) && f.appended[i])
  {
    seq(|tasks|, i requires 0 <= i < |tasks| => Clean(mode, f) && f.appended[i])
  }

  function AnsweredWell(tasks: seq<Task>, answers: seq<bool>): set<Int64>
    requires |answers| == |tasks|
  {
    set i | 0 <= i < |tasks| && answers[i] :: tasks[i].tx
  }

  /** The log after steps 1 and 2. */
  function AfterMutations(crc: Crc, mode: Mode, w: Wal, tasks: seq<Task>, f: Faults): Wal {
    AfterWrite(crc, !mode.Async?, w, Mutations(tasks), f.mutations, f.mutationSync)
  }

  /** The log after a batch. */
  function AfterBatch(crc: Crc, mode: Mode, w: Wal, tasks: seq<Task>, f: Faults): Wal
    requires |f.appended| == |tasks|
  {
    if tasks == [] then w
    else
      var w1 := AfterMutations(crc, mode, w, tasks, f);
      var w2 := AfterWrite(crc, !mode.Async?, w1, Markers(tasks, Good(mode, tasks, f)), f.markers, f.markerSync);
      w2.(acked := w2.acked + AnsweredWell(tasks, Answers(mode, tasks, f)))
  }

  /** The records that a batch adds to the readable part of the log, before and after the table appends. */
  function Written(crc: Crc, w: Wal, tasks: seq<Task>, f: Faults): seq<Record> {
    Landed(crc, w, Mutations(tasks), f.mutations)
  }

  function WrittenMarkers(crc: Crc, mode: Mode, w: Wal, tasks: seq<Task>, f: Faults): seq<Record>
    requires |f.appended| == |tasks|
  {
    Landed(crc, AfterMutations(crc, mode, w, tasks, f), Markers(tasks, Good(mode, tasks, f)), f.markers)
  }

  function BatchRecords(crc: Crc, mode: Mode, w: Wal, tasks: seq<Task>, f: Faults): seq<Record>
    requires |f.appended| == |tasks|
  {
    Written(crc, w, tasks, f) + WrittenMarkers(crc, mode, w, tasks, f)
  }

  lemma {:induction false} BatchAdds(crc: Crc, mode: Mode, w: Wal, tasks: seq<Task>, f: Faults)
    requires |f.appended| == |tasks| && tasks != []
    ensures AfterBatch(crc, mode, w, tasks, f).recs == w.recs + BatchRecords(crc, mode, w, tasks, f)
  {
    JoinRecords(w.recs, Written(crc, w, tasks, f), WrittenMarkers(crc, mode, w, tasks, f));
  }

  lemma {:induction false} JoinRecords(a: seq<Record>, b: seq<Record>, c: seq<Record>)
    ensures a + b + c == a + (b + c)
  {
  }

  /** Only whole prefixes are added, and markers only after all mutations. */
  lemma {:induction false} BatchParts(crc: Crc, mode: Mode, w: Wal, tasks: seq<Task>, f: Faults)
    requires |f.appended| == |tasks| && tasks != []
    ensures Written(crc, w, tasks, f) <= Mutations(tasks)
    ensures WrittenMarkers(crc, mode, w, tasks, f) <= Markers(tasks, Good(mode, tasks, f))
    ensures WrittenMarkers(crc, mode, w, tasks, f) != [] && f.mutations.None? ==>
            Written(crc, w, tasks, f) == Mutations(tasks)
  {
    AppendTears(crc, w, Mutations(tasks), f.mutations);
    AppendTears(crc, AfterMutations(crc, mode, w, tasks, f), Markers(tasks, Good(mode, tasks, f)), f.markers);
  }

  // ---------------------------------------------------------------- what every batch keeps

  function Ids(tasks: seq<Task>): set<Int64> {
    set i | 0 <= i < |tasks| :: tasks[i].tx
  }

  ghost predicate Distinct(tasks: seq<Task>) {
    forall i, j :: 0 <= i < j < |tasks| ==> tasks[i].tx != tasks[j].tx
  }

  /** All of a committed transaction, its commit marker last. */
  function Complete(t: Task): seq<Record> {
    TaskRecords(t) + [Marker(t, COMMIT)]
  }

  /** If transaction `t` has a commit marker in `rs`, then `rs` holds all of it and nothing more. */
  ghost predicate CommitsWhole(rs: seq<Record>, t: Task) {
    t.tx in Marked(rs, COMMIT) ==> Group(rs, t.tx) == Complete(t)
  }

  /** `done` are the tasks of all batches so far, `marks` the transactions rolled back by hand. */
  ghost predicate RecordsConsistent(recs: seq<Record>, done: seq<Task>, marks: set<Int64>) {
    && (forall i :: 0 <= i < |done| ==> ValidTask(done[i]))
    && (forall i :: 0 <= i < |recs| ==> Writable(recs[i]))
    && (forall tx :: Group(recs, tx) != [] ==> tx in Ids(done) || tx in marks)
    && (forall i :: 0 <= i < |done| ==> CommitsWhole(recs, done[i]))
    && (forall tx :: tx in Marked(recs, COMMIT) ==> tx in Ids(done))
  }

  /** The readable records that are known to be on disk. */
  function OnDisk(crc: Crc, w: Wal): seq<Record> {
    w.recs[..Whole(crc, w.recs, w.synced)]
  }

  /** An answered transaction has its marker on disk, unless a torn record came before it. */
  ghost predicate AnswersConsistent(crc: Crc, w: Wal, done: seq<Task>) {
    && w.synced <= |Bytes(crc, w)| && w.acked <= Ids(done)
    && (forall tx :: tx in w.acked && tx in Marked(w.recs, COMMIT) ==> tx in Marked(OnDisk(crc, w), COMMIT))
    && (w.junk == [] ==> forall tx :: tx in w.acked ==> tx in Marked(w.recs, COMMIT))
  }

  ghost predicate Consistent(crc: Crc, w: Wal, done: seq<Task>, marks: set<Int64>) {
    RecordsConsistent(w.recs, done, marks) && AnswersConsistent(crc, w, done)
  }

  lemma {:induction false} TaskGroup(t: Task, tx: Int64)
    requires ValidTask(t)
    ensures Group(TaskRecords(t), tx) == if tx == t.tx then TaskRecords(t) else []
    ensures Marked(TaskRecords(t), COMMIT) == []
  {
    SameGroup(t.records, t.tx, tx);
    assert TaskRecords(t)[1..] == t.records;
  }

  lemma {:induction false} SameGroup(rs: seq<Record>, own: Int64, tx: Int64)
    requires forall i :: 0 <= i < |rs| ==> rs[i].tx == own && rs[i].op != COMMIT
    ensures Group(rs, tx) == if tx == own then rs else []
    ensures Marked(rs, COMMIT) == []
  {
    if rs != [] {
      SameGroup(rs[1..], own, tx);
    }
  }

  /** The mutations of a batch hold nothing of other transactions, and no commit marker. */
  lemma {:induction false} MutationForeign(tasks: seq<Task>, tx: Int64)
    requires forall i :: 0 <= i < |tasks| ==> ValidTask(tasks[i])
    ensures (forall i :: 0 <= i < |tasks| ==> tasks[i].tx != tx) ==> Group(Mutations(tasks), tx) == []
    ensures Marked(Mutations(tasks), COMMIT) == []
  {
    if tasks != [] {
      MutationForeign(tasks[1..], tx);
      TaskGroup(tasks[0], tx);
      GroupConcat(TaskRecords(tasks[0]), Mutations(tasks[1..]), tx);
      MarkedConcat(TaskRecords(tasks[0]), Mutations(tasks[1..]), COMMIT);
    }
  }

  /** In the mutations of a batch each task has its own records. */
  lemma {:induction false} MutationOwn(tasks: seq<Task>, i: nat)
    requires Distinct(tasks) && forall i :: 0 <= i < |tasks| ==> ValidTask(tasks[i])
    requires i < |tasks|
    ensures Group(Mutations(tasks), tasks[i].tx) == TaskRecords(tasks[i])
  {
    var tx := tasks[i].tx;
    GroupConcat(TaskRecords(tasks[0]), Mutations(tasks[1..]), tx);
    TaskGroup(tasks[0], tx);
    if i == 0 {
      MutationForeign(tasks[1..], tx);
    } else {
      MutationOwn(tasks[1..], i - 1);
    }
  }

  /** Among records of different transactions, each group is at most one record. */
  lemma {:induction false} SingleGroup(rs: seq<Record>, tx: Int64)
    requires forall i, j :: 0 <= i < j < |rs| ==> rs[i].tx != rs[j].tx
    ensures forall i :: 0 <= i < |rs| && rs[i].tx == tx ==> Group(rs, tx) == [rs[i]]
    ensures (forall i :: 0 <= i < |rs| ==> rs[i].tx != tx) ==> Group(rs, tx) == []
  {
    if rs != [] {
      SingleGroup(rs[1..], tx);
      assert forall i :: 0 < i < |rs| ==> rs[i] == rs[1..][i - 1];
    }
  }

  lemma {:induction false} PrefixGroup(rs: seq<Record>, k: nat, tx: Int64, op: Byte)
    requires k <= |rs|
    ensures Group(rs[..k], tx) <= Group(rs, tx)
    ensures Marked(rs[..k], op) <= Marked(rs, op)
  {
    assert rs == rs[..k] + rs[k..];
    GroupConcat(rs[..k], rs[k..], tx);
    MarkedConcat(rs[..k], rs[k..], op);
  }

  /** What a batch adds for transactions that are not its own: nothing. */
  lemma {:induction false} BatchForeign(crc: Crc, mode: Mode, w: Wal, tasks: seq<Task>, f: Faults, tx: Int64)
    requires |f.appended| == |tasks| && Distinct(tasks) && forall i :: 0 <= i < |tasks| ==> ValidTask(tasks[i])
    requires tasks != [] && tx !in Ids(tasks)
    ensures Group(BatchRecords(crc, mode, w, tasks, f), tx) == []
  {
    var ms, out := Markers(tasks, Good(mode, tasks, f)), WrittenMarkers(crc, mode, w, tasks, f);
    WrittenNothing(crc, mode, w, tasks, f, tx);
    SingleGroup(ms, tx);
    PrefixGroup(ms, |out|, tx, COMMIT);
    GroupConcat(Written(crc, w, tasks, f), out, tx);
  }

  /** The mutations written hold no commit marker, and nothing of other transactions. */
  lemma {:induction false} WrittenNothing(crc: Crc, mode: Mode, w: Wal, tasks: seq<Task>, f: Faults, tx: Int64)
    requires |f.appended| == |tasks| && tasks != [] && forall i :: 0 <= i < |tasks| ==> ValidTask(tasks[i])
    ensures Marked(Written(crc, w, tasks, f), COMMIT) == []
    ensures tx !in Ids(tasks) ==> Group(Written(crc, w, tasks, f), tx) == []
    ensures WrittenMarkers(crc, mode, w, tasks, f) <= Markers(tasks, Good(mode, tasks, f))
  {
    MutationForeign(tasks, tx);
    BatchParts(crc, mode, w, tasks, f);
    PrefixGroup(Mutations(tasks), |Written(crc, w, tasks, f)|, tx, COMMIT);
  }

  /** A commit marker for task `i` is only readable if all mutations before it are. */
  lemma {:induction false} BatchCommits(crc: Crc, mode: Mode, w: Wal, tasks: seq<Task>, f: Faults, i: nat)
    requires |f.appended| == |tasks| && Distinct(tasks) && forall i :: 0 <= i < |tasks| ==> ValidTask(tasks[i])
    requires i < |tasks| && tasks[i].tx in Marked(BatchRecords(crc, mode, w, tasks, f), COMMIT)
    ensures Good(mode, tasks, f)[i] && Written(crc, w, tasks, f) == Mutations(tasks)
    ensures Group(WrittenMarkers(crc, mode, w, tasks, f), tasks[i].tx) == [Marker(tasks[i], COMMIT)]
  {
    var good := Good(mode, tasks, f);
    var ms := WrittenMarkers(crc, mode, w, tasks, f);
    WrittenNothing(crc, mode, w, tasks, f, tasks[i].tx);
    MarkedConcat(Written(crc, w, tasks, f), ms, COMMIT);
    MarkerOwn(tasks, good, |ms|, i);
    BatchParts(crc, mode, w, tasks, f);
  }

  /** What a batch adds for its own task `i`: everything, if it commits it. */
  lemma {:induction false} BatchOwn(crc: Crc, mode: Mode, w: Wal, tasks: seq<Task>, f: Faults, i: nat)
    requires |f.appended| == |tasks| && Distinct(tasks) && forall i :: 0 <= i < |tasks| ==> ValidTask(tasks[i])
    requires i < |tasks|
    ensures CommitsWhole(BatchRecords(crc, mode, w, tasks, f), tasks[i])
  {
    if tasks[i].tx in Marked(BatchRecords(crc, mode, w, tasks, f), COMMIT) {
      BatchCommits(crc, mode, w, tasks, f, i);
      MutationOwn(tasks, i);
      GroupConcat(Written(crc, w, tasks, f), WrittenMarkers(crc, mode, w, tasks, f), tasks[i].tx);
    }
  }

  lemma {:induction false} MarkerOwn(tasks: seq<Task>, good: seq<bool>, k: nat, i: nat)
    requires |good| == |tasks| && k <= |tasks| && i < |tasks| && Distinct(tasks)
    requires tasks[i].tx in Marked(Markers(tasks, good)[..k], COMMIT)
    ensures good[i] && Group(Markers(tasks, good)[..k], tasks[i].tx) == [Marker(tasks[i], COMMIT)]
  {
    var ms := Markers(tasks, good)[..k];
    var tx := tasks[i].tx;
    MarkedInGroup(ms, COMMIT, tx);
    SingleGroup(ms, tx);
    GroupMember(ms, tx);
    var j :| 0 <= j < |ms| && ms[j].tx == tx;
    assert j == i;
  }

  lemma {:induction false} MutationsWritable(tasks: seq<Task>)
    requires forall i :: 0 <= i < |tasks| ==> ValidTask(tasks[i])
    ensures forall i :: 0 <= i < |Mutations(tasks)| ==> Writable(Mutations(tasks)[i])
  {
    if tasks != [] {
      MutationsWritable(tasks[1..]);
      assert forall i :: 0 <= i < |TaskRecords(tasks[0])| ==> Writable(TaskRecords(tasks[0])[i]);
    }
  }

  /** New tasks with ids of their own. */
  ghost predicate NewTasks(tasks: seq<Task>, done: seq<Task>, marks: set<Int64>) {
    && Distinct(tasks) && (forall i :: 0 <= i < |tasks| ==> ValidTask(tasks[i]))
    && Ids(tasks) !! Ids(done) && Ids(tasks) !! marks
  }

  lemma {:induction false} IdsConcat(a: seq<Task>, b: seq<Task>)
    ensures Ids(a + b) == Ids(a) + Ids(b)
  {
    forall tx
      ensures tx in Ids(a + b) <==> tx in Ids(a) || tx in Ids(b)
    {
      if tx in Ids(a) {
        var i :| 0 <= i < |a| && a[i].tx == tx;
        assert (a + b)[i].tx == tx;
      }
      if tx in Ids(b) {
        var i :| 0 <= i < |b| && b[i].tx == tx;
        assert (a + b)[|a| + i].tx == tx;
      }
    }
  }

  /** Appending records keeps every committed transaction whole, if the new records do. */
  lemma {:induction false} AppendKeeps(recs: seq<Record>, done: seq<Task>, marks: set<Int64>, more: seq<Record>,
                                       tasks: seq<Task>, t: Task)
    requires RecordsConsistent(recs, done, marks) && NewTasks(tasks, done, marks) && t in done + tasks
    requires forall tx :: tx !in Ids(tasks) ==> Group(more, tx) == []
    requires t in tasks ==> CommitsWhole(more, t)
    ensures CommitsWhole(recs + more, t)
  {
    GroupConcat(recs, more, t.tx);
    MarkedConcat(recs, more, COMMIT);
    MarkedInGroup(more, COMMIT, t.tx);
    if t in tasks {
      assert t.tx in Ids(tasks);
      assert Group(recs, t.tx) == [];
      MarkedInGroup(recs, COMMIT, t.tx);
    } else {
      assert t in done && t.tx in Ids(done);
    }
  }

  lemma {:induction false} MarkedGrows(a: seq<Record>, b: seq<Record>, op: Byte, tx: Int64)
    requires a <= b && tx in Marked(a, op)
    ensures tx in Marked(b, op)
  {
    assert b == a + b[|a|..];
    MarkedConcat(a, b[|a|..], op);
  }

  // ---------------------------------------------------------------- answers

  /** An append and its sync lose nothing of what is on disk. */
  lemma {:induction false} DiskGrows(crc: Crc, toSync: bool, w: Wal, rs: seq<Record>, fault: Option<nat>, syncs: bool)
    requires w.synced <= |Bytes(crc, w)|
    ensures var w' := AfterWrite(crc, toSync, w, rs, fault, syncs);
            w'.synced <= |Bytes(crc, w')| && w'.synced >= w.synced && OnDisk(crc, w) <= OnDisk(crc, w')
  {
    var w' := AfterWrite(crc, toSync, w, rs, fault, syncs);
    AppendBytes(crc, w, rs, fault);
    WholeGrows(crc, w.recs, Landed(crc, w, rs, fault), w.synced, w'.synced);
  }

  /** Writing records without commit markers of answered transactions keeps the answers consistent. */
  lemma {:induction false} WriteAnswers(crc: Crc, toSync: bool, w: Wal, rs: seq<Record>, fault: Option<nat>,
                                        syncs: bool, done: seq<Task>)
    requires AnswersConsistent(crc, w, done)
    requires forall tx :: tx in w.acked ==> tx !in Marked(Landed(crc, w, rs, fault), COMMIT)
    ensures AnswersConsistent(crc, AfterWrite(crc, toSync, w, rs, fault, syncs), done)
  {
    var w' := AfterWrite(crc, toSync, w, rs, fault, syncs);
    DiskGrows(crc, toSync, w, rs, fault, syncs);
    AppendTears(crc, w, rs, fault);
    MarkedConcat(w.recs, Landed(crc, w, rs, fault), COMMIT);
    forall tx | tx in w'.acked && tx in Marked(w'.recs, COMMIT)
      ensures tx in Marked(OnDisk(crc, w'), COMMIT)
    {
      MarkedGrows(OnDisk(crc, w), OnDisk(crc, w'), COMMIT, tx);
    }
  }

  /** After a batch in which nothing fails the whole log is on disk, and the markers are in it if it was not torn. */
  lemma {:induction false} CleanBatch(crc: Crc, mode: Mode, w: Wal, tasks: seq<Task>, f: Faults)
    requires |f.appended| == |tasks| && tasks != [] && !mode.Async? && Clean(mode, f)
    ensures var w' := AfterBatch(crc, mode, w, tasks, f);
            && OnDisk(crc, w') == w'.recs && (w'.junk == [] <==> w.junk == [])
            && (w.junk == [] ==> WrittenMarkers(crc, mode, w, tasks, f) == Markers(tasks, f.appended))
            && (w.junk != [] ==> w'.recs == w.recs)
  {
    var w' := AfterBatch(crc, mode, w, tasks, f);
    var w1 := AfterMutations(crc, mode, w, tasks, f);
    assert Good(mode, tasks, f) == f.appended;
    AppendTears(crc, w, Mutations(tasks), f.mutations);
    AppendTears(crc, w1, Markers(tasks, f.appended), f.markers);
    WholeAll(crc, w'.recs, w'.synced);
    if w.junk != [] {
      assert w.recs + [] == w.recs;
    }
  }

  /** What a batch answers without error has its marker in the readable part, unless the log was torn before. */
  lemma {:induction false} AnswerMarked(tasks: seq<Task>, good: seq<bool>, i: nat)
    requires |good| == |tasks| && i < |tasks| && good[i]
    ensures tasks[i].tx in Marked(Markers(tasks, good), COMMIT)
  {
    var ms := Markers(tasks, good);
    assert ms == ms[..i] + [ms[i]] + ms[i + 1..];
    MarkedConcat(ms[..i] + [ms[i]], ms[i + 1..], COMMIT);
    MarkedConcat(ms[..i], [ms[i]], COMMIT);
  }

  /** The two writes of a batch keep the answers consistent that were given before it. */
  lemma {:induction false} BatchKeepsAnswers(crc: Crc, mode: Mode, w: Wal, done: seq<Task>, marks: set<Int64>,
                                             tasks: seq<Task>, f: Faults)
    requires Consistent(crc, w, done, marks) && NewTasks(tasks, done, marks) && |f.appended| == |tasks| && tasks != []
    ensures var w' := AfterBatch(crc, mode, w, tasks, f); AnswersConsistent(crc, w'.(acked := w.acked), done)
  {
    var ms := Markers(tasks, Good(mode, tasks, f));
    var w1 := AfterMutations(crc, mode, w, tasks, f);
    forall tx | tx in w.acked
      ensures tx !in Marked(Landed(crc, w, Mutations(tasks), f.mutations), COMMIT)
      ensures tx !in Marked(Landed(crc, w1, ms, f.markers), COMMIT)
    {
      BatchForeign(crc, mode, w, tasks, f, tx);
      GroupConcat(Written(crc, w, tasks, f), WrittenMarkers(crc, mode, w, tasks, f), tx);
      MarkedInGroup(Written(crc, w, tasks, f), COMMIT, tx);
      MarkedInGroup(WrittenMarkers(crc, mode, w, tasks, f), COMMIT, tx);
    }
    WriteAnswers(crc, !mode.Async?, w, Mutations(tasks), f.mutations, f.mutationSync, done);
    WriteAnswers(crc, !mode.Async?, w1, ms, f.markers, f.markerSync, done);
  }

  lemma {:induction false} BatchAnswers(crc: Crc, mode: Mode, w: Wal, done: seq<Task>, marks: set<Int64>,
                                        tasks: seq<Task>, f: Faults)
    requires Consistent(crc, w, done, marks) && NewTasks(tasks, done, marks) && |f.appended| == |tasks| && tasks != []
    requires !mode.Async?
    ensures AnswersConsistent(crc, AfterBatch(crc, mode, w, tasks, f), done + tasks)
  {
    var w' := AfterBatch(crc, mode, w, tasks, f);
    IdsConcat(done, tasks);
    BatchKeepsAnswers(crc, mode, w, done, marks, tasks, f);
    BatchAdds(crc, mode, w, tasks, f);
    if Clean(mode, f) {
      CleanBatch(crc, mode, w, tasks, f);
      forall tx | tx in w'.acked && w'.junk == []
        ensures tx in Marked(w'.recs, COMMIT)
      {
        if tx !in w.acked {
          var i :| 0 <= i < |tasks| && Answers(mode, tasks, f)[i] && tasks[i].tx == tx;
          AnswerMarked(tasks, f.appended, i);
          MarkedConcat(w.recs + Written(crc, w, tasks, f), Markers(tasks, f.appended), COMMIT);
          assert w'.recs == w.recs + Written(crc, w, tasks, f) + Markers(tasks, f.appended);
        }
      }
    } else {
      assert AnsweredWell(tasks, Answers(mode, tasks, f)) == {};
      assert w' == w'.(acked := w.acked);
    }
  }

  // ---------------------------------------------------------------- records

  lemma {:induction false} BatchWritable(crc: Crc, mode: Mode, w: Wal, tasks: seq<Task>, f: Faults)
    requires |f.appended| == |tasks| && tasks != [] && forall i :: 0 <= i < |tasks| ==> ValidTask(tasks[i])
    ensures var more := BatchRecords(crc, mode, w, tasks, f); forall i :: 0 <= i < |more| ==> Writable(more[i])
  {
    MutationsWritable(tasks);
    BatchParts(crc, mode, w, tasks, f);
  }

  lemma {:induction false} AppendConsistent(crc: Crc, mode: Mode, w: Wal, done: seq<Task>, marks: set<Int64>,
                                            tasks: seq<Task>, f: Faults)
    requires RecordsConsistent(w.recs, done, marks) && NewTasks(tasks, done, marks) && |f.appended| == |tasks|
    requires tasks != []
    ensures var recs := w.recs + BatchRecords(crc, mode, w, tasks, f);
            && (forall i :: 0 <= i < |recs| ==> Writable(recs[i]))
            && (forall tx :: Group(recs, tx) != [] ==> tx in Ids(done) || tx in Ids(tasks) || tx in marks)
            && (forall tx :: tx in Marked(recs, COMMIT) ==> tx in Ids(done) || tx in Ids(tasks))
  {
    var more := BatchRecords(crc, mode, w, tasks, f);
    var recs := w.recs + more;
    BatchWritable(crc, mode, w, tasks, f);
    forall tx
      ensures Group(recs, tx) != [] ==> tx in Ids(done) || tx in Ids(tasks) || tx in marks
      ensures tx in Marked(recs, COMMIT) ==> tx in Ids(done) || tx in Ids(tasks)
    {
      GroupConcat(w.recs, more, tx);
      MarkedConcat(w.recs, more, COMMIT);
      MarkedInGroup(more, COMMIT, tx);
      if tx !in Ids(tasks) {
        BatchForeign(crc, mode, w, tasks, f, tx);
      }
    }
  }

  lemma {:induction false} AppendWhole(crc: Crc, mode: Mode, w: Wal, done: seq<Task>, marks: set<Int64>,
                                       tasks: seq<Task>, f: Faults)
    requires RecordsConsistent(w.recs, done, marks) && NewTasks(tasks, done, marks) && |f.appended| == |tasks|
    requires tasks != []
    ensures var recs := w.recs + BatchRecords(crc, mode, w, tasks, f);
            forall i :: 0 <= i < |done + tasks| ==> CommitsWhole(recs, (done + tasks)[i])
  {
    var more := BatchRecords(crc, mode, w, tasks, f);
    forall tx | tx !in Ids(tasks)
      ensures Group(more, tx) == []
    {
      BatchForeign(crc, mode, w, tasks, f, tx);
    }
    forall i | 0 <= i < |tasks|
      ensures CommitsWhole(more, tasks[i])
    {
      BatchOwn(crc, mode, w, tasks, f, i);
    }
    AllWhole(w.recs, done, marks, more, tasks);
  }

  lemma {:induction false} AllWhole(recs: seq<Record>, done: seq<Task>, marks: set<Int64>, more: seq<Record>,
                                    tasks: seq<Task>)
    requires RecordsConsistent(recs, done, marks) && NewTasks(tasks, done, marks)
    requires forall tx :: tx !in Ids(tasks) ==> Group(more, tx) == []
    requires forall i :: 0 <= i < |tasks| ==> CommitsWhole(more, tasks[i])
    ensures forall i :: 0 <= i < |done + tasks| ==> CommitsWhole(recs + more, (done + tasks)[i])
  {
    forall i | 0 <= i < |done + tasks|
      ensures CommitsWhole(recs + more, (done + tasks)[i])
    {
      AppendKeeps(recs, done, marks, more, tasks, (done + tasks)[i]);
    }
  }

  /** Every batch, whatever fails in it, keeps the log consistent. */
  lemma {:induction false} BatchConsistent(crc: Crc, mode: Mode, w: Wal, done: seq<Task>, marks: set<Int64>,
                                           tasks: seq<Task>, f: Faults)
    requires Consistent(crc, w, done, marks) && NewTasks(tasks, done, marks) && |f.appended| == |tasks| && !mode.Async?
    ensures Consistent(crc, AfterBatch(crc, mode, w, tasks, f), done + tasks, marks)
  {
    if tasks == [] {
      assert done + tasks == done;
    } else {
      IdsConcat(done, tasks);
      BatchAdds(crc, mode, w, tasks, f);
      AppendConsistent(crc, mode, w, done, marks, tasks, f);
      AppendWhole(crc, mode, w, done, marks, tasks, f);
      BatchAnswers(crc, mode, w, done, marks, tasks, f);
    }
  }

  // ---------------------------------------------------------------- rollback markers

  /** A rollback marker appended on its own; only the Sync mode syncs it. */
  function AfterMark(crc: Crc, mode: Mode, w: Wal, r: Record, fault: Option<nat>, syncs: bool): Wal {
    AfterWrite(crc, mode.Sync?, w, [r], fault, syncs)
  }

  lemma {:induction false} MarkAdds(crc: Crc, w: Wal, r: Record, fault: Option<nat>)
    ensures Landed(crc, w, [r], fault) == [] || Landed(crc, w, [r], fault) == [r]
  {
    AppendTears(crc, w, [r], fault);
  }

  lemma {:induction false} MarkRecords(recs: seq<Record>, done: seq<Task>, marks: set<Int64>, r: Record)
    requires RecordsConsistent(recs, done, marks) && r.op == ROLLBACK && Writable(r) && r.tx !in Ids(done)
    ensures RecordsConsistent(recs + [r], done, marks + {r.tx})
  {
    forall tx
      ensures Group(recs + [r], tx) == Group(recs, tx) + (if tx == r.tx then [r] else [])
    {
      GroupConcat(recs, [r], tx);
    }
    MarkedConcat(recs, [r], COMMIT);
    forall i | 0 <= i < |done|
      ensures CommitsWhole(recs + [r], done[i])
    {
      assert done[i].tx in Ids(done);
    }
  }

  lemma {:induction false} MarkConsistent(crc: Crc, mode: Mode, w: Wal, done: seq<Task>, marks: set<Int64>,
                                          r: Record, fault: Option<nat>, syncs: bool)
    requires Consistent(crc, w, done, marks) && r.op == ROLLBACK && Writable(r) && r.tx !in Ids(done)
    ensures Consistent(crc, AfterMark(crc, mode, w, r, fault, syncs), done, marks + {r.tx})
  {
    MarkAdds(crc, w, r, fault);
    MarkRecords(w.recs, done, marks, r);
    assert w.recs + [] == w.recs;
    WriteAnswers(crc, mode.Sync?, w, [r], fault, syncs, done);
  }

  // ---------------------------------------------------------------- runs

  datatype Event =
    | Batch(tasks: seq<Task>, faults: Faults)
    | Mark(record: Record, fault: Option<nat>, syncs: bool)

  /** The faults of every batch name its tasks. */
  predicate Shaped(events: seq<Event>) {
    forall i :: 0 <= i < |events| && events[i].Batch? ==> |events[i].faults.appended| == |events[i].tasks|
  }

  /** The tasks and the hand-made marks of a run. */
  function Tasks(events: seq<Event>): seq<Task>
    decreases |events|
  {
    if events == [] then []
    else
      var last := events[|events| - 1];
      Tasks(events[..|events| - 1]) + (if last.Batch? then last.tasks else [])
  }

  function Marks(events: seq<Event>): set<Int64>
    decreases |events|
  {
    if events == [] then {}
    else
      var last := events[|events| - 1];
      Marks(events[..|events| - 1]) + (if last.Mark? then {last.record.tx} else {})
  }

  /** Every transaction is submitted once or rolled back, under an id of its own. */
  ghost predicate GoodRun(events: seq<Event>)
    decreases |events|
  {
    events == [] ||
    var init, last := events[..|events| - 1], events[|events| - 1];
    GoodRun(init) &&
    match last
    case Batch(tasks, f) => NewTasks(tasks, Tasks(init), Marks(init)) && |f.appended| == |tasks|
    case Mark(r, _, _) => r.op == ROLLBACK && Writable(r) && r.tx !in Ids(Tasks(init))
  }

  const EMPTY_LOG: Wal := Wal([], [], 0, {})

  function AfterEvent(crc: Crc, mode: Mode, w: Wal, e: Event): Wal
    requires e.Batch? ==> |e.faults.appended| == |e.tasks|
  {
    match e
    case Batch(tasks, f) => AfterBatch(crc, mode, w, tasks, f)
    case Mark(r, fault, syncs) => AfterMark(crc, mode, w, r, fault, syncs)
  }

  function RunLog(crc: Crc, mode: Mode, events: seq<Event>): Wal
    requires Shaped(events)
    decreases |events|
  {
    if events == [] then EMPTY_LOG
    else AfterEvent(crc, mode, RunLog(crc, mode, events[..|events| - 1]), events[|events| - 1])
  }

  lemma {:induction false} GoodRunShape(events: seq<Event>)
    requires GoodRun(events)
    ensures Shaped(events)
    decreases |events|
  {
    if events != [] {
      var init := events[..|events| - 1];
      GoodRunShape(init);
      assert forall i :: 0 <= i < |init| ==> events[i] == init[i];
    }
  }

  /** Every run keeps the log consistent. */
  lemma {:induction false} RunConsistent(crc: Crc, mode: Mode, events: seq<Event>)
    requires GoodRun(events) && Shaped(events) && !mode.Async?
    ensures Consistent(crc, RunLog(crc, mode, events), Tasks(events), Marks(events))
    decreases |events|
  {
    if events != [] {
      var init := events[..|events| - 1];
      RunConsistent(crc, mode, init);
      match events[|events| - 1]
      case Batch(tasks, f) =>
        BatchConsistent(crc, mode, RunLog(crc, mode, init), Tasks(init), Marks(init), tasks, f);
        assert Marks(events) == Marks(init);
      case Mark(r, fault, syncs) =>
        MarkConsistent(crc, mode, RunLog(crc, mode, init), Tasks(init), Marks(init), r, fault, syncs);
        assert Tasks(events) == Tasks(init);
    }
  }

  /** Some append of the event stops inside a record. */
  predicate TearsLog(crc: Crc, mode: Mode, e: Event)
    requires e.Batch? ==> |e.faults.appended| == |e.tasks|
  {
    match e
    case Batch(tasks, f) =>
      tasks != [] && (Tears(crc, Mutations(tasks), f.mutations)
                      || Tears(crc, Markers(tasks, Good(mode, tasks, f)), f.markers))
    case Mark(r, fault, _) => Tears(crc, [r], fault)
  }

  lemma {:induction false} TornOne(crc: Crc, mode: Mode, w: Wal, e: Event)
    requires e.Batch? ==> |e.faults.appended| == |e.tasks|
    ensures AfterEvent(crc, mode, w, e).junk == [] <==> w.junk == [] && !TearsLog(crc, mode, e)
  {
    match e
    case Batch(tasks, f) =>
      AppendTears(crc, w, Mutations(tasks), f.mutations);
      AppendTears(crc, AfterMutations(crc, mode, w, tasks, f), Markers(tasks, Good(mode, tasks, f)), f.markers);
    case Mark(r, fault, _) => AppendTears(crc, w, [r], fault);
  }

  /** No append of the run stops inside a record. */
  predicate Untorn(crc: Crc, mode: Mode, events: seq<Event>)
    requires Shaped(events)
    decreases |events|
  {
    events == [] || (!TearsLog(crc, mode, events[|events| - 1]) && Untorn(crc, mode, events[..|events| - 1]))
  }

  /** The log stays readable to its end exactly if no append of the run stopped inside a record. */
  lemma {:induction false} TornIff(crc: Crc, mode: Mode, events: seq<Event>)
    requires Shaped(events)
    ensures RunLog(crc, mode, events).junk == [] <==> Untorn(crc, mode, events)
    decreases |events|
  {
    if events != [] {
      var n := |events| - 1;
      TornIff(crc, mode, events[..n]);
      TornOne(crc, mode, RunLog(crc, mode, events[..n]), events[n]);
    }
  }

  // ---------------------------------------------------------------- recovery after a crash

  /** What recovery makes of the records `rs` of a run with the given tasks. */
  ghost predicate RecoversCommitted(rs: seq<Record>, done: seq<Task>) {
    && (forall tx :: tx in Active(rs) <==> tx in Marked(rs, COMMIT))
    && (forall tx :: tx in Active(rs) ==> tx in Ids(done))
    && (forall i :: 0 <= i < |done| && done[i].tx in Active(rs) ==> Group(rs, done[i].tx) == Complete(done[i]))
  }

  /** In a prefix, a committed transaction is as complete as in the whole log. */
  lemma {:induction false} PrefixCommitted(rs: seq<Record>, k: nat, t: Task)
    requires k <= |rs| && ValidTask(t) && CommitsWhole(rs, t) && t.tx in Marked(rs[..k], COMMIT)
    ensures Group(rs[..k], t.tx) == Complete(t) && t.tx !in Marked(rs[..k], ROLLBACK)
  {
    PrefixGroup(rs, k, t.tx, COMMIT);
    MarkedInGroup(rs[..k], COMMIT, t.tx);
    MarkedInGroup(rs[..k], ROLLBACK, t.tx);
    var g := Group(rs[..k], t.tx);
    var i :| 0 <= i < |g| && g[i].op == COMMIT;
    CompleteMarkers(t, g, i);
  }

  /** The commit marker is the last record of a complete transaction, and there is no rollback marker. */
  lemma {:induction false} CompleteMarkers(t: Task, g: seq<Record>, i: nat)
    requires ValidTask(t) && g <= Complete(t) && i < |g| && g[i].op == COMMIT
    ensures g == Complete(t) && forall j :: 0 <= j < |g| ==> g[j].op != ROLLBACK
  {
    var c := Complete(t);
    assert forall j :: 0 < j < |c| - 1 ==> c[j] == t.records[j - 1];
    assert g[i] == c[i];
  }

  lemma {:induction false} PrefixRecovers(recs: seq<Record>, done: seq<Task>, marks: set<Int64>, k: nat)
    requires RecordsConsistent(recs, done, marks) && k <= |recs|
    ensures RecoversCommitted(recs[..k], done)
  {
    var rs := recs[..k];
    forall tx
      ensures tx in Active(rs) <==> tx in Marked(rs, COMMIT)
      ensures tx in Active(rs) ==> tx in Ids(done)
    {
      WithoutMember(Marked(rs, COMMIT), Marked(rs, ROLLBACK), tx);
      if tx in Marked(rs, COMMIT) {
        MarkedGrows(rs, recs, COMMIT, tx);
        var i :| 0 <= i < |done| && done[i].tx == tx;
        PrefixCommitted(recs, k, done[i]);
      }
    }
    forall i | 0 <= i < |done| && done[i].tx in Active(rs)
      ensures Group(rs, done[i].tx) == Complete(done[i])
    {
      PrefixCommitted(recs, k, done[i]);
    }
  }

  /** What begins with the first torn record does not happen to pass as a record itself. */
  predicate NoCollision(crc: Crc, w: Wal) {
    !ReadFront(crc, w.junk).Found?
  }

  /** The first `n` bytes of the log cannot be read. */
  predicate Unreadable(crc: Crc, w: Wal, n: nat)
    requires n <= |Bytes(crc, w)|
  {
    var whole := |EncodeAll(crc, w.recs)|;
    if n <= whole then 1 <= n - WholeBytes(crc, w.recs, n) <= 3 else ReadFront(crc, w.junk[..n - whole]).Bad?
  }

  /** Reading the first `n` bytes of a log, torn or not. */
  lemma {:induction false} LogReads(crc: Crc, w: Wal, n: nat)
    requires (forall i :: 0 <= i < |w.recs| ==> Writable(w.recs[i])) && NoCollision(crc, w) && n <= |Bytes(crc, w)|
    ensures Parse(crc, Bytes(crc, w)[..n]) ==
            if Unreadable(crc, w, n) then Corrupt else Records(w.recs[..Whole(crc, w.recs, n)])
  {
    var all := EncodeAll(crc, w.recs);
    if n <= |all| {
      assert Bytes(crc, w)[..n] == all[..n];
      TornLog(crc, w.recs, n);
    } else {
      var m := n - |all|;
      assert Bytes(crc, w)[..n] == all + w.junk[..m];
      if ReadFront(crc, w.junk[..m]).Found? {
        FrontOfPrefix(crc, w.junk, m);
      }
      ReadsThenStops(crc, w.recs, w.junk[..m]);
      WholeAll(crc, w.recs, n);
      assert w.recs[..|w.recs|] == w.recs;
    }
  }

  /**
   Durable batches. For every run in the Sync or the Batched mode, with any failures, and every crash
   prefix of its log: the prefix reads as the whole records in it that precede the first torn one (or not
   at all); recovery selects exactly the transactions whose commit marker is among them, each with
   all its records; and, if the crash lost nothing that was synced, a transaction answered without
   error is selected if and only if its marker precedes the first torn record. Without a torn record
   that is all of them.
   */
  lemma {:induction false} DurableBatches(crc: Crc, mode: Mode, events: seq<Event>, n: nat)
    requires GoodRun(events) && Shaped(events) && !mode.Async?
    requires n <= |Bytes(crc, RunLog(crc, mode, events))| && NoCollision(crc, RunLog(crc, mode, events))
    ensures var w := RunLog(crc, mode, events);
            match Parse(crc, Bytes(crc, w)[..n])
            case Corrupt => Unreadable(crc, w, n)
            case Records(rs) =>
              && rs == w.recs[..Whole(crc, w.recs, n)] && RecoversCommitted(rs, Tasks(events))
              && (n >= w.synced ==> forall tx :: tx in w.acked ==> (tx in Active(rs) <==> tx in Marked(w.recs, COMMIT)))
              && (n >= w.synced && w.junk == [] ==> forall tx :: tx in w.acked ==> tx in Active(rs))
  {
    var w := RunLog(crc, mode, events);
    RunConsistent(crc, mode, events);
    LogReads(crc, w, n);
    if !Unreadable(crc, w, n) {
      var rs := w.recs[..Whole(crc, w.recs, n)];
      PrefixRecovers(w.recs, Tasks(events), Marks(events), Whole(crc, w.recs, n));
      if n >= w.synced {
        forall tx | tx in w.acked
          ensures tx in Marked(rs, COMMIT) <==> tx in Marked(w.recs, COMMIT)
        {
          AckedSurvives(crc, w, Tasks(events), n, tx);
        }
      }
    }
  }

  lemma {:induction false} AckedSurvives(crc: Crc, w: Wal, done: seq<Task>, n: nat, tx: Int64)
    requires AnswersConsistent(crc, w, done) && w.synced <= n && tx in w.acked
    ensures tx in Marked(w.recs[..Whole(crc, w.recs, n)], COMMIT) <==> tx in Marked(w.recs, COMMIT)
  {
    var rs := w.recs[..Whole(crc, w.recs, n)];
    assert w.recs + [] == w.recs;
    WholeGrows(crc, w.recs, [], w.synced, n);
    if tx in Marked(w.recs, COMMIT) {
      MarkedGrows(OnDisk(crc, w), rs, COMMIT, tx);
    }
    if tx in Marked(rs, COMMIT) {
      MarkedGrows(rs, w.recs, COMMIT, tx);
    }
  }
}
