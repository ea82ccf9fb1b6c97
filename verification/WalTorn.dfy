/**
 What a torn record in the log costs. The batch writer goes on behind it, with markers and later batches,
 and answers them; but the reader takes what follows for the rest of the torn record. The lemmas
 here give the failing runs to the condition in `WalBatch.DurableBatches`.
 */
module WalTorn {
  import opened Options
  import opened KeyOrder
  import opened BigEndian
  import opened WalFormat
  import opened WalRecovery
  import opened WalBatch

  const NO_FAULT: Faults := Faults(None, true, [true], true, None, true)

  /** A batch whose first append stops after `n` bytes, and then a batch in which nothing fails. */
  function LosingRun(a: Task, b: Task, n: nat): (r: seq<Event>)
    ensures Shaped(r)
  {
    [Batch([a], NO_FAULT.(mutations := Some(n))), Batch([b], NO_FAULT)]
  }

  /** What the two batches write behind the torn record. */
  function BehindTear(crc: Crc, a: Task, b: Task): seq<Byte> {
    Encode(crc, Marker(a, ROLLBACK)) + (EncodeAll(crc, Mutations([b])) + Encode(crc, Marker(b, COMMIT)))
  }

  /** Batches behind a torn record are answered like any others, and add nothing that can be read. */
  lemma {:induction false} AfterTear(crc: Crc, mode: Mode, w: Wal, tasks: seq<Task>, f: Faults)
    requires |f.appended| == |tasks| && w.junk != [] && tasks != []
    ensures var w' := AfterBatch(crc, mode, w, tasks, f);
            w'.recs == w.recs && w'.junk != [] && w'.acked == w.acked + AnsweredWell(tasks, Answers(mode, tasks, f))
  {
    assert w.recs + [] == w.recs;
  }

  lemma {:induction false} TwoEvents(crc: Crc, mode: Mode, run: seq<Event>)
    requires Shaped(run) && |run| == 2
    ensures RunLog(crc, mode, run) == AfterEvent(crc, mode, AfterEvent(crc, mode, EMPTY_LOG, run[0]), run[1])
  {
    assert run[..1] == [run[0]] && run[..1][..0] == [];
    assert RunLog(crc, mode, run[..1][..0]) == EMPTY_LOG;
    assert RunLog(crc, mode, run[..1]) == AfterEvent(crc, mode, EMPTY_LOG, run[0]);
  }

  /** The log of two batches of one task each, the first of which stops in its mutations. */
  lemma {:induction false} TwoBatches(crc: Crc, a: Task, b: Task, n: nat)
    requires Tears(crc, Mutations([a]), Some(n))
    ensures var w := RunLog(crc, Sync, LosingRun(a, b, n));
            && w.recs == Mutations([a])[..Landing(crc, Mutations([a]), Some(n))] && w.acked == {b.tx}
            && w.junk == Litter(crc, EMPTY_LOG, Mutations([a]), Some(n)) + BehindTear(crc, a, b)
  {
    var f := NO_FAULT.(mutations := Some(n));
    var litter := Litter(crc, EMPTY_LOG, Mutations([a]), Some(n));
    TwoEvents(crc, Sync, LosingRun(a, b, n));
    TornBatch(crc, EMPTY_LOG, a, f, n);
    CleanBehind(crc, AfterBatch(crc, Sync, EMPTY_LOG, [a], f), b);
    Regroup(litter, Encode(crc, Marker(a, ROLLBACK)), EncodeAll(crc, Mutations([b])), Encode(crc, Marker(b, COMMIT)));
    assert EMPTY_LOG.recs + Landed(crc, EMPTY_LOG, Mutations([a]), Some(n)) ==
      Landed(crc, EMPTY_LOG, Mutations([a]), Some(n));
  }

  lemma {:induction false} Regroup(a: seq<Byte>, b: seq<Byte>, c: seq<Byte>, d: seq<Byte>)
    ensures a + b + c + d == a + (b + (c + d))
  {
  }

  lemma {:induction false} TornBatch(crc: Crc, w: Wal, a: Task, f: Faults, n: nat)
    requires w.junk == [] && Tears(crc, Mutations([a]), Some(n)) && f == NO_FAULT.(mutations := Some(n))
    ensures var w' := AfterBatch(crc, Sync, w, [a], f);
            && w'.recs == w.recs + Landed(crc, w, Mutations([a]), Some(n)) && w'.acked == w.acked
            && w'.junk == Litter(crc, w, Mutations([a]), Some(n)) + Encode(crc, Marker(a, ROLLBACK)) && w'.junk != []
  {
    var w1 := AfterMutations(crc, Sync, w, [a], f);
    AppendTears(crc, w, Mutations([a]), Some(n));
    assert w1.junk == Litter(crc, w, Mutations([a]), Some(n));
    var ms := Markers([a], Good(Sync, [a], f));
    assert ms == [Marker(a, ROLLBACK)];
    OneMarker(crc, w1, ms[0]);
    assert AnsweredWell([a], Answers(Sync, [a], f)) == {};
  }

  /** Behind a torn record a batch leaves its bytes, and is answered. */
  lemma {:induction false} CleanBehind(crc: Crc, w: Wal, b: Task)
    requires w.junk != []
    ensures var w' := AfterBatch(crc, Sync, w, [b], NO_FAULT);
            && w'.recs == w.recs && w'.acked == w.acked + {b.tx}
            && w'.junk == w.junk + EncodeAll(crc, Mutations([b])) + Encode(crc, Marker(b, COMMIT))
  {
    var w1 := AfterMutations(crc, Sync, w, [b], NO_FAULT);
    AfterTear(crc, Sync, w, [b], NO_FAULT);
    var ms := Markers([b], Good(Sync, [b], NO_FAULT));
    assert ms == [Marker(b, COMMIT)];
    OneMarker(crc, w1, ms[0]);
    assert Answers(Sync, [b], NO_FAULT)[0];
    assert AnsweredWell([b], Answers(Sync, [b], NO_FAULT)) == {[b][0].tx};
  }

  lemma {:induction false} OneMarker(crc: Crc, w: Wal, r: Record)
    requires w.junk != []
    ensures Append(crc, w, [r], None).junk == w.junk + Encode(crc, r) && Append(crc, w, [r], None).recs == w.recs
  {
    assert [r][1..] == [];
    assert EncodeAll(crc, [r]) == Encode(crc, r) + [];
    assert w.recs + [] == w.recs;
  }

  lemma {:induction false} LosingRunGood(a: Task, b: Task, n: nat)
    requires ValidTask(a) && ValidTask(b) && a.tx != b.tx
    ensures GoodRun(LosingRun(a, b, n)) && Tasks(LosingRun(a, b, n)) == [a, b]
  {
    var run := LosingRun(a, b, n);
    assert run[..1] == [run[0]] && run[..1][..0] == [];
    assert Tasks([]) == [] && Marks([]) == {} && GoodRun([]);
    assert Tasks(run[..1]) == [a] && Marks(run[..1]) == {};
    assert GoodRun(run[..1]);
    forall tx | tx in Ids([b])
      ensures tx !in Ids([a])
    {
    }
  }

  /** The log of such a run, when what begins with the torn record stops the reader. */
  lemma {:induction false} LosingLog(crc: Crc, a: Task, b: Task, n: nat, recs: seq<Record>, torn: seq<Byte>)
    requires ValidTask(a) && ValidTask(b) && a.tx != b.tx && Tears(crc, Mutations([a]), Some(n))
    requires Mutations([a])[..Landing(crc, Mutations([a]), Some(n))] == recs
    requires Litter(crc, EMPTY_LOG, Mutations([a]), Some(n)) == torn
    requires !ReadFront(crc, torn + BehindTear(crc, a, b)).Found?
    ensures GoodRun(LosingRun(a, b, n))
    ensures var w := RunLog(crc, Sync, LosingRun(a, b, n));
            && b.tx in w.acked && NoCollision(crc, w)
            && Parse(crc, Bytes(crc, w)) == if ReadFront(crc, torn + BehindTear(crc, a, b)).Bad? then Corrupt
              else Records(recs)
  {
    LosingRunGood(a, b, n);
    TwoBatches(crc, a, b, n);
    MutationsWritable([a]);
    ReadsThenStops(crc, recs, torn + BehindTear(crc, a, b));
  }

  /**
   A transaction is answered without error and lost without a trace: the first append stopped after the
   header of the mutation of `a`, and all that was written since is taken for its payload.
   */
  lemma {:induction false} AckedLost(crc: Crc, a: Task, b: Task)
    requires ValidTask(a) && ValidTask(b) && a.tx != b.tx && |a.records| == 1
    requires |BehindTear(crc, a, b)| < |a.records[0].payload|
    ensures GoodRun(LosingRun(a, b, 2 * HEADER))
    ensures var w := RunLog(crc, Sync, LosingRun(a, b, 2 * HEADER));
            && b.tx in w.acked && NoCollision(crc, w)
            && Parse(crc, Bytes(crc, w)) == Records([Marker(a, BEGIN)]) && b.tx !in Active([Marker(a, BEGIN)])
  {
    TornAtHeader(crc, a);
    TakenForPayload(crc, a.records[0], BehindTear(crc, a, b));
    LosingLog(crc, a, b, 2 * HEADER, [Marker(a, BEGIN)], Encode(crc, a.records[0])[..HEADER]);
    NoneCommitted(Marker(a, BEGIN), b.tx);
  }

  lemma {:induction false} TakenForPayload(crc: Crc, r: Record, more: seq<Byte>)
    requires Writable(r) && |more| < |r.payload|
    ensures ReadFront(crc, Encode(crc, r)[..HEADER] + more).End?
  {
    LongTorn(crc, r, HEADER, more);
  }

  lemma {:induction false} NoneCommitted(r: Record, tx: Int64)
    requires r.op == BEGIN
    ensures tx !in Active([r])
  {
    assert Marked([r][1..], COMMIT) == [];
  }

  lemma {:induction false} TornAtHeader(crc: Crc, a: Task)
    requires |a.records| == 1 && a.records[0].payload != []
    ensures Tears(crc, Mutations([a]), Some(2 * HEADER))
    ensures Mutations([a])[..Landing(crc, Mutations([a]), Some(2 * HEADER))] == [Marker(a, BEGIN)]
    ensures Litter(crc, EMPTY_LOG, Mutations([a]), Some(2 * HEADER)) == Encode(crc, a.records[0])[..HEADER]
  {
    var begin, r, rs := Marker(a, BEGIN), a.records[0], Mutations([a]);
    OneTask(a);
    assert rs == [begin, r] && rs[1..] == [r] && [r][1..] == [];
    var e, e' := Encode(crc, begin), Encode(crc, r);
    assert EncodeAll(crc, [r]) == e' + [];
    assert EncodeAll(crc, rs) == e + e';
    assert (e + e')[..2 * HEADER] == e + e'[..HEADER];
    assert Whole(crc, [r], HEADER) == 0 && Whole(crc, rs, 2 * HEADER) == 1;
    assert rs[..1] == [begin] && [begin][1..] == [];
    assert EncodeAll(crc, [begin]) == e + [];
  }

  lemma {:induction false} OneTask(a: Task)
    ensures Mutations([a]) == TaskRecords(a)
  {
    assert [a][1..] == [];
    assert Mutations([a]) == TaskRecords(a) + [];
  }

  /** Or the log cannot be read at all, although transactions after the failure were answered without error. */
  lemma {:induction false} LogLost(crc: Crc, a: Task, b: Task, n: nat)
    requires ValidTask(a) && ValidTask(b) && a.tx != b.tx && 1 <= n <= 4
    ensures GoodRun(LosingRun(a, b, n))
    ensures var w := RunLog(crc, Sync, LosingRun(a, b, n));
            b.tx in w.acked && NoCollision(crc, w) && Parse(crc, Bytes(crc, w)) == Corrupt
  {
    TornAtStart(crc, a, n);
    MagicFirst(crc, Marker(a, ROLLBACK));
    MagicTorn(crc, Marker(a, BEGIN), n, BehindTear(crc, a, b));
    LosingLog(crc, a, b, n, [], Encode(crc, Marker(a, BEGIN))[..n]);
  }

  lemma {:induction false} MagicFirst(crc: Crc, r: Record)
    ensures Encode(crc, r)[0] == 0x52
  {
    MagicBytes();
  }

  lemma {:induction false} TornAtStart(crc: Crc, a: Task, n: nat)
    requires 1 <= n <= 4
    ensures Tears(crc, Mutations([a]), Some(n)) && Mutations([a])[..Landing(crc, Mutations([a]), Some(n))] == []
    ensures Litter(crc, EMPTY_LOG, Mutations([a]), Some(n)) == Encode(crc, Marker(a, BEGIN))[..n]
  {
    OneTask(a);
    var rs := Mutations([a]);
    assert EncodeAll(crc, rs)[..n] == Encode(crc, rs[0])[..n];
    assert Whole(crc, rs, n) == 0 && rs[..0] == [];
  }
}
