/**
 The log manager as the program runs it: buffers of bytes, a log file that grows by appends, and
 an error flag that each step of a batch consults. Its methods are proved to do what `WalBatch`
 describes.
 */
module WalWriter {
  import opened Options
  import opened KeyOrder
  import opened BigEndian
  import opened WalFormat
  import opened WalBatch
  import opened WalSuccess

  lemma {:induction false} EncodeMore(crc: Crc, a: seq<Record>, r: Record)
    ensures EncodeAll(crc, a + [r]) == EncodeAll(crc, a) + Encode(crc, r)
  {
    EncodeConcat(crc, a, [r]);
    assert EncodeAll(crc, [r]) == Encode(crc, r) + [];
  }

  lemma {:induction false} MutationsMore(tasks: seq<Task>, i: nat)
    requires i < |tasks|
    ensures Mutations(tasks[..i + 1]) == Mutations(tasks[..i]) + TaskRecords(tasks[i])
  {
    if i == 0 {
      assert tasks[..1] == [tasks[0]] && tasks[..0] == [] && [tasks[0]][1..] == [];
    } else {
      MutationsMore(tasks[1..], i - 1);
      assert tasks[..i + 1][1..] == tasks[1..][..i] && tasks[..i][1..] == tasks[1..][..i - 1];
    }
  }

  class WalManager {
    const crc: Crc
    const mode: Mode
    /** The log file, and how much of it is known to be on disk. */
    var log: seq<Byte>
    var synced: nat
    ghost var wal: Wal

    ghost predicate Valid()
      reads this
    {
      log == Bytes(crc, wal) && synced == wal.synced
    }

    constructor (crc: Crc, mode: Mode)
      ensures Valid() && this.crc == crc && this.mode == mode && wal == EMPTY_LOG
    {
      this.crc, this.mode := crc, mode;
      log, synced, wal := [], 0, EMPTY_LOG;
    }

    /** Append a buffer and sync if asked to; report whether both went well. */
    method WriteAndSync(buffer: seq<Byte>, fault: Option<nat>, toSync: bool, syncs: bool, ghost rs: seq<Record>)
      returns (ok: bool)
      requires Valid() && buffer == EncodeAll(crc, rs)
      modifies this
      ensures Valid() && wal == AfterWrite(crc, toSync, old(wal), rs, fault, syncs)
      ensures ok == (fault.None? && (toSync ==> syncs))
    {
      AppendBytes(crc, wal, rs, fault);
      log := log + CutBytes(buffer, fault);
      wal := Append(crc, wal, rs, fault);
      ok := fault.None?;
      if ok && toSync {
        ok := syncs;
        if ok {
          synced := |log|;
          wal := wal.(synced := |log|);
        }
      }
    }

    /** Step 1: the begin record and the mutations of every task. */
    method MutationBuffer(tasks: seq<Task>) returns (buffer: seq<Byte>)
      ensures buffer == EncodeAll(crc, Mutations(tasks))
    {
      buffer := [];
      for i := 0 to |tasks|
        invariant buffer == EncodeAll(crc, Mutations(tasks[..i]))
      {
        MutationsMore(tasks, i);
        EncodeConcat(crc, Mutations(tasks[..i]), TaskRecords(tasks[i]));
        var more := TaskBuffer(tasks[i]);
        buffer := buffer + more;
      }
      assert tasks[..|tasks|] == tasks;
    }

    method TaskBuffer(t: Task) returns (buffer: seq<Byte>)
      ensures buffer == EncodeAll(crc, TaskRecords(t))
    {
      ghost var rs := TaskRecords(t);
      EncodeMore(crc, [], Marker(t, BEGIN));
      assert [] + [Marker(t, BEGIN)] == rs[..1];
      buffer := Encode(crc, Marker(t, BEGIN));
      for j := 0 to |t.records|
        invariant buffer == EncodeAll(crc, rs[..j + 1])
      {
        EncodeMore(crc, rs[..j + 1], t.records[j]);
        assert rs[..j + 2] == rs[..j + 1] + [t.records[j]];
        buffer := buffer + Encode(crc, t.records[j]);
      }
      assert rs[..|t.records| + 1] == rs;
    }

    /** Step 5: a commit marker for each task that went well, a rollback marker for each other. */
    method MarkerBuffer(tasks: seq<Task>, failed: bool, results: seq<bool>, ghost good: seq<bool>)
      returns (buffer: seq<Byte>)
      requires |results| == |good| == |tasks| && forall i :: 0 <= i < |tasks| ==> good[i] == (!failed && results[i])
      ensures buffer == EncodeAll(crc, Markers(tasks, good))
    {
      buffer := [];
      ghost var ms := Markers(tasks, good);
      for i := 0 to |tasks|
        invariant buffer == EncodeAll(crc, ms[..i])
      {
        EncodeMore(crc, ms[..i], ms[i]);
        assert ms[..i + 1] == ms[..i] + [ms[i]];
        if !failed && results[i] {
          buffer := buffer + Encode(crc, Marker(tasks[i], COMMIT));
        } else {
          buffer := buffer + Encode(crc, Marker(tasks[i], ROLLBACK));
        }
      }
      assert ms[..|tasks|] == ms;
    }

    /** Write a batch; `f` says which steps fail, with appends cut after so many bytes. */
    method ProcessTasks(tasks: seq<Task>, f: Faults) returns (answers: seq<bool>)
      requires Valid() && |f.appended| == |tasks|
      modifies this
      ensures Valid() && wal == AfterBatch(crc, mode, old(wal), tasks, f) && answers == Answers(mode, tasks, f)
      ensures forall i :: 0 <= i < |tasks| ==>
                (answers[i] <==> f.mutations == None && f.markers == None && SyncsWell(mode, f) && f.appended[i])
    {
      if |tasks| == 0 {
        return [];
      }
      var mutations := MutationBuffer(tasks);
      var ok := WriteAndSync(mutations, f.mutations, !mode.Async?, f.mutationSync, Mutations(tasks));
      var results := if ok then f.appended else seq(|tasks|, _ => false);
      if ok && !mode.Async? {
        ok := f.tableSync;
      }
      answers := WriteMarkers(tasks, f, ok, results);
    }

    /** Steps 5 to 7: the markers, and the answers. */
    method WriteMarkers(tasks: seq<Task>, f: Faults, prepared: bool, results: seq<bool>) returns (answers: seq<bool>)
      requires Valid() && |f.appended| == |tasks| == |results|
      requires prepared == Prepared(mode, f) && (prepared ==> results == f.appended)
      modifies this
      ensures Valid() && answers == Answers(mode, tasks, f)
      ensures var w := AfterWrite(crc, !mode.Async?, old(wal), Markers(tasks, Good(mode, tasks, f)), f.markers,
                                  f.markerSync);
              wal == w.(acked := w.acked + AnsweredWell(tasks, answers))
    {
      ghost var good := Good(mode, tasks, f);
      var markers := MarkerBuffer(tasks, !prepared, results, good);
      var marked := WriteAndSync(markers, f.markers, !mode.Async?, f.markerSync, Markers(tasks, good));
      answers := if prepared && marked then results else seq(|tasks|, _ => false);
      wal := wal.(acked := wal.acked + AnsweredWell(tasks, answers));
    }

    /** Write one rollback marker; only the Sync mode syncs it. */
    method AppendRollbackMarker(r: Record, fault: Option<nat>, syncs: bool) returns (ok: bool)
      requires Valid() && r.op == ROLLBACK
      modifies this
      ensures Valid() && wal == AfterMark(crc, mode, old(wal), r, fault, syncs)
      ensures ok == (fault.None? && (mode.Sync? ==> syncs))
    {
      EncodeMore(crc, [], r);
      assert [] + [r] == [r];
      ok := WriteAndSync(Encode(crc, r), fault, mode.Sync?, syncs, [r]);
    }
  }
}
