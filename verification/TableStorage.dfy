/**
 The record file of a table: records are appended, and a pointer is an offset with a size.
 */
module TableStorage {
  import opened Options
  import opened KeyOrder
  import opened PageFormat
  import opened BigEndian
  import opened Values

  const MAX_RECORD: nat := 0x400_0000

  /** Truncation to the 32-bit size field of a pointer. */
  function Size32(n: nat): (r: Int32)
    ensures n < TWO31 ==> r == n
  {
    var u := n % TWO32;
    if u < TWO31 then u else u - TWO32
  }

  /** The bytes under a pointer. */
  function RawRead(bytes: seq<Byte>, p: Pointer): Option<seq<Byte>> {
    if p.offset < 0 || p.size < 0 then None
    else if p.size == 0 then Some([])
    else if p.offset + p.size > |bytes| then None
    else Some(bytes[p.offset..p.offset + p.size])
  }

  /** What a pointer reads from the bytes of a file: nothing beyond 64 MiB. */
  function ReadAt(bytes: seq<Byte>, p: Pointer): Option<seq<Byte>> {
    if p.size > MAX_RECORD then None else RawRead(bytes, p)
  }

  /** The pointers that appending `records` at offset `at` yields. */
  function Placed(records: seq<seq<Byte>>, at: nat): (ps: seq<Pointer>)
    ensures |ps| == |records|
  {
    if records == [] then [] else [Pointer(at, Size32(|records[0]|))] + Placed(records[1..], at + |records[0]|)
  }

  function Joined(records: seq<seq<Byte>>): seq<Byte> {
    if records == [] then [] else records[0] + Joined(records[1..])
  }

  /** Appending bytes leaves every readable pointer as it was. */
  lemma {:induction false} AppendKeepsReads(bytes: seq<Byte>, more: seq<Byte>, p: Pointer)
    requires RawRead(bytes, p).Some?
    ensures RawRead(bytes + more, p) == RawRead(bytes, p) && ReadAt(bytes + more, p) == ReadAt(bytes, p)
  {
    if p.size > 0 {
      assert (bytes + more)[p.offset..p.offset + p.size] == bytes[p.offset..p.offset + p.size];
    }
  }

  /** Each appended record reads back through its pointer if and only if it is not over 64 MiB. */
  lemma {:induction false} PlacedReads(bytes: seq<Byte>, records: seq<seq<Byte>>, i: nat)
    requires i < |records| && |records[i]| < TWO32
    ensures ReadAt(bytes + Joined(records), Placed(records, |bytes|)[i]) == Some(records[i]) <==>
            |records[i]| <= 67108864
    decreases i
  {
    if i == 0 {
      assert (bytes + Joined(records))[|bytes|..|bytes| + |records[0]|] == records[0];
    } else {
      PlacedReads(bytes + records[0], records[1..], i - 1);
      assert bytes + Joined(records) == bytes + records[0] + Joined(records[1..]);
    }
  }

  class Storage {
    var bytes: seq<Byte>

    constructor ()
      ensures bytes == []
    {
      bytes := [];
    }

    method AppendRecord(record: seq<Byte>) returns (p: Pointer)
      modifies this
      ensures bytes == old(bytes) + record && p == Pointer(|old(bytes)|, Size32(|record|))
    {
      p := Pointer(|bytes|, Size32(|record|));
      bytes := bytes + record;
    }

    /** One buffer for all records, written at the end. */
    method AppendRecords(records: seq<seq<Byte>>) returns (pointers: seq<Pointer>)
      modifies this
      ensures bytes == old(bytes) + Joined(records) && pointers == Placed(records, |old(bytes)|)
    {
      var buffer: seq<Byte>, offset := [], |bytes|;
      pointers := [];
      for i := 0 to |records|
        invariant offset == |bytes| + |buffer| && bytes == old(bytes)
        invariant buffer + Joined(records[i..]) == Joined(records)
        invariant pointers + Placed(records[i..], offset) == Placed(records, |bytes|)
      {
        assert records[i..][1..] == records[i + 1..];
        buffer := buffer + records[i];
        pointers := pointers + [Pointer(offset, Size32(|records[i]|))];
        offset := offset + |records[i]|;
      }
      if |buffer| > 0 {
        bytes := bytes + buffer;
      }
    }

    method ReadRecord(p: Pointer) returns (r: Option<seq<Byte>>)
      ensures r == ReadAt(bytes, p)
    {
      if p.size < 0 || p.size > MAX_RECORD { return None; }
      if p.offset < 0 { return None; }
      if p.size == 0 { return Some([]); }
      if p.offset + p.size > |bytes| { return None; }
      r := Some(bytes[p.offset..p.offset + p.size]);
    }

    /**
     Copy the live records to a new file, in some order, also those over 64 MiB. Fails, leaving the old
     file, if one is not in it; else every key has the bytes it had and the file holds nothing else.
     */
    method Compact(active: map<Value, Pointer>) returns (ok: bool, moved: map<Value, Pointer>)
      requires forall k :: k in active ==> active[k].size >= 0
      modifies this
      ensures ok <==> forall k :: k in active ==> RawRead(old(bytes), active[k]).Some?
      ensures !ok ==> bytes == old(bytes)
      ensures ok ==> moved.Keys == active.Keys && forall k :: k in active ==>
              RawRead(bytes, moved[k]) == RawRead(old(bytes), active[k])
      ensures ok ==> forall k :: k in active ==> ReadAt(bytes, moved[k]) == ReadAt(old(bytes), active[k])
      ensures ok ==> |bytes| == TotalSize(active, active.Keys)
    {
      var todo := active.Keys;
      var out: seq<Byte> := [];
      moved := map[];
      ok := true;
      while todo != {}
        invariant bytes == old(bytes) && ok && todo <= active.Keys && moved.Keys == active.Keys - todo
        invariant forall k :: k in moved ==>
                  RawRead(bytes, active[k]).Some? && RawRead(out, moved[k]) == RawRead(bytes, active[k])
        invariant forall k :: k in moved ==> moved[k].size == active[k].size
        invariant |out| + TotalSize(active, todo) == TotalSize(active, active.Keys)
        decreases todo
      {
        var k :| k in todo;
        var p := active[k];
        var record := RawRead(bytes, p);
        if record.None? {
          return false, map[];
        }
        TotalSizeOne(active, todo, k);
        Copied(out, record.value, moved, bytes, p);
        moved := moved[k := Pointer(|out|, p.size)];
        out := out + record.value;
        todo := todo - {k};
      }
      bytes := out;
    }
  }

  /** Copying one record to the end of the new file. */
  lemma {:induction false} Copied(out: seq<Byte>, record: seq<Byte>, moved: map<Value, Pointer>, bytes: seq<Byte>,
                                  p: Pointer)
    requires RawRead(bytes, p) == Some(record)
    ensures RawRead(out + record, Pointer(|out|, p.size)) == Some(record) && |record| == p.size
    ensures forall k :: k in moved && RawRead(out, moved[k]).Some? ==>
            RawRead(out + record, moved[k]) == RawRead(out, moved[k])
  {
    assert (out + record)[|out|..|out| + |record|] == record;
    KeepsAll(out, record, moved);
  }

  ghost function TotalSize(m: map<Value, Pointer>, keys: set<Value>): int
    requires keys <= m.Keys
  {
    if keys == {} then 0
    else
      var k :| k in keys;
      m[k].size + TotalSize(m, keys - {k})
  }

  lemma {:induction false} TotalSizeOne(m: map<Value, Pointer>, keys: set<Value>, k: Value)
    requires keys <= m.Keys && k in keys
    ensures TotalSize(m, keys) == m[k].size + TotalSize(m, keys - {k})
    decreases keys
  {
    var j :| j in keys && TotalSize(m, keys) == m[j].size + TotalSize(m, keys - {j});
    if j != k {
      TotalSizeOne(m, keys - {j}, k);
      TotalSizeOne(m, keys - {k}, j);
      assert keys - {j} - {k} == keys - {k} - {j};
    }
  }

  lemma {:induction false} KeepsAll(out: seq<Byte>, more: seq<Byte>, moved: map<Value, Pointer>)
    ensures forall k :: k in moved && RawRead(out, moved[k]).Some? ==>
            RawRead(out + more, moved[k]) == RawRead(out, moved[k])
  {
    forall k | k in moved && RawRead(out, moved[k]).Some?
      ensures RawRead(out + more, moved[k]) == RawRead(out, moved[k])
    {
      AppendKeepsReads(out, more, moved[k]);
    }
  }
}
