/**
 The write-ahead log as bytes: how records are written, and what reading finds in a log that was cut anywhere.

 The checksum is a parameter: `crc` is any total function from byte strings to 32-bit words.
 */
module WalFormat {
  import opened KeyOrder
  import opened BigEndian

  /** Operation codes run from 0 (begin) to 11 (rollback). */
  const BEGIN: Byte := 0
  const COMMIT: Byte := 10
  const ROLLBACK: Byte := 11

  datatype Record = Record(op: Byte, tx: Int64, gen: Int64, payload: seq<Byte>)

  const MAGIC: nat := 0x524d574c
  const HEADER: nat := 29
  const MAX_PAYLOAD: nat := 0x400_0000

  /** Records the reader accepts: a known operation and a payload of at most 64 MiB. */
  predicate Writable(r: Record) {
    r.op <= 11 && |r.payload| <= MAX_PAYLOAD
  }

  function Checksum(crc: Crc, op: Byte, tx: Int64, gen: Int64, payload: seq<Byte>): Word {
    crc([op] + Put64(tx) + Put64(gen) + payload)
  }

  function Encode(crc: Crc, r: Record): (s: seq<Byte>)
    ensures |s| == HEADER + |r.payload|
  {
    Put(4, MAGIC) + [r.op] + Put64(r.tx) + Put64(r.gen) + Put(4, |r.payload|) +
    Put(4, Checksum(crc, r.op, r.tx, r.gen, r.payload)) + r.payload
  }

  function EncodeAll(crc: Crc, rs: seq<Record>): seq<Byte> {
    if rs == [] then [] else Encode(crc, rs[0]) + EncodeAll(crc, rs[1..])
  }

  // ---------------------------------------------------------------- reading

  datatype Read = Records(records: seq<Record>) | Corrupt

  function Prepend(rs: seq<Record>, rest: Read): Read {
    match rest
    case Records(more) => Records(rs + more)
    case Corrupt => Corrupt
  }

  /** One attempt to read a record off the front of `s`: a record, the end of the log, or an error. */
  datatype Front = Found(record: Record) | End | Bad

  function ReadFront(crc: Crc, s: seq<Byte>): (r: Front)
    ensures r.Found? ==> |s| >= HEADER + |r.record.payload|
  {
    if |s| == 0 then End
    else if |s| < 4 then Bad
    else if Get(s[..4]) != MAGIC then (if |s| <= 8 then End else Bad)
    else if |s| < 5 then End
    else if s[4] > 11 then Bad
    else if |s| < HEADER then End
    else
      var length := Get32(s[21..25]);
      if length < 0 || length > MAX_PAYLOAD then Bad
      else if length > |s| - HEADER then End
      else
        var tx, gen, payload := Get64(s[5..13]), Get64(s[13..21]), s[HEADER..HEADER + length];
        if Checksum(crc, s[4], tx, gen, payload) != Get(s[25..29]) then Bad
        else Found(Record(s[4], tx, gen, payload))
  }

  /** The records of a log, up to the first that is incomplete. */
  function Parse(crc: Crc, s: seq<Byte>): Read
    decreases |s|
  {
    match ReadFront(crc, s)
    case End => Records([])
    case Bad => Corrupt
    case Found(r) => Prepend([r], Parse(crc, s[HEADER + |r.payload|..]))
  }

  method ReadAllRecords(crc: Crc, file: seq<Byte>) returns (r: Read)
    ensures r == Parse(crc, file)
  {
    var records: seq<Record>, rest := [], file;
    while true
      invariant Parse(crc, file) == Prepend(records, Parse(crc, rest))
      decreases |rest|
    {
      var front := ReadFront(crc, rest);
      match front
      case End => return Records(records);
      case Bad => return Corrupt;
      case Found(rec) =>
        PrependTwice(records, [rec], Parse(crc, rest[HEADER + |rec.payload|..]));
        records, rest := records + [rec], rest[HEADER + |rec.payload|..];
    }
  }

  lemma {:induction false} PrependTwice(a: seq<Record>, b: seq<Record>, rest: Read)
    ensures Prepend(a, Prepend(b, rest)) == Prepend(a + b, rest)
  {
    if rest.Records? {
      assert a + (b + rest.records) == a + b + rest.records;
    }
  }

  // ---------------------------------------------------------------- what the reader accepts

  lemma {:induction false} PutGet64(s: seq<Byte>)
    requires |s| == 8
    ensures Put64(Get64(s)) == s
  {
    GetPut64(Get64(s));
    GetInjective(Put64(Get64(s)), s);
  }

  lemma {:induction false} MagicIs(s: seq<Byte>)
    requires |s| == 4
    ensures Get(s) == MAGIC <==> s == [0x52, 0x4d, 0x57, 0x4c]
  {
    MagicBytes();
    Limits();
    GetPut(4, MAGIC);
    ModUnique(MAGIC, Limit(4), 0, MAGIC);
    if Get(s) == MAGIC {
      GetInjective(s, Put(4, MAGIC));
    }
  }

  /**
   In bytes: a record is found if its magic number and its operation are known, its payload is there and not
   over 64 MiB, and its checksum is that of operation, transaction, generation and payload.
   */
  lemma {:induction false} FoundIff(crc: Crc, s: seq<Byte>)
    ensures ReadFront(crc, s).Found? <==>
            && |s| >= 29 && s[..4] == [0x52, 0x4d, 0x57, 0x4c] && s[4] <= 11
            && var n := Get32(s[21..25]);
               0 <= n <= 67108864 && 29 + n <= |s| && Get(s[25..29]) == crc(s[4..21] + s[29..29 + n])
  {
    if |s| >= 29 {
      MagicIs(s[..4]);
      PutGet64(s[5..13]);
      PutGet64(s[13..21]);
      var n := Get32(s[21..25]);
      if 0 <= n <= |s| - 29 {
        assert s[4..21] + s[29..29 + n] == [s[4]] + s[5..13] + s[13..21] + s[29..29 + n];
      }
    }
  }

  // ---------------------------------------------------------------- a log cut anywhere

  /** How many of the records lie wholly within the first `n` bytes. */
  function Whole(crc: Crc, rs: seq<Record>, n: nat): (k: nat)
    ensures k <= |rs|
  {
    if rs == [] || n < |Encode(crc, rs[0])| then 0
    else 1 + Whole(crc, rs[1..], n - |Encode(crc, rs[0])|)
  }

  /** The bytes of the whole records. */
  function WholeBytes(crc: Crc, rs: seq<Record>, n: nat): nat {
    |EncodeAll(crc, rs[..Whole(crc, rs, n)])|
  }

  lemma {:induction false} FieldsOf(magic: seq<Byte>, op: Byte, tx: seq<Byte>, gen: seq<Byte>, size: seq<Byte>,
                                    sum: seq<Byte>, payload: seq<Byte>, s: seq<Byte>, n: nat)
    requires |magic| == 4 && |tx| == 8 && |gen| == 8 && |size| == 4 && |sum| == 4
    requires n <= HEADER + |payload| + |s|
    ensures var e := (magic + [op] + tx + gen + size + sum + payload + s)[..n];
            && (n >= 4 ==> e[..4] == magic)
            && (n >= 5 ==> e[4] == op)
            && (n >= HEADER ==> e[5..13] == tx && e[13..21] == gen && e[21..25] == size && e[25..29] == sum)
            && (n >= HEADER + |payload| ==> e[HEADER..HEADER + |payload|] == payload)
  {
  }

  /** Every part of an encoded record is where the reader looks for it, whatever follows. */
  lemma {:induction false} EncodedFields(crc: Crc, r: Record, s: seq<Byte>, n: nat)
    requires n <= |Encode(crc, r) + s|
    ensures var e := (Encode(crc, r) + s)[..n];
            && (n >= 4 ==> e[..4] == Put(4, MAGIC))
            && (n >= 5 ==> e[4] == r.op)
            && (n >= HEADER ==> e[5..13] == Put64(r.tx) && e[13..21] == Put64(r.gen))
            && (n >= HEADER ==> e[21..25] == Put(4, |r.payload|))
            && (n >= HEADER ==> e[25..29] == Put(4, Checksum(crc, r.op, r.tx, r.gen, r.payload)))
            && (n >= HEADER + |r.payload| ==> e[HEADER..HEADER + |r.payload|] == r.payload)
  {
    FieldsOf(Put(4, MAGIC), r.op, Put64(r.tx), Put64(r.gen), Put(4, |r.payload|),
             Put(4, Checksum(crc, r.op, r.tx, r.gen, r.payload)), r.payload, s, n);
  }

  lemma {:induction false} FieldValues(crc: Crc, r: Record)
    requires Writable(r)
    ensures Get(Put(4, MAGIC)) == MAGIC && Get64(Put64(r.tx)) == r.tx && Get64(Put64(r.gen)) == r.gen
    ensures Get32(Put(4, |r.payload|)) == |r.payload|
    ensures Get(Put(4, Checksum(crc, r.op, r.tx, r.gen, r.payload))) == Checksum(crc, r.op, r.tx, r.gen, r.payload)
  {
    Limits();
    GetPut64(r.tx);
    GetPut64(r.gen);
    GetPut32(|r.payload|);
    var c: nat := Checksum(crc, r.op, r.tx, r.gen, r.payload);
    GetPut(4, c);
    GetPut(4, MAGIC);
    ModUnique(c, Limit(4), 0, c);
    ModUnique(MAGIC, Limit(4), 0, MAGIC);
  }

  /** A whole record is read back, whatever follows it. */
  lemma {:induction false} ReadsWhole(crc: Crc, r: Record, s: seq<Byte>)
    requires Writable(r)
    ensures ReadFront(crc, Encode(crc, r) + s) == Found(r)
    ensures Parse(crc, Encode(crc, r) + s) == Prepend([r], Parse(crc, s))
  {
    var e := Encode(crc, r) + s;
    EncodedFields(crc, r, s, |e|);
    assert e[..|e|] == e;
    FieldValues(crc, r);
    assert e[HEADER + |r.payload|..] == s;
  }

  /** A record cut short ends the log, unless one to three bytes of its magic number remain. */
  lemma {:induction false} ReadsTorn(crc: Crc, r: Record, n: nat)
    requires Writable(r) && n < |Encode(crc, r)|
    ensures Parse(crc, Encode(crc, r)[..n]) == if 1 <= n <= 3 then Corrupt else Records([])
  {
    var e := Encode(crc, r)[..n];
    assert Encode(crc, r) + [] == Encode(crc, r);
    EncodedFields(crc, r, [], n);
    FieldValues(crc, r);
  }

  /** A cut beyond the first record is a cut of what follows it. */
  lemma {:induction false} TornFirst(crc: Crc, rs: seq<Record>, n: nat)
    requires rs != [] && Writable(rs[0]) && n < |Encode(crc, rs[0])|
    ensures WholeBytes(crc, rs, n) == 0 && Whole(crc, rs, n) == 0
    ensures n <= |EncodeAll(crc, rs)|
    ensures Parse(crc, EncodeAll(crc, rs)[..n]) == if 1 <= n <= 3 then Corrupt else Records([])
  {
    assert EncodeAll(crc, rs)[..n] == Encode(crc, rs[0])[..n];
    ReadsTorn(crc, rs[0], n);
  }

  lemma {:induction false} TornRest(crc: Crc, rs: seq<Record>, n: nat)
    requires rs != [] && Writable(rs[0]) && |Encode(crc, rs[0])| <= n <= |EncodeAll(crc, rs)|
    ensures var n' := n - |Encode(crc, rs[0])|;
            && n' <= |EncodeAll(crc, rs[1..])|
            && Parse(crc, EncodeAll(crc, rs)[..n]) == Prepend([rs[0]], Parse(crc, EncodeAll(crc, rs[1..])[..n']))
  {
    var first, rest := Encode(crc, rs[0]), EncodeAll(crc, rs[1..]);
    var n' := n - |first|;
    assert EncodeAll(crc, rs)[..n] == first + rest[..n'];
    ReadsWhole(crc, rs[0], rest[..n']);
  }

  lemma {:induction false} WholeRest(crc: Crc, rs: seq<Record>, n: nat)
    requires rs != [] && |Encode(crc, rs[0])| <= n
    ensures var n' := n - |Encode(crc, rs[0])|;
            && rs[..Whole(crc, rs, n)] == [rs[0]] + rs[1..][..Whole(crc, rs[1..], n')]
            && WholeBytes(crc, rs, n) == |Encode(crc, rs[0])| + WholeBytes(crc, rs[1..], n')
  {
    var k := Whole(crc, rs[1..], n - |Encode(crc, rs[0])|);
    assert rs[..k + 1][1..] == rs[1..][..k];
  }

  /**
   Reading a log that was cut after `n` bytes: exactly the records wholly before the cut, or an
   error when one to three bytes of the next magic number remain. No partial or altered record.
   */
  lemma {:induction false} TornLog(crc: Crc, rs: seq<Record>, n: nat)
    requires (forall i :: 0 <= i < |rs| ==> Writable(rs[i])) && n <= |EncodeAll(crc, rs)|
    ensures WholeBytes(crc, rs, n) <= n
    ensures Parse(crc, EncodeAll(crc, rs)[..n]) ==
            if 1 <= n - WholeBytes(crc, rs, n) <= 3 then Corrupt else Records(rs[..Whole(crc, rs, n)])
    decreases |rs|
  {
    if rs == [] {
      assert EncodeAll(crc, rs)[..n] == [];
    } else {
      var first := |Encode(crc, rs[0])|;
      if n < first {
        TornFirst(crc, rs, n);
      } else {
        TornLog(crc, rs[1..], n - first);
        TornRest(crc, rs, n);
        WholeRest(crc, rs, n);
      }
    }
  }

  /** A prefix that contains the first `m` records whole has at least `m` whole records. */
  lemma {:induction false} WholeAtLeast(crc: Crc, rs: seq<Record>, m: nat, n: nat)
    requires m <= |rs| && |EncodeAll(crc, rs[..m])| <= n
    ensures Whole(crc, rs, n) >= m
    decreases m
  {
    if m > 0 {
      assert rs[..m][1..] == rs[1..][..m - 1];
      WholeAtLeast(crc, rs[1..], m - 1, n - |Encode(crc, rs[0])|);
    }
  }

  // ---------------------------------------------------------------- a log with a torn append in it

  /** Bytes that pass as a record pass as the same record whatever follows them. */
  lemma {:induction false} FrontOfPrefix(crc: Crc, s: seq<Byte>, m: nat)
    requires m <= |s| && ReadFront(crc, s[..m]).Found?
    ensures ReadFront(crc, s) == ReadFront(crc, s[..m])
  {
    var t := s[..m];
    assert t[..4] == s[..4] && t[5..13] == s[5..13] && t[13..21] == s[13..21];
    assert t[21..25] == s[21..25] && t[25..29] == s[25..29];
    var length := Get32(s[21..25]);
    assert t[HEADER..HEADER + length] == s[HEADER..HEADER + length];
  }

  /** Reading whole records and then something that does not pass as a record. */
  lemma {:induction false} ReadsThenStops(crc: Crc, rs: seq<Record>, tail: seq<Byte>)
    requires (forall i :: 0 <= i < |rs| ==> Writable(rs[i])) && !ReadFront(crc, tail).Found?
    ensures Parse(crc, EncodeAll(crc, rs) + tail) == if ReadFront(crc, tail).Bad? then Corrupt else Records(rs)
    decreases |rs|
  {
    if rs == [] {
      assert EncodeAll(crc, rs) + tail == tail;
    } else {
      var rest := EncodeAll(crc, rs[1..]) + tail;
      ReadsThenStops(crc, rs[1..], tail);
      assert EncodeAll(crc, rs) + tail == Encode(crc, rs[0]) + rest;
      ReadsWhole(crc, rs[0], rest);
      assert [rs[0]] + rs[1..] == rs;
    }
  }

  /** The whole records of a longer list, and of a longer prefix. */
  lemma {:induction false} WholeGrows(crc: Crc, a: seq<Record>, b: seq<Record>, m: nat, n: nat)
    requires m <= n
    ensures Whole(crc, a, m) <= Whole(crc, a + b, n)
    decreases |a|
  {
    if a != [] && m >= |Encode(crc, a[0])| {
      assert (a + b)[1..] == a[1..] + b;
      WholeGrows(crc, a[1..], b, m - |Encode(crc, a[0])|, n - |Encode(crc, a[0])|);
    }
  }

  lemma {:induction false} WholeAll(crc: Crc, rs: seq<Record>, n: nat)
    requires |EncodeAll(crc, rs)| <= n
    ensures Whole(crc, rs, n) == |rs|
  {
    assert rs[..|rs|] == rs;
    WholeAtLeast(crc, rs, |rs|, n);
  }

  lemma {:induction false} EncodeConcat(crc: Crc, a: seq<Record>, b: seq<Record>)
    ensures EncodeAll(crc, a + b) == EncodeAll(crc, a) + EncodeAll(crc, b)
  {
    if a == [] {
      assert a + b == b;
    } else {
      assert (a + b)[1..] == a[1..] + b;
      EncodeConcat(crc, a[1..], b);
    }
  }

  /** The whole records are a prefix of the bytes. */
  lemma {:induction false} WholeFits(crc: Crc, rs: seq<Record>, n: nat)
    ensures WholeBytes(crc, rs, n) <= n && EncodeAll(crc, rs[..Whole(crc, rs, n)]) <= EncodeAll(crc, rs)
  {
    var k := Whole(crc, rs, n);
    assert rs == rs[..k] + rs[k..];
    EncodeConcat(crc, rs[..k], rs[k..]);
    WholeWithin(crc, rs, n);
  }

  lemma {:induction false} WholeWithin(crc: Crc, rs: seq<Record>, n: nat)
    ensures WholeBytes(crc, rs, n) <= n
    decreases |rs|
  {
    if rs != [] && |Encode(crc, rs[0])| <= n {
      WholeWithin(crc, rs[1..], n - |Encode(crc, rs[0])|);
      WholeRest(crc, rs, n);
    }
  }

  /** A record whose first bytes are followed by something other than its own rest. */
  function Torn(crc: Crc, r: Record, n: nat, more: seq<Byte>): seq<Byte>
    requires n <= |Encode(crc, r)|
  {
    Encode(crc, r)[..n] + more
  }

  /** The record that the reader would make of it. */
  function Mixed(crc: Crc, r: Record, n: nat, more: seq<Byte>): Record
    requires HEADER <= n <= |Encode(crc, r)| <= n + |more|
  {
    r.(payload := Torn(crc, r, n, more)[HEADER..HEADER + |r.payload|])
  }

  lemma {:induction false} TornFields(crc: Crc, r: Record, n: nat, more: seq<Byte>)
    requires HEADER <= n <= |Encode(crc, r)|
    ensures var s, e := Torn(crc, r, n, more), Encode(crc, r);
            && |s| >= HEADER && s[..4] == e[..4] && s[4] == e[4] && s[5..13] == e[5..13] && s[13..21] == e[13..21]
            && s[21..25] == e[21..25] && s[25..29] == e[25..29]
  {
  }

  /**
   A record torn after its header. What follows it is read as its payload: as long as that is too short,
   the log ends there without an error; then the checksum decides, and it passes only on a collision.
   */
  lemma {:induction false} LongTorn(crc: Crc, r: Record, n: nat, more: seq<Byte>)
    requires Writable(r) && HEADER <= n < |Encode(crc, r)|
    ensures ReadFront(crc, Torn(crc, r, n, more)) ==
            if n + |more| < |Encode(crc, r)| then End
            else
              var m := Mixed(crc, r, n, more);
              if Checksum(crc, m.op, m.tx, m.gen, m.payload) != Checksum(crc, r.op, r.tx, r.gen, r.payload) then Bad
              else Found(m)
  {
    var e := Encode(crc, r);
    assert e + [] == e && e[..|e|] == e;
    EncodedFields(crc, r, [], |e|);
    FieldValues(crc, r);
    TornFields(crc, r, n, more);
  }

  lemma {:induction false} MagicBytes()
    ensures Put(4, MAGIC) == [0x52, 0x4d, 0x57, 0x4c]
  {
    assert Put(1, 0x52) == Put(0, 0) + [0x52];
    assert Put(2, 0x524d) == Put(1, 0x52) + [0x4d];
    assert Put(3, 0x524d57) == Put(2, 0x524d) + [0x57];
  }

  /** A record torn within its magic number, or right after it, makes the log unreadable as soon as a record follows. */
  lemma {:induction false} MagicTorn(crc: Crc, r: Record, n: nat, more: seq<Byte>)
    requires Writable(r) && 1 <= n <= 4 && more != [] && more[0] == 0x52
    ensures !ReadFront(crc, Torn(crc, r, n, more)).Found?
    ensures n + |more| > 8 ==> ReadFront(crc, Torn(crc, r, n, more)).Bad?
  {
    var s := Torn(crc, r, n, more);
    MagicBytes();
    Limits();
    GetPut(4, MAGIC);
    ModUnique(MAGIC, Limit(4), 0, MAGIC);
    assert forall i :: 0 <= i < n ==> s[i] == Put(4, MAGIC)[i];
    assert s[n] == 0x52;
    if n < 4 && |s| >= 4 {
      assert s[..4][n] == 0x52;
      if Get(s[..4]) == MAGIC {
        GetInjective(s[..4], Put(4, MAGIC));
      }
    }
  }

  /** Which records survive being written and read: a payload over 64 MiB makes the log unreadable. */
  lemma {:induction false} ReadsBackIff(crc: Crc, r: Record, s: seq<Byte>)
    requires |r.payload| < TWO32
    ensures ReadFront(crc, Encode(crc, r) + s) == Found(r) <==> r.op <= 11 && |r.payload| <= 67108864
    ensures r.op > 11 || |r.payload| > 67108864 ==> Parse(crc, Encode(crc, r) + s) == Corrupt
  {
    if Writable(r) {
      ReadsWhole(crc, r, s);
    } else {
      var e := Encode(crc, r) + s;
      EncodedFields(crc, r, s, |e|);
      assert e[..|e|] == e;
      Limits();
      GetPut(4, MAGIC);
      ModUnique(MAGIC, Limit(4), 0, MAGIC);
      GetPut(4, |r.payload|);
      ModUnique(|r.payload|, Limit(4), 0, |r.payload|);
    }
  }
}
