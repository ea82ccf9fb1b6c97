/**
 Replay of logged changes on a table file and its indexes.

 Recovery starts from an index file that may already hold some outcome of the log it replays, while
 the table file is emptied first, so that the pointers in the index dangle. The main theorem:
 whatever those pointers read, the primary and the non-unique indexes end up agreeing with the
 fold of the changes, provided every entry they started with was right at some point of the log.
 That covers the first recovery, from empty indexes; a recovery from indexes that hold any prefix
 of the log; and a recovery that was interrupted anywhere, any number of times.
 */
module Replay {
  import opened Options
  import opened KeyOrder
  import opened PageFormat
  import opened BigEndian
  import opened Values
  import opened Records
  import opened TableStorage
  import opened ShadowIndex
  import opened UniqueCheck
  import opened CommitApply
  import opened CommitTable

  datatype Kind = Inserted | Upserted | Updated

  datatype Change = Put(kind: Kind, rec: Rec) | Remove(id: Value) | Wipe

  /** A table file with its indexes; `reset` says whether this recovery has emptied the table file yet. */
  datatype TableFile = TableFile(bytes: seq<Byte>, x: Indexes, reset: bool)

  function ReplayOne(codec: Codec, schema: Schema, f: TableFile, ch: Change): TableFile {
    match ch
    case Put(kind, r) =>
      var bytes := if f.reset then f.bytes else [];
      var raw := codec.marshal(r);
      var p := Pointer(|bytes|, Size32(|raw|));
      var old_ := ReadCommitted(f.x, FileReader(codec, bytes), r.id);
      var x := if kind.Inserted? || r.id !in f.x.primary then f.x else Leave(f.x, schema, r.id, old_);
      TableFile(bytes + raw, Enter(x, schema, r, p), true)
    case Remove(id) =>
      if id !in f.x.primary then f
      else f.(x := Leave(f.x, schema, id, ReadCommitted(f.x, FileReader(codec, f.bytes), id)))
    case Wipe => f.(x := EMPTY)
  }

  function ReplayAll(codec: Codec, schema: Schema, f: TableFile, cs: seq<Change>): TableFile
    decreases |cs|
  {
    if cs == [] then f else ReplayOne(codec, schema, ReplayAll(codec, schema, f, cs[..|cs| - 1]), cs[|cs| - 1])
  }

  // ---------------------------------------------------------------- what the changes mean

  function FoldOne(t: Table, ch: Change): Table {
    match ch
    case Put(_, r) => t[r.id := r]
    case Remove(id) => t - {id}
    case Wipe => map[]
  }

  function Fold(cs: seq<Change>): Table
    decreases |cs|
  {
    if cs == [] then map[] else FoldOne(Fold(cs[..|cs| - 1]), cs[|cs| - 1])
  }

  /** Changes as transactions log them: an insertion is of a new id, and records can be read back. */
  ghost predicate Logged(codec: Codec, cs: seq<Change>) {
    forall i :: 0 <= i < |cs| && cs[i].Put? ==>
      && cs[i].rec.id != Nil && |codec.marshal(cs[i].rec)| <= MAX_RECORD
      && (cs[i].kind.Inserted? ==> cs[i].rec.id !in Fold(cs[..i]))
  }

  // ---------------------------------------------------------------- what replay keeps

  /** The non-unique entry `e` belongs to a record of `t`. */
  ghost predicate EntryOf(schema: Schema, t: Table, e: Pair) {
    e.2 in t && e in PairsOf(schema, t[e.2], e.2)
  }

  /**
   `t` is the fold so far, `touched` the ids that occurred, `junk` the indexes at the start (empty
   after a wipe). Ids of `t` are right; other ids that occurred have no primary entry; the
   non-unique entries are those of `t` and perhaps some that were there at the start.
   */
  ghost predicate Replayed(codec: Codec, schema: Schema, f: TableFile, t: Table, touched: set<Value>, junk: Indexes) {
    ReplayedIds(codec, f, t, touched, junk) && ReplayedEntries(schema, f.x, t, junk)
  }

  ghost predicate ReplayedIds(codec: Codec, f: TableFile, t: Table, touched: set<Value>, junk: Indexes) {
    && t.Keys <= touched && (t != map[] ==> f.reset)
    && (forall k :: k in t ==> k in f.x.primary && FileReader(codec, f.bytes)(f.x.primary[k]) == Some(t[k]))
    && (forall k :: k in f.x.primary ==> k in t || (k !in touched && k in junk.primary))
  }

  ghost predicate ReplayedEntries(schema: Schema, x: Indexes, t: Table, junk: Indexes) {
    && (forall e :: EntryOf(schema, t, e) ==> e in x.pairs && e.2 in x.primary && x.pairs[e] == x.primary[e.2])
    && (forall e :: e in x.pairs ==> EntryOf(schema, t, e) || e in junk.pairs)
  }

  /** Removing an id, by a delete or at the start of an update. */
  lemma {:induction false} RemoveKeeps(codec: Codec, schema: Schema, f: TableFile, t: Table, touched: set<Value>,
                                       junk: Indexes, id: Value, old_: Option<Rec>)
    requires Replayed(codec, schema, f, t, touched, junk) && (id in t ==> old_ == Some(t[id]))
    ensures Replayed(codec, schema, f.(x := Leave(f.x, schema, id, old_)), t - {id}, touched + {id}, junk)
  {
    RemoveEntries(schema, f.x, t, junk, id, old_);
  }

  lemma {:induction false} RemoveEntries(schema: Schema, x: Indexes, t: Table, junk: Indexes, id: Value,
                                         old_: Option<Rec>)
    requires ReplayedEntries(schema, x, t, junk) && (id in t ==> old_ == Some(t[id]))
    ensures ReplayedEntries(schema, Leave(x, schema, id, old_), t - {id}, junk)
  {
    var x', t' := Leave(x, schema, id, old_), t - {id};
    forall e | EntryOf(schema, t', e)
      ensures e in x'.pairs && e.2 in x'.primary && x'.pairs[e] == x'.primary[e.2]
    {
      assert EntryOf(schema, t, e) && e.2 != id;
    }
    forall e | e in x'.pairs
      ensures EntryOf(schema, t', e) || e in junk.pairs
    {
      assert e in x.pairs;
      if EntryOf(schema, t, e) && e.2 != id {
        assert EntryOf(schema, t', e);
      }
    }
  }

  /** An id without primary entry counts as removed. */
  lemma {:induction false} AbsentKeeps(codec: Codec, schema: Schema, f: TableFile, t: Table, touched: set<Value>,
                                       junk: Indexes, id: Value)
    requires Replayed(codec, schema, f, t, touched, junk) && id !in f.x.primary
    ensures Replayed(codec, schema, f, t - {id}, touched + {id}, junk)
  {
  }

  /** Emptying the table file before the first record is put. */
  lemma {:induction false} ResetKeeps(codec: Codec, schema: Schema, f: TableFile, t: Table, touched: set<Value>,
                                      junk: Indexes)
    requires Replayed(codec, schema, f, t, touched, junk)
    ensures Replayed(codec, schema, f.(bytes := if f.reset then f.bytes else [], reset := true), t, touched, junk)
  {
  }

  /** Entering a record under an id that the table does not have. */
  lemma {:induction false} EnterKeeps(codec: Codec, schema: Schema, f: TableFile, t: Table, touched: set<Value>,
                                      junk: Indexes, r: Rec, p: Pointer)
    requires Replayed(codec, schema, f, t, touched, junk) && f.reset && r.id !in t
    requires FileReader(codec, f.bytes)(p) == Some(r)
    ensures Replayed(codec, schema, f.(x := Enter(f.x, schema, r, p)), t[r.id := r], touched + {r.id}, junk)
  {
    EnterEntries(schema, f.x, t, junk, r, p);
  }

  lemma {:induction false} EnterEntries(schema: Schema, x: Indexes, t: Table, junk: Indexes, r: Rec, p: Pointer)
    requires ReplayedEntries(schema, x, t, junk) && r.id !in t
    ensures ReplayedEntries(schema, Enter(x, schema, r, p), t[r.id := r], junk)
  {
    var x', t' := Enter(x, schema, r, p), t[r.id := r];
    forall e | EntryOf(schema, t', e)
      ensures e in x'.pairs && e.2 in x'.primary && x'.pairs[e] == x'.primary[e.2]
    {
      if e.2 != r.id {
        assert EntryOf(schema, t, e);
      }
    }
    forall e | e in x'.pairs
      ensures EntryOf(schema, t', e) || e in junk.pairs
    {
      EnteredFrom(schema, x, t, junk, r, p, e);
    }
  }

  lemma {:induction false} EnteredFrom(schema: Schema, x: Indexes, t: Table, junk: Indexes, r: Rec, p: Pointer, e: Pair)
    requires ReplayedEntries(schema, x, t, junk) && r.id !in t && e in Enter(x, schema, r, p).pairs
    ensures EntryOf(schema, t[r.id := r], e) || e in junk.pairs
  {
    if e !in PairsOf(schema, r, r.id) {
      assert EntryOf(schema, t, e) || e in junk.pairs;
    }
  }

  lemma {:induction false} AppendKeeps(codec: Codec, schema: Schema, f: TableFile, t: Table, touched: set<Value>,
                                       junk: Indexes, more: seq<Byte>)
    requires Replayed(codec, schema, f, t, touched, junk)
    ensures Replayed(codec, schema, f.(bytes := f.bytes + more), t, touched, junk)
  {
    forall k | k in t
      ensures FileReader(codec, f.bytes + more)(f.x.primary[k]) == Some(t[k])
    {
      assert FileReader(codec, f.bytes)(f.x.primary[k]) == Some(t[k]);
      assert ReadAt(f.bytes, f.x.primary[k]).Some?;
      AppendKeepsReads(f.bytes, more, f.x.primary[k]);
    }
  }

  lemma {:induction false} AppendedReadsOne(codec: Codec, bytes: seq<Byte>, r: Rec)
    requires RoundTrips(codec) && |codec.marshal(r)| <= MAX_RECORD
    ensures var raw := codec.marshal(r);
            FileReader(codec, bytes + raw)(Pointer(|bytes|, Size32(|raw|))) == Some(r)
  {
    var raw := codec.marshal(r);
    assert (bytes + raw)[|bytes|..|bytes| + |raw|] == raw;
    assert |raw| == 0 ==> raw == [];
    assert ReadAt(bytes + raw, Pointer(|bytes|, Size32(|raw|))) == Some(raw);
    assert codec.unmarshal(raw) == Some(r);
  }

  lemma {:induction false} PutKeeps(codec: Codec, schema: Schema, f: TableFile, t: Table, touched: set<Value>,
                                    junk: Indexes, kind: Kind, r: Rec)
    requires RoundTrips(codec) && |codec.marshal(r)| <= MAX_RECORD && Replayed(codec, schema, f, t, touched, junk)
    requires kind.Inserted? ==> r.id !in t
    ensures Replayed(codec, schema, ReplayOne(codec, schema, f, Put(kind, r)), t[r.id := r], touched + {r.id}, junk)
  {
    var f1 := f.(bytes := if f.reset then f.bytes else [], reset := true);
    var raw := codec.marshal(r);
    var f2 := f1.(bytes := f1.bytes + raw);
    var p := Pointer(|f1.bytes|, Size32(|raw|));
    ResetKeeps(codec, schema, f, t, touched, junk);
    AppendKeeps(codec, schema, f1, t, touched, junk, raw);
    AppendedReadsOne(codec, f1.bytes, r);
    if kind.Inserted? || r.id !in f.x.primary {
      EnterKeeps(codec, schema, f2, t, touched, junk, r, p);
    } else {
      var old_ := ReadCommitted(f.x, FileReader(codec, f1.bytes), r.id);
      RemoveKeeps(codec, schema, f2, t, touched, junk, r.id, old_);
      EnterKeeps(codec, schema, f2.(x := Leave(f.x, schema, r.id, old_)), t - {r.id}, touched + {r.id}, junk, r, p);
      assert (t - {r.id})[r.id := r] == t[r.id := r];
      assert touched + {r.id} + {r.id} == touched + {r.id};
    }
  }

  function Touches(ch: Change): set<Value> {
    match ch
    case Put(_, r) => {r.id}
    case Remove(id) => {id}
    case Wipe => {}
  }

  function TouchedBy(cs: seq<Change>): set<Value>
    decreases |cs|
  {
    if cs == [] then {} else TouchedBy(cs[..|cs| - 1]) + Touches(cs[|cs| - 1])
  }

  lemma {:induction false} OneKeeps(codec: Codec, schema: Schema, f: TableFile, t: Table, touched: set<Value>,
                                    junk: Indexes, ch: Change)
    requires RoundTrips(codec) && Replayed(codec, schema, f, t, touched, junk)
    requires ch.Put? ==> |codec.marshal(ch.rec)| <= MAX_RECORD && (ch.kind.Inserted? ==> ch.rec.id !in t)
    ensures Replayed(codec, schema, ReplayOne(codec, schema, f, ch), FoldOne(t, ch), touched + Touches(ch), junk)
  {
    match ch
    case Put(kind, r) => PutKeeps(codec, schema, f, t, touched, junk, kind, r);
    case Remove(id) =>
      if id in f.x.primary {
        RemoveKeeps(codec, schema, f, t, touched, junk, id, ReadCommitted(f.x, FileReader(codec, f.bytes), id));
      } else {
        AbsentKeeps(codec, schema, f, t, touched, junk, id);
      }
    case Wipe =>
  }

  lemma {:induction false} AllKeep(codec: Codec, schema: Schema, f: TableFile, cs: seq<Change>)
    requires RoundTrips(codec) && Logged(codec, cs)
    ensures Replayed(codec, schema, ReplayAll(codec, schema, f, cs), Fold(cs), TouchedBy(cs), f.x)
    decreases |cs|
  {
    if cs != [] {
      var n := |cs| - 1;
      LoggedInit(codec, cs);
      AllKeep(codec, schema, f, cs[..n]);
      OneKeeps(codec, schema, ReplayAll(codec, schema, f, cs[..n]), Fold(cs[..n]), TouchedBy(cs[..n]), f.x, cs[n]);
    }
  }

  lemma {:induction false} LoggedInit(codec: Codec, cs: seq<Change>)
    requires Logged(codec, cs) && cs != []
    ensures Logged(codec, cs[..|cs| - 1])
  {
    var init := cs[..|cs| - 1];
    assert forall i :: 0 <= i < |init| ==> init[i] == cs[i] && init[..i] == cs[..i];
  }

  // ---------------------------------------------------------------- entries left over from before

  /** An entry that one change outdates is removed by it. */
  lemma {:induction false} OutdatedGo(codec: Codec, schema: Schema, f: TableFile, t: Table, touched: set<Value>,
                                      junk: Indexes, ch: Change, e: Pair)
    requires Replayed(codec, schema, f, t, touched, junk)
    requires ch.Put? && ch.kind.Inserted? ==> ch.rec.id !in t
    requires e in ReplayOne(codec, schema, f, ch).x.pairs && !EntryOf(schema, FoldOne(t, ch), e)
    ensures e in f.x.pairs && !EntryOf(schema, t, e)
  {
    match ch
    case Put(kind, r) => OutdatedByPut(codec, schema, f, t, touched, junk, kind, r, e);
    case Remove(id) =>
    case Wipe =>
  }

  lemma {:induction false} OutdatedByPut(codec: Codec, schema: Schema, f: TableFile, t: Table, touched: set<Value>,
                                         junk: Indexes, kind: Kind, r: Rec, e: Pair)
    requires Replayed(codec, schema, f, t, touched, junk) && (kind.Inserted? ==> r.id !in t)
    requires e in ReplayOne(codec, schema, f, Put(kind, r)).x.pairs && !EntryOf(schema, t[r.id := r], e)
    ensures e in f.x.pairs && !EntryOf(schema, t, e)
  {
    assert e !in PairsOf(schema, r, r.id);
    if r.id in t {
      var bytes := if f.reset then f.bytes else [];
      assert ReadCommitted(f.x, FileReader(codec, bytes), r.id) == Some(t[r.id]);
    }
  }

  /** The entry was right after some of the changes. */
  ghost predicate OnceRight(schema: Schema, cs: seq<Change>, e: Pair) {
    exists i :: 0 <= i <= |cs| && EntryOf(schema, Fold(cs[..i]), e)
  }

  lemma {:induction false} OnceRightInit(schema: Schema, cs: seq<Change>, e: Pair)
    requires cs != [] && OnceRight(schema, cs, e)
    ensures EntryOf(schema, Fold(cs), e) || OnceRight(schema, cs[..|cs| - 1], e)
  {
    var n := |cs| - 1;
    var i :| 0 <= i <= |cs| && EntryOf(schema, Fold(cs[..i]), e);
    if i == |cs| {
      assert cs[..i] == cs;
    } else {
      assert cs[..n][..i] == cs[..i];
    }
  }

  /** An entry that replay leaves, and that the fold does not have, was not right at any point of the log. */
  lemma {:induction false} LeftOver(codec: Codec, schema: Schema, f: TableFile, cs: seq<Change>, e: Pair)
    requires RoundTrips(codec) && Logged(codec, cs)
    requires e in ReplayAll(codec, schema, f, cs).x.pairs && !EntryOf(schema, Fold(cs), e)
    ensures e in f.x.pairs && !OnceRight(schema, cs, e)
    decreases |cs|
  {
    if cs == [] {
      assert forall i :: 0 <= i <= |cs| ==> cs[..i] == [];
    } else {
      var n := |cs| - 1;
      LoggedInit(codec, cs);
      AllKeep(codec, schema, f, cs[..n]);
      OutdatedGo(codec, schema, ReplayAll(codec, schema, f, cs[..n]), Fold(cs[..n]), TouchedBy(cs[..n]), f.x, cs[n], e);
      LeftOver(codec, schema, f, cs[..n], e);
      if OnceRight(schema, cs, e) {
        OnceRightInit(schema, cs, e);
      }
    }
  }

  /** Every id of the indexes occurs in the changes, and every entry was right at some point of them. */
  ghost predicate FromHistory(schema: Schema, x: Indexes, cs: seq<Change>) {
    && (forall k :: k in x.primary ==> k in TouchedBy(cs))
    && (forall e :: e in x.pairs ==> OnceRight(schema, cs, e))
  }

  /**
   Replay is a fold. From indexes whose entries come from the history of the log, under whatever
   pointers, the primary and the non-unique indexes end up agreeing with the fold of the changes.
   */
  lemma {:induction false} ReplayAgrees(codec: Codec, schema: Schema, f: TableFile, cs: seq<Change>)
    requires RoundTrips(codec) && Logged(codec, cs) && FromHistory(schema, f.x, cs)
    ensures var f' := ReplayAll(codec, schema, f, cs);
            Agrees(schema, FileReader(codec, f'.bytes), f'.x, Fold(cs))
  {
    var f', t := ReplayAll(codec, schema, f, cs), Fold(cs);
    AllKeep(codec, schema, f, cs);
    forall e | e in f'.x.pairs
      ensures EntryOf(schema, t, e)
    {
      if !EntryOf(schema, t, e) {
        LeftOver(codec, schema, f, cs, e);
      }
    }
    ReplayedAgrees(codec, schema, f', t, TouchedBy(cs), f.x);
  }

  lemma {:induction false} ReplayedAgrees(codec: Codec, schema: Schema, f: TableFile, t: Table, touched: set<Value>,
                                          junk: Indexes)
    requires Replayed(codec, schema, f, t, touched, junk)
    requires (forall k :: k in junk.primary ==> k in touched) && forall e :: e in f.x.pairs ==> EntryOf(schema, t, e)
    ensures Agrees(schema, FileReader(codec, f.bytes), f.x, t)
  {
    assert forall k :: k in f.x.primary ==> k in t;
  }

  // ---------------------------------------------------------------- where a recovery may start

  lemma {:induction false} FoldTouched(cs: seq<Change>, i: nat)
    requires i <= |cs|
    ensures Fold(cs[..i]).Keys <= TouchedBy(cs)
    decreases |cs|
  {
    if cs != [] {
      var n := |cs| - 1;
      if i <= n {
        assert cs[..n][..i] == cs[..i];
        FoldTouched(cs[..n], i);
      } else {
        assert cs[..i] == cs && cs[..n][..n] == cs[..n];
        FoldTouched(cs[..n], n);
      }
    }
  }

  /** Indexes that hold the outcome of a prefix of the log, all of it, or none. */
  lemma {:induction false} PrefixFromHistory(schema: Schema, x: Indexes, cs: seq<Change>, i: nat)
    requires i <= |cs| && x.primary.Keys == Fold(cs[..i]).Keys && PairsAgree(schema, x, Fold(cs[..i]))
    ensures FromHistory(schema, x, cs)
  {
    FoldTouched(cs, i);
    forall e | e in x.pairs
      ensures OnceRight(schema, cs, e)
    {
      assert EntryOf(schema, Fold(cs[..i]), e);
    }
  }

  lemma {:induction false} EmptyFromHistory(schema: Schema, cs: seq<Change>)
    ensures FromHistory(schema, EMPTY, cs)
  {
  }

  /** Indexes that an interrupted replay leaves. */
  lemma {:induction false} InterruptedFromHistory(codec: Codec, schema: Schema, f: TableFile, cs: seq<Change>, i: nat)
    requires RoundTrips(codec) && Logged(codec, cs) && FromHistory(schema, f.x, cs) && i <= |cs|
    ensures FromHistory(schema, ReplayAll(codec, schema, f, cs[..i]).x, cs)
  {
    var init := cs[..i];
    assert forall j :: 0 <= j < i ==> init[j] == cs[j] && init[..j] == cs[..j];
    AllKeep(codec, schema, f, init);
    FoldTouched(cs, i);
    var x := ReplayAll(codec, schema, f, init).x;
    forall e | e in x.pairs
      ensures OnceRight(schema, cs, e)
    {
      assert EntryOf(schema, Fold(cs[..i]), e) || e in f.x.pairs;
    }
  }

  /**
   A recovery that is interrupted after `i` changes and then repeated ends in agreement with the fold, and
   so does one that is repeated over its own result.
   */
  lemma {:induction false} ReplayTwice(codec: Codec, schema: Schema, f: TableFile, bytes: seq<Byte>, cs: seq<Change>,
                                       i: nat)
    requires RoundTrips(codec) && Logged(codec, cs) && FromHistory(schema, f.x, cs) && i <= |cs|
    ensures var f1 := ReplayAll(codec, schema, f, cs[..i]);
            var f2 := ReplayAll(codec, schema, TableFile(bytes, f1.x, false), cs);
            FromHistory(schema, f1.x, cs) && Agrees(schema, FileReader(codec, f2.bytes), f2.x, Fold(cs))
  {
    var f1 := ReplayAll(codec, schema, f, cs[..i]);
    InterruptedFromHistory(codec, schema, f, cs, i);
    ReplayAgrees(codec, schema, TableFile(bytes, f1.x, false), cs);
  }
}
