/**
 The unique indexes after a replay.

 A unique entry belongs to the record that was entered with it last, until that record gives it up or
 another one that held the same value does. `Fate` follows an entry through the log. The main
 theorem: from empty indexes, or from any whose entries come from the history of the log, the unique
 indexes end up right if and only if no value in the log is given up by one record while another,
 which keeps it to the end and is not written again, holds it too. A log whose tables never have
 duplicates cannot do that.
 */
module ReplayUnique {
  import opened Options
  import opened KeyOrder
  import opened PageFormat
  import opened Values
  import opened Records
  import opened TableStorage
  import opened ShadowIndex
  import opened UniqueCheck
  import opened CommitApply
  import opened UniqueCommit
  import opened CommitTable
  import opened Replay

  /** Changes as commits log them: an insertion is of a new id, an update and a deletion of one that is there. */
  ghost predicate Exact(cs: seq<Change>) {
    forall i :: 0 <= i < |cs| ==> ExactOne(Fold(cs[..i]), cs[i])
  }

  predicate ExactOne(t: Table, ch: Change) {
    match ch
    case Put(kind, r) => kind.Inserted? <==> r.id !in t
    case Remove(id) => id in t
    case Wipe => true
  }

  /** What has become of a unique entry: nothing yet, it belongs to a record, or it was removed. */
  datatype Fate = Untouched | Owned(id: Value) | Gone

  function FateAfter(schema: Schema, t: Table, ch: Change, u: Entry, before: Fate): Fate {
    match ch
    case Put(_, r) =>
      if u in UniquesOf(schema, r) then Owned(r.id)
      else if r.id in t && u in UniquesOf(schema, t[r.id]) then Gone
      else before
    case Remove(id) => if id in t && u in UniquesOf(schema, t[id]) then Gone else before
    case Wipe => Gone
  }

  function FateOf(schema: Schema, cs: seq<Change>, u: Entry): Fate
    decreases |cs|
  {
    if cs == [] then Untouched
    else
      var n := |cs| - 1;
      FateAfter(schema, Fold(cs[..n]), cs[n], u, FateOf(schema, cs[..n], u))
  }

  /** The unique entry `u` of the indexes is as its fate says; `junk` are the indexes at the start. */
  ghost predicate FateShows(schema: Schema, x: Indexes, t: Table, junk: Indexes, u: Entry, fate: Fate) {
    match fate
    case Untouched => u in x.unique <==> u in junk.unique
    case Owned(k) => Holds(schema, t, k, u) && u in x.unique && k in x.primary && x.unique[u] == x.primary[k]
    case Gone => u !in x.unique
  }

  lemma {:induction false} ExactInit(cs: seq<Change>)
    requires Exact(cs) && cs != []
    ensures Exact(cs[..|cs| - 1]) && ExactOne(Fold(cs[..|cs| - 1]), cs[|cs| - 1])
  {
    var init := cs[..|cs| - 1];
    assert forall i :: 0 <= i < |init| ==> init[i] == cs[i] && init[..i] == cs[..i];
  }

  /** Putting a record: its old version, if there is one, leaves, and it is entered. */
  lemma {:induction false} FateOfPut(schema: Schema, x: Indexes, t: Table, junk: Indexes, kind: Kind, r: Rec,
                                     p: Pointer, u: Entry, fate: Fate)
    requires FateShows(schema, x, t, junk, u, fate)
    ensures var x1 := if r.id in t then Leave(x, schema, r.id, Some(t[r.id])) else x;
            FateShows(schema, Enter(x1, schema, r, p), t[r.id := r], junk, u,
                      FateAfter(schema, t, Put(kind, r), u, fate))
  {
  }

  /** One change moves an entry as its fate says. */
  lemma {:induction false} FateMoves(codec: Codec, schema: Schema, f: TableFile, t: Table, touched: set<Value>,
                                     junk: Indexes, ch: Change, u: Entry, fate: Fate)
    requires Replayed(codec, schema, f, t, touched, junk) && ExactOne(t, ch)
    requires FateShows(schema, f.x, t, junk, u, fate)
    ensures FateShows(schema, ReplayOne(codec, schema, f, ch).x, FoldOne(t, ch), junk, u,
                      FateAfter(schema, t, ch, u, fate))
  {
    match ch
    case Put(kind, r) =>
      var bytes := if f.reset then f.bytes else [];
      assert !kind.Inserted? ==> ReadCommitted(f.x, FileReader(codec, bytes), r.id) == Some(t[r.id]);
      FateOfPut(schema, f.x, t, junk, kind, r, Pointer(|bytes|, Size32(|codec.marshal(r)|)), u, fate);
    case Remove(id) =>
      assert ReadCommitted(f.x, FileReader(codec, f.bytes), id) == Some(t[id]);
    case Wipe =>
  }

  /** And so does a whole log. */
  lemma {:induction false} FateFollows(codec: Codec, schema: Schema, f: TableFile, cs: seq<Change>, u: Entry)
    requires RoundTrips(codec) && Logged(codec, cs) && Exact(cs)
    ensures FateShows(schema, ReplayAll(codec, schema, f, cs).x, Fold(cs), f.x, u, FateOf(schema, cs, u))
    decreases |cs|
  {
    if cs != [] {
      var n := |cs| - 1;
      LoggedInit(codec, cs);
      ExactInit(cs);
      FateFollows(codec, schema, f, cs[..n], u);
      AllKeep(codec, schema, f, cs[..n]);
      FateMoves(codec, schema, ReplayAll(codec, schema, f, cs[..n]), Fold(cs[..n]), TouchedBy(cs[..n]), f.x, cs[n], u,
                FateOf(schema, cs[..n], u));
    }
  }

  // ---------------------------------------------------------------- when a unique value is lost

  /** Nothing from position `i` on touches record `k`. */
  ghost predicate Quiet(cs: seq<Change>, i: nat, k: Value) {
    forall j :: i <= j < |cs| ==> !cs[j].Wipe? && k !in Touches(cs[j])
  }

  /**
   Change `q` takes `u` from record `j` while record `k` holds it too, and `k` keeps it without being written
   again. The index then has no entry for `k`.
   */
  ghost predicate GivesAway(schema: Schema, cs: seq<Change>, q: nat, j: Value, k: Value, u: Entry) {
    && q < |cs| && j != k && Holds(schema, Fold(cs[..q]), j, u) && Holds(schema, Fold(cs[..q]), k, u)
    && !Holds(schema, Fold(cs[..q + 1]), j, u) && Quiet(cs, q, k)
  }

  /** Some value in the log is given up by one record while another, which keeps it, holds it too. */
  ghost predicate LogGivesAway(schema: Schema, cs: seq<Change>) {
    exists q, j, k, u :: GivesAway(schema, cs, q, j, k, u)
  }

  /** The record that a change is about. */
  function Subject(ch: Change): Value {
    match ch
    case Put(_, r) => r.id
    case Remove(id) => id
    case Wipe => Nil
  }

  /** A change after which a held value has no entry: it took the value from another record, or it did nothing. */
  lemma {:induction false} TakenNow(schema: Schema, t: Table, ch: Change, k: Value, u: Entry, fate: Fate)
    requires ExactOne(t, ch) && Holds(schema, FoldOne(t, ch), k, u) && FateAfter(schema, t, ch, u, fate) == Gone
    ensures !ch.Wipe? && k !in Touches(ch) && Holds(schema, t, k, u)
    ensures fate == Gone || (Holds(schema, t, Subject(ch), u) && !Holds(schema, FoldOne(t, ch), Subject(ch), u))
  {
  }

  /** A value that is held in the end but whose entry is gone was given away. */
  lemma {:induction false} GoneGivenAway(schema: Schema, cs: seq<Change>, k: Value, u: Entry)
    returns (q: nat, j: Value)
    requires Exact(cs) && Holds(schema, Fold(cs), k, u) && FateOf(schema, cs, u) == Gone
    ensures GivesAway(schema, cs, q, j, k, u)
    decreases |cs|
  {
    var n := |cs| - 1;
    ExactInit(cs);
    TakenNow(schema, Fold(cs[..n]), cs[n], k, u, FateOf(schema, cs[..n], u));
    assert cs[..n + 1] == cs;
    if FateOf(schema, cs[..n], u) == Gone {
      q, j := GoneGivenAway(schema, cs[..n], k, u);
      GivesAwayLonger(schema, cs, q, j, k, u);
    } else {
      q, j := n, Subject(cs[n]);
    }
  }

  lemma {:induction false} GivesAwayLonger(schema: Schema, cs: seq<Change>, q: nat, j: Value, k: Value, u: Entry)
    requires cs != [] && GivesAway(schema, cs[..|cs| - 1], q, j, k, u)
    requires !cs[|cs| - 1].Wipe? && k !in Touches(cs[|cs| - 1])
    ensures GivesAway(schema, cs, q, j, k, u)
  {
    var init := cs[..|cs| - 1];
    assert init[..q] == cs[..q] && init[..q + 1] == cs[..q + 1];
    assert forall i :: q <= i < |init| ==> init[i] == cs[i];
  }

  /** Record `k` holds `u` after position `i` as long as nothing touches it, and its entry is not made again. */
  lemma {:induction false} StaysGone(schema: Schema, cs: seq<Change>, i: nat, k: Value, u: Entry)
    requires i <= |cs| && Quiet(cs, i, k) && Holds(schema, Fold(cs[..i]), k, u)
    requires FateOf(schema, cs[..i], u) != Untouched && FateOf(schema, cs[..i], u) != Owned(k)
    ensures Holds(schema, Fold(cs), k, u) && FateOf(schema, cs, u) != Untouched && FateOf(schema, cs, u) != Owned(k)
    decreases |cs|
  {
    if i == |cs| {
      assert cs[..i] == cs;
    } else {
      var init := cs[..|cs| - 1];
      assert init[..i] == cs[..i] && cs[|cs| - 1] == cs[|init|];
      assert forall j :: i <= j < |init| ==> init[j] == cs[j];
      StaysGone(schema, init, i, k, u);
    }
  }

  /** And a value that was given away has no entry, or that of another record. */
  lemma {:induction false} GivenAwayGone(schema: Schema, cs: seq<Change>, q: nat, j: Value, k: Value, u: Entry)
    requires Exact(cs) && GivesAway(schema, cs, q, j, k, u)
    ensures Holds(schema, Fold(cs), k, u) && FateOf(schema, cs, u) != Untouched && FateOf(schema, cs, u) != Owned(k)
  {
    var now := cs[..q + 1];
    assert now[..q] == cs[..q] && now[q] == cs[q];
    assert FateOf(schema, now, u) == FateAfter(schema, Fold(cs[..q]), cs[q], u, FateOf(schema, cs[..q], u));
    StaysGone(schema, cs, q + 1, k, u);
  }

  // ---------------------------------------------------------------- the theorem

  /** Every unique entry was held by a record at some point of the log. */
  ghost predicate UniqueFromHistory(schema: Schema, x: Indexes, cs: seq<Change>) {
    forall u :: u in x.unique ==> OnceHeld(schema, cs, u)
  }

  ghost predicate OnceHeld(schema: Schema, cs: seq<Change>, u: Entry) {
    exists i :: 0 <= i <= |cs| && HeldBySome(schema, Fold(cs[..i]), u)
  }

  /** An entry that was held at some point has been touched. */
  lemma {:induction false} HeldTouched(schema: Schema, cs: seq<Change>, u: Entry)
    requires OnceHeld(schema, cs, u)
    ensures FateOf(schema, cs, u) != Untouched
    decreases |cs|
  {
    var i :| 0 <= i <= |cs| && HeldBySome(schema, Fold(cs[..i]), u);
    if cs != [] {
      var n := |cs| - 1;
      if i <= n {
        assert cs[..n][..i] == cs[..i];
        HeldTouched(schema, cs[..n], u);
      } else {
        assert cs[..i] == cs;
        HeldNow(schema, cs, u);
      }
    }
  }

  lemma {:induction false} HeldNow(schema: Schema, cs: seq<Change>, u: Entry)
    requires HeldBySome(schema, Fold(cs), u)
    ensures FateOf(schema, cs, u) != Untouched
    decreases |cs|
  {
    if cs != [] {
      var n := |cs| - 1;
      var k :| Holds(schema, Fold(cs), k, u);
      if Holds(schema, Fold(cs[..n]), k, u) {
        HeldNow(schema, cs[..n], u);
      }
    }
  }

  /**
   The unique indexes after a replay. From indexes whose entries come from the history of the log, under
   whatever pointers, they agree with the fold of the changes if and only if the log gives no value away.
   */
  lemma {:induction false} ReplayUniques(codec: Codec, schema: Schema, f: TableFile, cs: seq<Change>)
    requires RoundTrips(codec) && Logged(codec, cs) && Exact(cs)
    requires UniqueFromHistory(schema, f.x, cs) && NoDuplicates(schema, Fold(cs))
    ensures UniqueAgrees(schema, ReplayAll(codec, schema, f, cs).x, Fold(cs)) <==> !LogGivesAway(schema, cs)
  {
    var x, t := ReplayAll(codec, schema, f, cs).x, Fold(cs);
    if q: nat, j, k, u :| GivesAway(schema, cs, q, j, k, u) {
      GivenAwayGone(schema, cs, q, j, k, u);
      FateFollows(codec, schema, f, cs, u);
      OthersHold(schema, x, t, f.x, k, u, FateOf(schema, cs, u));
    } else {
      forall u
        ensures u in x.unique ==> HeldBySome(schema, t, u)
        ensures forall k :: Holds(schema, t, k, u) ==> u in x.unique && k in x.primary && x.unique[u] == x.primary[k]
      {
        UniqueKept(codec, schema, f, cs, u);
      }
    }
  }

  lemma {:induction false} OthersHold(schema: Schema, x: Indexes, t: Table, junk: Indexes, k: Value, u: Entry,
                                      fate: Fate)
    requires NoDuplicates(schema, t) && Holds(schema, t, k, u) && FateShows(schema, x, t, junk, u, fate)
    requires fate != Untouched && fate != Owned(k)
    ensures !UniqueAgrees(schema, x, t)
  {
    assert u !in x.unique;
  }

  lemma {:induction false} UniqueKept(codec: Codec, schema: Schema, f: TableFile, cs: seq<Change>, u: Entry)
    requires RoundTrips(codec) && Logged(codec, cs) && Exact(cs) && !LogGivesAway(schema, cs)
    requires UniqueFromHistory(schema, f.x, cs) && NoDuplicates(schema, Fold(cs))
    ensures var x, t := ReplayAll(codec, schema, f, cs).x, Fold(cs);
            && (u in x.unique ==> HeldBySome(schema, t, u))
            && forall k :: Holds(schema, t, k, u) ==> u in x.unique && k in x.primary && x.unique[u] == x.primary[k]
  {
    var x, t := ReplayAll(codec, schema, f, cs).x, Fold(cs);
    FateFollows(codec, schema, f, cs, u);
    if u in f.x.unique {
      HeldTouched(schema, cs, u);
    }
    forall k | Holds(schema, t, k, u)
      ensures u in x.unique && k in x.primary && x.unique[u] == x.primary[k]
    {
      HeldNow(schema, cs, u);
      if FateOf(schema, cs, u) == Gone {
        var q, j := GoneGivenAway(schema, cs, k, u);
      }
    }
  }

  /** A log whose tables never have duplicates gives no value away. */
  lemma {:induction false} NeverDuplicates(schema: Schema, cs: seq<Change>)
    requires forall i :: 0 <= i <= |cs| ==> NoDuplicates(schema, Fold(cs[..i]))
    ensures !LogGivesAway(schema, cs)
  {
    forall q: nat, j, k, u
      ensures !GivesAway(schema, cs, q, j, k, u)
    {
      assert q <= |cs| ==> NoDuplicates(schema, Fold(cs[..q]));
    }
  }

  // ---------------------------------------------------------------- where a recovery may start

  /** Indexes whose unique entries are those of a prefix of the log; empty ones are. */
  lemma {:induction false} UniquePrefix(schema: Schema, x: Indexes, cs: seq<Change>, i: nat)
    requires i <= |cs| && forall u :: u in x.unique ==> HeldBySome(schema, Fold(cs[..i]), u)
    ensures UniqueFromHistory(schema, x, cs)
  {
  }

  /** Indexes that an interrupted replay leaves. */
  lemma {:induction false} UniqueInterrupted(codec: Codec, schema: Schema, f: TableFile, cs: seq<Change>, i: nat)
    requires RoundTrips(codec) && Logged(codec, cs) && Exact(cs) && UniqueFromHistory(schema, f.x, cs) && i <= |cs|
    ensures UniqueFromHistory(schema, ReplayAll(codec, schema, f, cs[..i]).x, cs)
  {
    var init := cs[..i];
    assert forall j :: 0 <= j < i ==> init[j] == cs[j] && init[..j] == cs[..j];
    var x := ReplayAll(codec, schema, f, init).x;
    forall u | u in x.unique
      ensures OnceHeld(schema, cs, u)
    {
      FateFollows(codec, schema, f, init, u);
      if FateOf(schema, init, u) != Untouched {
        assert HeldBySome(schema, Fold(cs[..i]), u);
      }
    }
  }
}
