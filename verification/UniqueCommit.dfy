/**
 Unique indexes after a commit. An update first deletes the old value from the index, also when
 another record of the same transaction has just been entered under it. The indexes agree with
 the view of the transaction if and only if that does not happen.
 */
module UniqueCommit {
  import opened Options
  import opened PageFormat
  import opened Values
  import opened Records
  import opened ShadowIndex
  import opened Overlay
  import opened UniqueCheck
  import opened CommitApply

  type Entry = (string, Value)

  /** Entry `u` is written by an insertion, or by an update before the one at position `i`. */
  ghost predicate TakenBefore(schema: Schema, o: Order, i: nat, u: Entry)
    requires i <= |o.updates|
  {
    || (exists j :: 0 <= j < |o.inserts| && u in UniquesOf(schema, o.inserts[j]))
    || (exists j :: 0 <= j < i && u in UniquesOf(schema, o.updates[j]))
  }

  /** The update at position `i` gives up entry `u`, which another record took before it. */
  ghost predicate HandsOver(schema: Schema, committed: Table, o: Order, i: nat, u: Entry) {
    && i < |o.updates| && o.updates[i].id in committed
    && u in UniquesOf(schema, committed[o.updates[i].id]) && TakenBefore(schema, o, i, u)
  }

  ghost predicate HandOff(schema: Schema, committed: Table, o: Order) {
    exists i: nat, u :: HandsOver(schema, committed, o, i, u)
  }

  /** The table after `a` insertions and `b` updates. */
  function At(committed: Table, c: Changes, o: Order, a: nat, b: nat): Table
    requires a <= |o.inserts| && b <= |o.updates|
  {
    Midway(committed, c, o.deletes, o.inserts[..a], o.updates[..b])
  }

  /** The record under `k` at that point: an update, an insertion, or a committed record not yet reached. */
  ghost predicate FromUpdate(t: Table, o: Order, b: nat, k: Value)
    requires b <= |o.updates| && k in t
  {
    exists i :: 0 <= i < b && o.updates[i].id == k && t[k] == o.updates[i]
  }

  ghost predicate FromInsert(t: Table, o: Order, a: nat, k: Value)
    requires a <= |o.inserts| && k in t
  {
    exists i :: 0 <= i < a && o.inserts[i].id == k && t[k] == o.inserts[i]
  }

  lemma {:induction false} MidwayFrom(committed: Table, c: Changes, o: Order, a: nat, b: nat, k: Value)
    requires Proper(committed, c) && Follows(o, c) && a <= |o.inserts| && b <= |o.updates|
    requires k in At(committed, c, o, a, b)
    ensures var t := At(committed, c, o, a, b);
            FromUpdate(t, o, b, k) || FromInsert(t, o, a, k) ||
            (!c.cleared && k in committed && k !in c.deletes && t[k] == committed[k] && forall i :: 0 <= i < b ==>
             o.updates[i].id != k)
  {
    var base := if c.cleared then map[] else committed;
    var ins, upd := o.inserts[..a], o.updates[..b];
    assert forall i :: 0 <= i < a ==> ins[i] == o.inserts[i];
    assert forall i :: 0 <= i < b ==> upd[i] == o.updates[i];
    var t0 := Minus(base, o.deletes);
    MinusAt(base, o.deletes, k);
    PutRecsAt(t0, ins, k);
    PutRecsAt(PutRecs(t0, ins), upd, k);
    if i :| 0 <= i < b && o.updates[i].id == k {
      assert upd[i].id == k;
    } else if i :| 0 <= i < a && o.inserts[i].id == k {
      assert ins[i].id == k;
    }
  }

  /** A record already entered is as the view has it. */
  lemma {:induction false} EnteredFinal(committed: Table, c: Changes, o: Order, a: nat, b: nat, k: Value)
    requires Proper(committed, c) && Follows(o, c) && a <= |o.inserts| && b <= |o.updates|
    requires k in At(committed, c, o, a, b)
    requires FromUpdate(At(committed, c, o, a, b), o, b, k) || FromInsert(At(committed, c, o, a, b), o, a, k) ||
             (!c.cleared && k in committed && k !in c.deletes && k !in c.updates
              && At(committed, c, o, a, b)[k] == committed[k])
    ensures k in View(committed, c) && View(committed, c)[k] == At(committed, c, o, a, b)[k]
  {
  }

  /** Without a hand-over no two records share a value at any point. */
  lemma {:induction false} NoDuplicatesMidway(schema: Schema, committed: Table, c: Changes, o: Order, a: nat, b: nat)
    requires Proper(committed, c) && Follows(o, c) && a <= |o.inserts| && b <= |o.updates|
    requires NoDuplicates(schema, committed) && NoDuplicates(schema, View(committed, c))
    requires !HandOff(schema, committed, o)
    ensures NoDuplicates(schema, At(committed, c, o, a, b))
  {
    var t := At(committed, c, o, a, b);
    forall j, k, u | Holds(schema, t, j, u) && Holds(schema, t, k, u)
      ensures j == k
    {
      PairMidway(schema, committed, c, o, a, b, j, k, u);
    }
  }

  /** Not yet updated. */
  ghost predicate Pending(c: Changes, o: Order, b: nat, k: Value)
    requires b <= |o.updates|
  {
    k in c.updates && forall i :: 0 <= i < b ==> o.updates[i].id != k
  }

  lemma {:induction false} PairMidway(schema: Schema, committed: Table, c: Changes, o: Order, a: nat, b: nat, j: Value,
                                      k: Value, u: Entry)
    requires Proper(committed, c) && Follows(o, c) && a <= |o.inserts| && b <= |o.updates|
    requires NoDuplicates(schema, committed) && NoDuplicates(schema, View(committed, c))
    requires Holds(schema, At(committed, c, o, a, b), j, u) && Holds(schema, At(committed, c, o, a, b), k, u)
    ensures j == k || HandOff(schema, committed, o)
  {
    MidwayFrom(committed, c, o, a, b, j);
    MidwayFrom(committed, c, o, a, b, k);
    if Pending(c, o, b, k) && j != k {
      PendingPair(schema, committed, c, o, a, b, j, k, u);
    } else if Pending(c, o, b, j) && j != k {
      PendingPair(schema, committed, c, o, a, b, k, j, u);
    } else if !Pending(c, o, b, k) && !Pending(c, o, b, j) {
      EnteredFinal(committed, c, o, a, b, j);
      EnteredFinal(committed, c, o, a, b, k);
      assert Holds(schema, View(committed, c), j, u) && Holds(schema, View(committed, c), k, u);
    }
  }

  /** A record that waits for its update shares a value with another one only through a hand-over. */
  lemma {:induction false} PendingPair(schema: Schema, committed: Table, c: Changes, o: Order, a: nat, b: nat,
                                       j: Value, k: Value, u: Entry)
    requires Proper(committed, c) && Follows(o, c) && a <= |o.inserts| && b <= |o.updates|
    requires NoDuplicates(schema, committed) && Pending(c, o, b, k) && j != k
    requires Holds(schema, At(committed, c, o, a, b), j, u) && Holds(schema, At(committed, c, o, a, b), k, u)
    ensures HandOff(schema, committed, o)
  {
    var t := At(committed, c, o, a, b);
    MidwayFrom(committed, c, o, a, b, j);
    MidwayFrom(committed, c, o, a, b, k);
    var i: nat :| i < |o.updates| && o.updates[i].id == k;
    assert i >= b;
    assert t[k] == committed[k];
    assert Holds(schema, committed, k, u);
    assert j in committed && t[j] == committed[j] ==> Holds(schema, committed, j, u);
    assert TakenBefore(schema, o, i, u);
    assert HandsOver(schema, committed, o, i, u);
  }

  // ---------------------------------------------------------------- no hand-over

  lemma {:induction false} LeaveAllUnique(schema: Schema, read: Reader, x: Indexes, t: Table, ks: seq<Value>)
    requires Agrees(schema, read, x, t) && UniqueAgrees(schema, x, t) && NoDuplicates(schema, t)
    requires (forall i, j :: 0 <= i < j < |ks| ==> ks[i] != ks[j]) && forall i :: 0 <= i < |ks| ==> ks[i] in t
    ensures UniqueAgrees(schema, LeaveAll(x, schema, read, ks), Minus(t, ks)) && NoDuplicates(schema, Minus(t, ks))
    decreases |ks|
  {
    if ks != [] {
      var init, k := ks[..|ks| - 1], ks[|ks| - 1];
      LeaveAllUnique(schema, read, x, t, init);
      LeaveAllAgrees(schema, read, x, t, init);
      MinusAt(t, init, k);
      LeaveUnique(schema, LeaveAll(x, schema, read, init), Minus(t, init), k);
      FewerDuplicates(schema, Minus(t, init), k);
    }
  }

  lemma {:induction false} FewerDuplicates(schema: Schema, t: Table, k: Value)
    requires NoDuplicates(schema, t)
    ensures NoDuplicates(schema, t - {k})
  {
    forall i, j, u | Holds(schema, t - {k}, i, u) && Holds(schema, t - {k}, j, u)
      ensures i == j
    {
      assert Holds(schema, t, i, u) && Holds(schema, t, j, u);
    }
  }

  /** At no point of putting in `rs` are there duplicates. */
  ghost predicate AlwaysFree(schema: Schema, t: Table, rs: seq<Rec>) {
    forall b :: 0 <= b <= |rs| ==> NoDuplicates(schema, PutRecs(t, rs[..b]))
  }

  lemma {:induction false} AlwaysFreeInit(schema: Schema, t: Table, rs: seq<Rec>)
    requires AlwaysFree(schema, t, rs) && rs != []
    ensures var n := |rs| - 1; AlwaysFree(schema, t, rs[..n]) && NoDuplicates(schema, PutRecs(t, rs[..n]))
    ensures NoDuplicates(schema, PutRecs(t, rs))
  {
    var n := |rs| - 1;
    assert forall b :: 0 <= b <= n ==> rs[..n][..b] == rs[..b];
    assert rs[..n + 1] == rs;
  }

  lemma {:induction false} EnterAllUnique(schema: Schema, x: Indexes, t: Table, rs: seq<Rec>, ps: seq<Pointer>)
    requires UniqueAgrees(schema, x, t) && DistinctIds(rs) && |ps| == |rs|
    requires forall i :: 0 <= i < |rs| ==> rs[i].id !in t
    requires AlwaysFree(schema, t, rs)
    ensures UniqueAgrees(schema, EnterAll(x, schema, rs, ps), PutRecs(t, rs))
    decreases |rs|
  {
    if rs != [] {
      var n := |rs| - 1;
      var init, ps' := rs[..n], ps[..n];
      AlwaysFreeInit(schema, t, rs);
      EnterAllUnique(schema, x, t, init, ps');
      PutRecsAt(t, init, rs[n].id);
      EnterUnique(schema, EnterAll(x, schema, init, ps'), PutRecs(t, init), rs[n], ps[n]);
    }
  }

  /** One update, when the value it gives up is nobody else's. */
  lemma {:induction false} ReplaceUnique(schema: Schema, read: Reader, x: Indexes, t: Table, r: Rec, p: Pointer)
    requires Agrees(schema, read, x, t) && UniqueAgrees(schema, x, t) && NoDuplicates(schema, t)
    requires NoDuplicates(schema, t[r.id := r])
    requires r.id in t && read(p) == Some(r)
    ensures UniqueAgrees(schema, Enter(Leave(x, schema, r.id, ReadCommitted(x, read, r.id)), schema, r, p),
                         t[r.id := r])
  {
    ReplaceAgrees(schema, read, x, t, r, p);
    LeaveUnique(schema, x, t, r.id);
    assert (t - {r.id})[r.id := r] == t[r.id := r];
    EnterUnique(schema, Leave(x, schema, r.id, Some(t[r.id])), t - {r.id}, r, p);
  }

  lemma {:induction false} ReplaceAllUnique(schema: Schema, read: Reader, x: Indexes, t: Table, rs: seq<Rec>,
                                            ps: seq<Pointer>)
    requires Agrees(schema, read, x, t) && UniqueAgrees(schema, x, t) && DistinctIds(rs) && |ps| == |rs|
    requires forall i :: 0 <= i < |rs| ==> rs[i].id in t && read(ps[i]) == Some(rs[i])
    requires AlwaysFree(schema, t, rs)
    ensures UniqueAgrees(schema, ReplaceAll(x, schema, read, rs, ps), PutRecs(t, rs))
    decreases |rs|
  {
    if rs != [] {
      var n := |rs| - 1;
      var init, ps' := rs[..n], ps[..n];
      AlwaysFreeInit(schema, t, rs);
      ReplaceAllUnique(schema, read, x, t, init, ps');
      ReplaceAllAgrees(schema, read, x, t, init, ps');
      PutRecsAt(t, init, rs[n].id);
      ReplaceUnique(schema, read, ReplaceAll(x, schema, read, init, ps'), PutRecs(t, init), rs[n], ps[n]);
    }
  }

  /** Without a hand-over the unique indexes agree with the view. */
  lemma {:induction false} NoHandOver(schema: Schema, read: Reader, x: Indexes, committed: Table, c: Changes, o: Order,
                                      ps: seq<Pointer>)
    requires Proper(committed, c) && Follows(o, c) && Agrees(schema, read, x, committed) && Written(read, o, ps)
    requires UniqueAgrees(schema, x, committed) && NoDuplicates(schema, committed)
    requires NoDuplicates(schema, View(committed, c))
    requires !HandOff(schema, committed, o)
    ensures UniqueAgrees(schema, Applied(x, schema, read, c, o, ps), View(committed, c))
  {
    var n := |o.inserts|;
    var t0 := if c.cleared then map[] else committed;
    var t2 := PutRecs(Minus(t0, o.deletes), o.inserts);
    EnteredAgrees(schema, read, x, committed, c, o, ps);
    EnteredUnique(schema, read, x, committed, c, o, ps);
    UpdatesReady(read, committed, c, o, ps);
    FreeUpdates(schema, committed, c, o);
    ReplaceAllUnique(schema, read, Entered(x, schema, read, c, o, ps), t2, o.updates, ps[n..]);
    MidwayEnds(committed, c, o);
  }

  lemma {:induction false} FreeUpdates(schema: Schema, committed: Table, c: Changes, o: Order)
    requires Proper(committed, c) && Follows(o, c) && !HandOff(schema, committed, o)
    requires NoDuplicates(schema, committed) && NoDuplicates(schema, View(committed, c))
    ensures AlwaysFree(schema, PutRecs(Minus(if c.cleared then map[] else committed, o.deletes), o.inserts), o.updates)
  {
    forall b | 0 <= b <= |o.updates|
      ensures NoDuplicates(schema,
                           PutRecs(PutRecs(Minus(if c.cleared then map[] else committed, o.deletes), o.inserts),
                                   o.updates[..b]))
    {
      NoDuplicatesMidway(schema, committed, c, o, |o.inserts|, b);
      assert o.inserts[..|o.inserts|] == o.inserts;
    }
  }

  lemma {:induction false} FreeInserts(schema: Schema, committed: Table, c: Changes, o: Order)
    requires Proper(committed, c) && Follows(o, c) && !HandOff(schema, committed, o)
    requires NoDuplicates(schema, committed) && NoDuplicates(schema, View(committed, c))
    ensures AlwaysFree(schema, Minus(if c.cleared then map[] else committed, o.deletes), o.inserts)
  {
    forall a | 0 <= a <= |o.inserts|
      ensures NoDuplicates(schema, PutRecs(Minus(if c.cleared then map[] else committed, o.deletes), o.inserts[..a]))
    {
      NoDuplicatesMidway(schema, committed, c, o, a, 0);
    }
  }

  lemma {:induction false} EnteredUnique(schema: Schema, read: Reader, x: Indexes, committed: Table, c: Changes,
                                         o: Order, ps: seq<Pointer>)
    requires Proper(committed, c) && Follows(o, c) && Agrees(schema, read, x, committed) && Written(read, o, ps)
    requires UniqueAgrees(schema, x, committed) && NoDuplicates(schema, committed)
    requires NoDuplicates(schema, View(committed, c))
    requires !HandOff(schema, committed, o)
    ensures UniqueAgrees(schema, Entered(x, schema, read, c, o, ps),
                         PutRecs(Minus(if c.cleared then map[] else committed, o.deletes), o.inserts))
  {
    var x0, t0 := if c.cleared then EMPTY else x, if c.cleared then map[] else committed;
    EmptyAgrees(schema, read);
    LeaveAllUnique(schema, read, x0, t0, o.deletes);
    forall i | 0 <= i < |o.inserts|
      ensures o.inserts[i].id !in Minus(t0, o.deletes)
    {
      MinusAt(t0, o.deletes, o.inserts[i].id);
    }
    FreeInserts(schema, committed, c, o);
    EnterAllUnique(schema, LeaveAll(x0, schema, read, o.deletes), Minus(t0, o.deletes), o.inserts, ps[..|o.inserts|]);
  }

  // ---------------------------------------------------------------- a hand-over

  /** An entry that one update leaves behind was there before, and was not among those it gave up. */
  lemma {:induction false} StepEntries(schema: Schema, x: Indexes, key: Value, old_: Option<Rec>, r: Rec, p: Pointer,
                                       u: Entry)
    requires u in Enter(Leave(x, schema, key, old_), schema, r, p).unique && u !in UniquesOf(schema, r)
    ensures u in x.unique && (old_.Some? ==> u !in UniquesOf(schema, old_.value))
  {
  }

  /** An entry that is missing after the first `m` updates, and that no later one writes, is missing at the end. */
  lemma {:induction false} StaysLost(schema: Schema, read: Reader, x: Indexes, rs: seq<Rec>, ps: seq<Pointer>, m: nat,
                                     u: Entry)
    requires |ps| == |rs| && m <= |rs| && u !in ReplaceAll(x, schema, read, rs[..m], ps[..m]).unique
    requires forall l :: m <= l < |rs| ==> u !in UniquesOf(schema, rs[l])
    ensures u !in ReplaceAll(x, schema, read, rs, ps).unique
    decreases |rs| - m
  {
    if m == |rs| {
      assert rs[..m] == rs && ps[..m] == ps;
    } else {
      LostNext(schema, read, x, rs, ps, m, u);
      StaysLost(schema, read, x, rs, ps, m + 1, u);
    }
  }

  lemma {:induction false} LostNext(schema: Schema, read: Reader, x: Indexes, rs: seq<Rec>, ps: seq<Pointer>, m: nat,
                                    u: Entry)
    requires |ps| == |rs| && m < |rs| && u !in UniquesOf(schema, rs[m])
    requires var y := ReplaceAll(x, schema, read, rs[..m], ps[..m]);
             var old_ := ReadCommitted(y, read, rs[m].id);
             u !in y.unique || (old_.Some? && u in UniquesOf(schema, old_.value))
    ensures u !in ReplaceAll(x, schema, read, rs[..m + 1], ps[..m + 1]).unique
  {
    var y := ReplaceAll(x, schema, read, rs[..m], ps[..m]);
    var z := ReplaceAll(x, schema, read, rs[..m + 1], ps[..m + 1]);
    assert rs[..m + 1][..m] == rs[..m] && ps[..m + 1][..m] == ps[..m];
    assert z == Enter(Leave(y, schema, rs[m].id, ReadCommitted(y, read, rs[m].id)), schema, rs[m], ps[m]);
    if u in z.unique {
      StepEntries(schema, y, rs[m].id, ReadCommitted(y, read, rs[m].id), rs[m], ps[m], u);
    }
  }

  /** An entry given up at position `i` and not written again is gone at the end. */
  lemma {:induction false} EntryLost(schema: Schema, read: Reader, x: Indexes, rs: seq<Rec>, ps: seq<Pointer>, i: nat,
                                     u: Entry)
    requires |ps| == |rs| && i < |rs|
    requires var old_ := ReadCommitted(ReplaceAll(x, schema, read, rs[..i], ps[..i]), read, rs[i].id);
             old_.Some? && u in UniquesOf(schema, old_.value)
    requires forall l :: i <= l < |rs| ==> u !in UniquesOf(schema, rs[l])
    ensures u !in ReplaceAll(x, schema, read, rs, ps).unique
  {
    LostNext(schema, read, x, rs, ps, i, u);
    StaysLost(schema, read, x, rs, ps, i + 1, u);
  }

  /** The record that an update replaces is the one the table had before all updates. */
  lemma {:induction false} ReplacedReads(schema: Schema, read: Reader, x: Indexes, t: Table, rs: seq<Rec>,
                                         ps: seq<Pointer>, i: nat)
    requires Agrees(schema, read, x, t) && DistinctIds(rs) && |ps| == |rs| && i < |rs|
    requires forall i :: 0 <= i < |rs| ==> rs[i].id in t && read(ps[i]) == Some(rs[i])
    ensures ReadCommitted(ReplaceAll(x, schema, read, rs[..i], ps[..i]), read, rs[i].id) == Some(t[rs[i].id])
  {
    var init, ps' := rs[..i], ps[..i];
    assert forall j :: 0 <= j < i ==> init[j] == rs[j] && ps'[j] == ps[j];
    ReplaceAllAgrees(schema, read, x, t, init, ps');
    PutRecsAt(t, init, rs[i].id);
  }

  lemma {:induction false} ReplacesCommitted(schema: Schema, read: Reader, x: Indexes, committed: Table, c: Changes,
                                             o: Order, ps: seq<Pointer>, i: nat)
    requires Proper(committed, c) && Follows(o, c) && Agrees(schema, read, x, committed) && Written(read, o, ps)
    requires i < |o.updates|
    ensures var n := |o.inserts|;
            ReadCommitted(ReplaceAll(Entered(x, schema, read, c, o, ps), schema, read, o.updates[..i], ps[n..][..i]),
                          read, o.updates[i].id) ==
            Some(committed[o.updates[i].id])
  {
    var t2 := PutRecs(Minus(if c.cleared then map[] else committed, o.deletes), o.inserts);
    EnteredAgrees(schema, read, x, committed, c, o, ps);
    UpdatesReady(read, committed, c, o, ps);
    ReplacedReads(schema, read, Entered(x, schema, read, c, o, ps), t2, o.updates, ps[|o.inserts|..], i);
    UpdatePresent(committed, c, o, i);
  }

  /** Who took the entry keeps it in the view, and no later update writes it. */
  lemma {:induction false} Taker(schema: Schema, committed: Table, c: Changes, o: Order, i: nat, u: Entry)
    requires Proper(committed, c) && Follows(o, c) && NoDuplicates(schema, View(committed, c)) && i < |o.updates|
    requires TakenBefore(schema, o, i, u)
    ensures HeldBySome(schema, View(committed, c), u)
    ensures forall l :: i <= l < |o.updates| ==> u !in UniquesOf(schema, o.updates[l])
  {
    var v := View(committed, c);
    var k: Value;
    if j :| 0 <= j < |o.inserts| && u in UniquesOf(schema, o.inserts[j]) {
      k := o.inserts[j].id;
    } else {
      var j :| 0 <= j < i && u in UniquesOf(schema, o.updates[j]);
      k := o.updates[j].id;
    }
    assert Holds(schema, v, k, u);
    forall l | i <= l < |o.updates|
      ensures u !in UniquesOf(schema, o.updates[l])
    {
      assert o.updates[l].id in v && v[o.updates[l].id] == o.updates[l] && o.updates[l].id != k;
      assert u in UniquesOf(schema, o.updates[l]) ==> Holds(schema, v, o.updates[l].id, u);
    }
  }

  /**
   The unique indexes after a commit agree with the view of the transaction if and only if no update
   gives up a value that an insertion or an earlier update has taken.
   */
  lemma {:induction false} UniqueAfterCommit(schema: Schema, read: Reader, x: Indexes, committed: Table, c: Changes,
                                             o: Order, ps: seq<Pointer>)
    requires Proper(committed, c) && Follows(o, c) && Agrees(schema, read, x, committed) && Written(read, o, ps)
    requires UniqueAgrees(schema, x, committed) && NoDuplicates(schema, committed)
    requires NoDuplicates(schema, View(committed, c))
    ensures UniqueAgrees(schema, Applied(x, schema, read, c, o, ps), View(committed, c)) <==>
            !HandOff(schema, committed, o)
  {
    if HandOff(schema, committed, o) {
      var i: nat, u :| HandsOver(schema, committed, o, i, u);
      HandOverLoses(schema, read, x, committed, c, o, ps, i, u);
    } else {
      NoHandOver(schema, read, x, committed, c, o, ps);
    }
  }

  lemma {:induction false} HandOverLoses(schema: Schema, read: Reader, x: Indexes, committed: Table, c: Changes,
                                         o: Order, ps: seq<Pointer>, i: nat, u: Entry)
    requires Proper(committed, c) && Follows(o, c) && Agrees(schema, read, x, committed) && Written(read, o, ps)
    requires NoDuplicates(schema, View(committed, c)) && HandsOver(schema, committed, o, i, u)
    ensures !UniqueAgrees(schema, Applied(x, schema, read, c, o, ps), View(committed, c))
  {
    Taker(schema, committed, c, o, i, u);
    ReplacesCommitted(schema, read, x, committed, c, o, ps, i);
    EntryLost(schema, read, Entered(x, schema, read, c, o, ps), o.updates, ps[|o.inserts|..], i, u);
    var k :| Holds(schema, View(committed, c), k, u);
  }

  // ---------------------------------------------------------------- every order

  /** Staged record `j`, other than the update of `k`, takes entry `u`. */
  ghost predicate TakenBy(schema: Schema, c: Changes, j: Value, k: Value, u: Entry) {
    || (j in c.inserts && u in UniquesOf(schema, c.inserts[j]))
    || (j in c.updates && j != k && u in UniquesOf(schema, c.updates[j]))
  }

  ghost predicate HandedOver(schema: Schema, committed: Table, c: Changes, j: Value, k: Value, u: Entry) {
    k in c.updates && k in committed && u in UniquesOf(schema, committed[k]) && TakenBy(schema, c, j, k, u)
  }

  /** Some update gives up a value that another staged record takes. */
  ghost predicate ValueHandedOver(schema: Schema, committed: Table, c: Changes) {
    exists j, k, u :: HandedOver(schema, committed, c, j, k, u)
  }

  lemma {:induction false} OrderHandsOver(schema: Schema, committed: Table, c: Changes, o: Order)
    requires Follows(o, c) && HandOff(schema, committed, o)
    ensures ValueHandedOver(schema, committed, c)
  {
    var i: nat, u :| HandsOver(schema, committed, o, i, u);
    var k := o.updates[i].id;
    if j :| 0 <= j < |o.inserts| && u in UniquesOf(schema, o.inserts[j]) {
      assert HandedOver(schema, committed, c, o.inserts[j].id, k, u);
    } else {
      var j :| 0 <= j < i && u in UniquesOf(schema, o.updates[j]);
      assert HandedOver(schema, committed, c, o.updates[j].id, k, u);
    }
  }

  /** A table can be listed, and any of its records may come first. */
  lemma {:induction false} ListIt(t: Table) returns (rs: seq<Rec>)
    requires Filed(t)
    ensures ListsTable(rs, t)
    decreases |t|
  {
    if t == map[] {
      rs := [];
    } else {
      var k :| k in t;
      rs := ListFrom(t, k);
    }
  }

  lemma {:induction false} ListFrom(t: Table, k: Value) returns (rs: seq<Rec>)
    requires Filed(t) && k in t
    ensures ListsTable(rs, t) && rs != [] && rs[0] == t[k]
    decreases |t|, 0
  {
    assert |t - {k}| < |t| by { assert t.Keys == (t - {k}).Keys + {k}; }
    var rest := ListIt(t - {k});
    rs := [t[k]] + rest;
    ListCons(t, k, rest);
  }

  lemma {:induction false} ListCons(t: Table, k: Value, rest: seq<Rec>)
    requires Filed(t) && k in t && ListsTable(rest, t - {k})
    ensures ListsTable([t[k]] + rest, t)
  {
    var rs := [t[k]] + rest;
    forall i | 0 <= i < |rs|
      ensures rs[i].id in t && t[rs[i].id] == rs[i]
    {
      if i > 0 {
        assert rs[i] == rest[i - 1];
      }
    }
    ConsDistinct(t[k], rest);
    forall j | j in t
      ensures exists i :: 0 <= i < |rs| && rs[i].id == j
    {
      var i := ConsAt(t, k, rest, j);
      assert rs[i].id == j;
    }
  }

  lemma {:induction false} ConsDistinct(r: Rec, rest: seq<Rec>)
    requires DistinctIds(rest) && forall i :: 0 <= i < |rest| ==> rest[i].id != r.id
    ensures DistinctIds([r] + rest)
  {
  }

  lemma {:induction false} ConsAt(t: Table, k: Value, rest: seq<Rec>, j: Value) returns (i: nat)
    requires Filed(t) && k in t && j in t && ListsTable(rest, t - {k})
    ensures i < |[t[k]] + rest| && ([t[k]] + rest)[i].id == j
  {
    if j == k {
      i := 0;
    } else {
      assert j in t - {k};
      var l :| 0 <= l < |rest| && rest[l].id == j;
      i := l + 1;
    }
  }

  lemma {:induction false} ListKeys(s: set<Value>) returns (ks: seq<Value>)
    ensures ListsSet(ks, s)
    decreases |s|
  {
    if s == {} {
      ks := [];
    } else {
      var k :| k in s;
      var rest := ListKeys(s - {k});
      ks := [k] + rest;
    }
  }

  /** An order in which the taking record comes before the giving update. */
  lemma {:induction false} OrderWith(committed: Table, c: Changes, j: Value) returns (o: Order)
    requires Proper(committed, c)
    ensures Follows(o, c) && (j in c.updates ==> o.updates != [] && o.updates[0] == c.updates[j])
  {
    var deletes := ListKeys(c.deletes);
    var inserts := ListIt(c.inserts);
    var updates;
    if j in c.updates {
      updates := ListFrom(c.updates, j);
    } else {
      updates := ListIt(c.updates);
    }
    o := Order(deletes, inserts, updates);
  }

  lemma {:induction false} SomeOrderHandsOver(schema: Schema, committed: Table, c: Changes) returns (o: Order)
    requires Proper(committed, c) && ValueHandedOver(schema, committed, c)
    ensures Follows(o, c) && HandOff(schema, committed, o)
  {
    var j, k, u :| HandedOver(schema, committed, c, j, k, u);
    o := OrderWith(committed, c, j);
    var i: nat :| i < |o.updates| && o.updates[i].id == k;
    if j in c.inserts && u in UniquesOf(schema, c.inserts[j]) {
      var l :| 0 <= l < |o.inserts| && o.inserts[l].id == j;
      assert u in UniquesOf(schema, o.inserts[l]);
    } else {
      assert u in UniquesOf(schema, o.updates[0]);
    }
    assert TakenBefore(schema, o, i, u);
    assert HandsOver(schema, committed, o, i, u);
  }
}
