/**
 A commit as calls on the index file: the deletions, insertions and updates of `CommitApply`, key by key. The trees
 end up spelling the maps, every deletion hits a key that is there, and so the only thing that can go
 wrong on the pages is the index error of a borrow.
 */
module CommitCalls {
  import opened Options
  import opened KeyOrder
  import opened PageFormat
  import opened Values
  import opened Records
  import opened ShadowIndex
  import opened Overlay
  import opened UniqueCheck
  import opened CommitApply
  import opened TreeOrder
  import opened TreeDelete
  import opened IndexFile
  import opened IndexLookup
  import opened IndexCalls

  function LeaveAllCalls(x: Indexes, schema: Schema, read: Reader, ks: seq<Value>, g: nat): seq<Op>
    decreases |ks|
  {
    if ks == [] then []
    else
      var init, k := ks[..|ks| - 1], ks[|ks| - 1];
      LeaveAllCalls(x, schema, read, init, g) +
        DeleteCalls(schema, k, ReadCommitted(LeaveAll(x, schema, read, init), read, k), g)
  }

  function EnterAllCalls(schema: Schema, rs: seq<Rec>, ps: seq<Pointer>, g: nat): seq<Op>
    requires |ps| == |rs|
    decreases |rs|
  {
    if rs == [] then []
    else EnterAllCalls(schema, rs[..|rs| - 1], ps[..|rs| - 1], g) + InsertCalls(schema, rs[|rs| - 1], ps[|rs| - 1], g)
  }

  function ReplaceAllCalls(x: Indexes, schema: Schema, read: Reader, rs: seq<Rec>, ps: seq<Pointer>, g: nat): seq<Op>
    requires |ps| == |rs|
    decreases |rs|
  {
    if rs == [] then []
    else
      var n := |rs| - 1;
      var y, r := ReplaceAll(x, schema, read, rs[..n], ps[..n]), rs[n];
      ReplaceAllCalls(x, schema, read, rs[..n], ps[..n], g) +
      (DeleteCalls(schema, r.id, ReadCommitted(y, read, r.id), g) + InsertCalls(schema, r, ps[n], g))
  }

  /** All calls of a commit; a clearing starts with an empty file. */
  function CallsOf(x: Indexes, schema: Schema, read: Reader, c: Changes, o: Order, ps: seq<Pointer>, g: nat): seq<Op>
    requires |ps| == |o.inserts| + |o.updates|
  {
    var n := |o.inserts|;
    LeaveAllCalls(if c.cleared then EMPTY else x, schema, read, o.deletes, g) +
    (EnterAllCalls(schema, o.inserts, ps[..n], g) +
     ReplaceAllCalls(Entered(x, schema, read, c, o, ps), schema, read, o.updates, ps[n..], g))
  }

  // ---------------------------------------------------------------- what every step keeps

  ghost predicate KindedTable(kinds: Kinds, schema: Schema, t: Table) {
    forall k :: k in t ==> KindedRec(kinds, schema, t[k], k)
  }

  ghost predicate KindedAll(kinds: Kinds, schema: Schema, rs: seq<Rec>) {
    forall i :: 0 <= i < |rs| ==> KindedRec(kinds, schema, rs[i], rs[i].id)
  }

  /** The trees spell the indexes, in keys of their kinds. */
  ghost predicate Spelled(kinds: Kinds, m: Meaning, schema: Schema, x: Indexes) {
    Spells(m, schema, x) && Kinded(kinds, x)
  }

  /** Calls that hit and lead to trees that spell `x`. */
  ghost predicate Leads(kinds: Kinds, m: Meaning, schema: Schema, ops: seq<Op>, x: Indexes) {
    Spelled(kinds, ApplyAll(m, ops), schema, x) && AllHit(m, ops)
  }

  lemma {:induction false} LeadsOn(kinds: Kinds, m: Meaning, schema: Schema, a: seq<Op>, b: seq<Op>, x: Indexes)
    requires AllHit(m, a) && Leads(kinds, ApplyAll(m, a), schema, b, x)
    ensures Leads(kinds, m, schema, a + b, x)
  {
    ApplyConcat(m, a, b);
    HitConcat(m, a, b);
  }

  lemma {:induction false} EnterLeads(kinds: Kinds, m: Meaning, schema: Schema, x: Indexes, r: Rec, p: Pointer, g: nat)
    requires ProperNames(schema) && Spelled(kinds, m, schema, x) && KindedRec(kinds, schema, r, r.id)
    ensures Leads(kinds, m, schema, InsertCalls(schema, r, p, g), Enter(x, schema, r, p))
  {
    InsertSpells(kinds, m, schema, x, r, p, g);
    EnterKinded(kinds, schema, x, r, p);
  }

  lemma {:induction false} LeaveLeads(kinds: Kinds, m: Meaning, schema: Schema, x: Indexes, r: Rec, id: Value, g: nat)
    requires ProperNames(schema) && Spelled(kinds, m, schema, x) && KindedRec(kinds, schema, r, id)
    requires HasEntries(schema, x, r, id)
    ensures Leads(kinds, m, schema, DeleteCalls(schema, id, Some(r), g), Leave(x, schema, id, Some(r)))
  {
    DeleteSpells(kinds, m, schema, x, r, id, g);
    LeaveKinded(kinds, schema, x, id, Some(r));
  }

  /** The unique values of every record are in the index. */
  ghost predicate Covers(schema: Schema, x: Indexes, t: Table) {
    forall k :: k in t ==> UniquesOf(schema, t[k]) <= x.unique.Keys
  }

  lemma {:induction false} AgreeCovers(schema: Schema, x: Indexes, t: Table)
    requires UniqueAgrees(schema, x, t)
    ensures Covers(schema, x, t)
  {
    forall k, u | k in t && u in UniquesOf(schema, t[k])
      ensures u in x.unique
    {
      assert Holds(schema, t, k, u);
    }
  }

  /** A record that leaves takes no value of another one with it. */
  lemma {:induction false} LeaveCovers(schema: Schema, x: Indexes, t: Table, k: Value)
    requires Covers(schema, x, t) && NoDuplicates(schema, t) && k in t
    ensures Covers(schema, Leave(x, schema, k, Some(t[k])), t - {k})
  {
    forall j, u | j in t - {k} && u in UniquesOf(schema, t[j])
      ensures u !in UniquesOf(schema, t[k])
    {
      assert Holds(schema, t, j, u);
      assert u in UniquesOf(schema, t[k]) ==> Holds(schema, t, k, u);
    }
  }

  /** A record of a table that the indexes agree with has its entries in them. */
  lemma {:induction false} AgreeEntered(schema: Schema, read: Reader, x: Indexes, t: Table, k: Value)
    requires Agrees(schema, read, x, t) && k in t && UniquesOf(schema, t[k]) <= x.unique.Keys
    ensures HasEntries(schema, x, t[k], k) && ReadCommitted(x, read, k) == Some(t[k])
  {
    forall e | e in PairsOf(schema, t[k], k)
      ensures e in x.pairs
    {
      assert e.2 == k;
    }
  }

  // ---------------------------------------------------------------- deletions

  lemma {:induction false} LeaveAllLeads(kinds: Kinds, m: Meaning, schema: Schema, read: Reader, x: Indexes, t: Table,
                                         ks: seq<Value>, g: nat)
    requires ProperNames(schema) && Spelled(kinds, m, schema, x) && KindedTable(kinds, schema, t)
    requires Agrees(schema, read, x, t) && Covers(schema, x, t) && NoDuplicates(schema, t)
    requires (forall i, j :: 0 <= i < j < |ks| ==> ks[i] != ks[j]) && forall i :: 0 <= i < |ks| ==> ks[i] in t
    ensures Leads(kinds, m, schema, LeaveAllCalls(x, schema, read, ks, g), LeaveAll(x, schema, read, ks))
    ensures Covers(schema, LeaveAll(x, schema, read, ks), Minus(t, ks)) && NoDuplicates(schema, Minus(t, ks))
    decreases |ks|
  {
    if ks != [] {
      var init, k := ks[..|ks| - 1], ks[|ks| - 1];
      var y, calls := LeaveAll(x, schema, read, init), LeaveAllCalls(x, schema, read, init, g);
      LeaveAllLeads(kinds, m, schema, read, x, t, init, g);
      LeaveAllAgrees(schema, read, x, t, init);
      MinusAt(t, init, k);
      AgreeEntered(schema, read, y, Minus(t, init), k);
      LeaveLeads(kinds, ApplyAll(m, calls), schema, y, t[k], k, g);
      LeadsOn(kinds, m, schema, calls, DeleteCalls(schema, k, Some(t[k]), g), LeaveAll(x, schema, read, ks));
      LeaveCovers(schema, y, Minus(t, init), k);
      Fewer(schema, Minus(t, init), k);
    }
  }

  lemma {:induction false} Fewer(schema: Schema, t: Table, k: Value)
    requires NoDuplicates(schema, t)
    ensures NoDuplicates(schema, t - {k})
  {
    forall i, j, u | Holds(schema, t - {k}, i, u) && Holds(schema, t - {k}, j, u)
      ensures i == j
    {
      assert Holds(schema, t, i, u) && Holds(schema, t, j, u);
    }
  }

  // ---------------------------------------------------------------- insertions

  lemma {:induction false} EnterAllLeads(kinds: Kinds, m: Meaning, schema: Schema, x: Indexes, rs: seq<Rec>,
                                         ps: seq<Pointer>, g: nat)
    requires ProperNames(schema) && Spelled(kinds, m, schema, x) && KindedAll(kinds, schema, rs) && |ps| == |rs|
    ensures Leads(kinds, m, schema, EnterAllCalls(schema, rs, ps, g), EnterAll(x, schema, rs, ps))
    ensures x.unique.Keys <= EnterAll(x, schema, rs, ps).unique.Keys
    decreases |rs|
  {
    if rs != [] {
      var n := |rs| - 1;
      var calls := EnterAllCalls(schema, rs[..n], ps[..n], g);
      EnterAllLeads(kinds, m, schema, x, rs[..n], ps[..n], g);
      EnterLeads(kinds, ApplyAll(m, calls), schema, EnterAll(x, schema, rs[..n], ps[..n]), rs[n], ps[n], g);
      LeadsOn(kinds, m, schema, calls, InsertCalls(schema, rs[n], ps[n], g), EnterAll(x, schema, rs, ps));
    }
  }

  // ---------------------------------------------------------------- updates

  /** The old values of the updates from position `n` on are still in the index. */
  ghost predicate OldCovered(schema: Schema, x: Indexes, old_: Table, rs: seq<Rec>, n: nat) {
    forall i :: n <= i < |rs| && rs[i].id in old_ ==> UniquesOf(schema, old_[rs[i].id]) <= x.unique.Keys
  }

  lemma {:induction false} ReplaceCovers(schema: Schema, x: Indexes, old_: Table, rs: seq<Rec>, n: nat, p: Pointer)
    requires NoDuplicates(schema, old_) && DistinctIds(rs) && n < |rs| && rs[n].id in old_
    requires OldCovered(schema, x, old_, rs, n)
    ensures OldCovered(schema, Enter(Leave(x, schema, rs[n].id, Some(old_[rs[n].id])), schema, rs[n], p), old_, rs,
                       n + 1)
  {
    forall i, u | n < i < |rs| && rs[i].id in old_ && u in UniquesOf(schema, old_[rs[i].id])
      ensures u in x.unique && u !in UniquesOf(schema, old_[rs[n].id])
    {
      assert Holds(schema, old_, rs[i].id, u);
      assert u in UniquesOf(schema, old_[rs[n].id]) ==> Holds(schema, old_, rs[n].id, u);
    }
  }

  /** The updates replace records of the table `old_`, as `t` still has them. */
  ghost predicate Replaces(schema: Schema, old_: Table, t: Table, rs: seq<Rec>) {
    DistinctIds(rs) && forall i :: 0 <= i < |rs| ==> rs[i].id in t && rs[i].id in old_ && t[rs[i].id] == old_[rs[i].id]
  }

  lemma {:induction false} ReplaceAllLeads(kinds: Kinds, m: Meaning, schema: Schema, read: Reader, x: Indexes,
                                           old_: Table, t: Table, rs: seq<Rec>, ps: seq<Pointer>, n: nat, g: nat)
    requires n <= |rs| == |ps| && ProperNames(schema) && Spelled(kinds, m, schema, x)
    requires KindedTable(kinds, schema, old_) && KindedAll(kinds, schema, rs)
    requires Agrees(schema, read, x, t) && Replaces(schema, old_, t, rs)
    requires forall i :: 0 <= i < |rs| ==> read(ps[i]) == Some(rs[i])
    requires NoDuplicates(schema, old_) && OldCovered(schema, x, old_, rs, 0)
    ensures Leads(kinds, m, schema, ReplaceAllCalls(x, schema, read, rs[..n], ps[..n], g),
                  ReplaceAll(x, schema, read, rs[..n], ps[..n]))
    ensures OldCovered(schema, ReplaceAll(x, schema, read, rs[..n], ps[..n]), old_, rs, n)
    decreases n
  {
    if n > 0 {
      var k, r := n - 1, rs[n - 1];
      var init, ps' := rs[..k], ps[..k];
      assert rs[..n][..k] == init && ps[..n][..k] == ps';
      var y, calls := ReplaceAll(x, schema, read, init, ps'), ReplaceAllCalls(x, schema, read, init, ps', g);
      ReplaceAllLeads(kinds, m, schema, read, x, old_, t, rs, ps, k, g);
      ReplaceAllAgrees(schema, read, x, t, init, ps');
      PutRecsAt(t, init, r.id);
      AgreeEntered(schema, read, y, PutRecs(t, init), r.id);
      ReplaceLeads(kinds, ApplyAll(m, calls), schema, y, old_[r.id], r, ps[k], g);
      LeadsOn(kinds, m, schema, calls,
              DeleteCalls(schema, r.id, Some(old_[r.id]), g) + InsertCalls(schema, r, ps[k], g),
              Enter(Leave(y, schema, r.id, Some(old_[r.id])), schema, r, ps[k]));
      ReplaceCovers(schema, y, old_, rs, k, ps[k]);
    }
  }

  /** One update. */
  lemma {:induction false} ReplaceLeads(kinds: Kinds, m: Meaning, schema: Schema, x: Indexes, old_: Rec, r: Rec,
                                        p: Pointer, g: nat)
    requires ProperNames(schema) && Spelled(kinds, m, schema, x) && HasEntries(schema, x, old_, r.id)
    requires KindedRec(kinds, schema, old_, r.id) && KindedRec(kinds, schema, r, r.id)
    ensures Leads(kinds, m, schema, DeleteCalls(schema, r.id, Some(old_), g) + InsertCalls(schema, r, p, g),
                  Enter(Leave(x, schema, r.id, Some(old_)), schema, r, p))
  {
    var calls := DeleteCalls(schema, r.id, Some(old_), g);
    LeaveLeads(kinds, m, schema, x, old_, r.id, g);
    EnterLeads(kinds, ApplyAll(m, calls), schema, Leave(x, schema, r.id, Some(old_)), r, p, g);
    LeadsOn(kinds, m, schema, calls, InsertCalls(schema, r, p, g),
            Enter(Leave(x, schema, r.id, Some(old_)), schema, r, p));
  }

  // ---------------------------------------------------------------- a commit

  ghost predicate KindedChanges(kinds: Kinds, schema: Schema, committed: Table, c: Changes) {
    KindedTable(kinds, schema, committed) && KindedTable(kinds, schema, c.inserts)
      && KindedTable(kinds, schema, c.updates)
  }

  /** What the named trees hold before the calls of a commit. */
  function Before(m: Meaning, c: Changes): Meaning {
    if c.cleared then map[] else m
  }

  /** The state before the calls of a commit: as it was, or empty. */
  lemma {:induction false} StartReady(kinds: Kinds, m: Meaning, schema: Schema, read: Reader, x: Indexes,
                                      committed: Table, c: Changes)
    requires Spelled(kinds, m, schema, x) && KindedTable(kinds, schema, committed)
    requires Agrees(schema, read, x, committed) && UniqueAgrees(schema, x, committed) && NoDuplicates(schema, committed)
    ensures var x0, t0 := if c.cleared then EMPTY else x, if c.cleared then map[] else committed;
            && Spelled(kinds, Before(m, c), schema, x0) && KindedTable(kinds, schema, t0)
            && Agrees(schema, read, x0, t0) && Covers(schema, x0, t0) && NoDuplicates(schema, t0)
  {
    EmptyAgrees(schema, read);
    AgreeCovers(schema, if c.cleared then EMPTY else x, if c.cleared then map[] else committed);
  }

  /** After the deletions and insertions. */
  lemma {:induction false} EnteredLeads(kinds: Kinds, m: Meaning, schema: Schema, read: Reader, x: Indexes,
                                        committed: Table, c: Changes, o: Order, ps: seq<Pointer>, g: nat)
    requires ProperNames(schema) && Spelled(kinds, m, schema, x) && KindedChanges(kinds, schema, committed, c)
    requires Proper(committed, c) && Follows(o, c) && Agrees(schema, read, x, committed) && Written(read, o, ps)
    requires UniqueAgrees(schema, x, committed) && NoDuplicates(schema, committed)
    ensures var x0, n := if c.cleared then EMPTY else x, |o.inserts|;
            Leads(kinds, Before(m, c), schema,
                  LeaveAllCalls(x0, schema, read, o.deletes, g) + EnterAllCalls(schema, o.inserts, ps[..n], g),
                  Entered(x, schema, read, c, o, ps))
    ensures OldCovered(schema, Entered(x, schema, read, c, o, ps), committed, o.updates, 0)
  {
    var x0, t0 := if c.cleared then EMPTY else x, if c.cleared then map[] else committed;
    var n, m0 := |o.inserts|, Before(m, c);
    StartReady(kinds, m, schema, read, x, committed, c);
    var calls, y := LeaveAllCalls(x0, schema, read, o.deletes, g), LeaveAll(x0, schema, read, o.deletes);
    LeaveAllLeads(kinds, m0, schema, read, x0, t0, o.deletes, g);
    EnterAllLeads(kinds, ApplyAll(m0, calls), schema, y, o.inserts, ps[..n], g);
    LeadsOn(kinds, m0, schema, calls, EnterAllCalls(schema, o.inserts, ps[..n], g), Entered(x, schema, read, c, o, ps));
    UpdatesCovered(schema, y, committed, c, o);
  }

  lemma {:induction false} UpdatesCovered(schema: Schema, y: Indexes, committed: Table, c: Changes, o: Order)
    requires Proper(committed, c) && Follows(o, c)
    requires Covers(schema, y, Minus(if c.cleared then map[] else committed, o.deletes))
    ensures OldCovered(schema, y, committed, o.updates, 0)
  {
    forall i | 0 <= i < |o.updates|
      ensures UniquesOf(schema, committed[o.updates[i].id]) <= y.unique.Keys
    {
      MinusAt(committed, o.deletes, o.updates[i].id);
    }
  }

  /** The updates, from what the deletions and insertions led to. */
  lemma {:induction false} UpdatesLead(kinds: Kinds, m: Meaning, schema: Schema, read: Reader, x: Indexes,
                                       committed: Table, c: Changes, o: Order, ps: seq<Pointer>, g: nat)
    requires ProperNames(schema) && KindedChanges(kinds, schema, committed, c)
    requires Proper(committed, c) && Follows(o, c) && Agrees(schema, read, x, committed) && Written(read, o, ps)
    requires Spelled(kinds, m, schema, Entered(x, schema, read, c, o, ps))
    requires NoDuplicates(schema, committed)
    requires OldCovered(schema, Entered(x, schema, read, c, o, ps), committed, o.updates, 0)
    ensures Leads(kinds, m, schema,
                  ReplaceAllCalls(Entered(x, schema, read, c, o, ps), schema, read, o.updates, ps[|o.inserts|..], g),
                  Applied(x, schema, read, c, o, ps))
  {
    var y, qs := Entered(x, schema, read, c, o, ps), ps[|o.inserts|..];
    var t := PutRecs(Minus(if c.cleared then map[] else committed, o.deletes), o.inserts);
    EnteredAgrees(schema, read, x, committed, c, o, ps);
    UpdatesReady(read, committed, c, o, ps);
    UpdatesReplace(schema, committed, c, o);
    assert o.updates[..|o.updates|] == o.updates && qs[..|o.updates|] == qs;
    ReplaceAllLeads(kinds, m, schema, read, y, committed, t, o.updates, qs, |o.updates|, g);
  }

  lemma {:induction false} Regroup(a: seq<Op>, b: seq<Op>, c: seq<Op>)
    ensures a + b + c == a + (b + c)
  {
  }

  /** Running the calls of a commit makes the trees spell the indexes of the commit, and every deletion hits. */
  lemma {:induction false} CommitLeads(kinds: Kinds, m: Meaning, schema: Schema, read: Reader, x: Indexes,
                                       committed: Table, c: Changes, o: Order, ps: seq<Pointer>, g: nat)
    requires ProperNames(schema) && Spelled(kinds, m, schema, x) && KindedChanges(kinds, schema, committed, c)
    requires Proper(committed, c) && Follows(o, c) && Agrees(schema, read, x, committed) && Written(read, o, ps)
    requires UniqueAgrees(schema, x, committed) && NoDuplicates(schema, committed)
    ensures Leads(kinds, Before(m, c), schema, CallsOf(x, schema, read, c, o, ps, g),
                  Applied(x, schema, read, c, o, ps))
  {
    var n, m0, x0 := |o.inserts|, Before(m, c), if c.cleared then EMPTY else x;
    var a, b := LeaveAllCalls(x0, schema, read, o.deletes, g), EnterAllCalls(schema, o.inserts, ps[..n], g);
    var d := ReplaceAllCalls(Entered(x, schema, read, c, o, ps), schema, read, o.updates, ps[n..], g);
    EnteredLeads(kinds, m, schema, read, x, committed, c, o, ps, g);
    UpdatesLead(kinds, ApplyAll(m0, a + b), schema, read, x, committed, c, o, ps, g);
    LeadsOn(kinds, m0, schema, a + b, d, Applied(x, schema, read, c, o, ps));
    Regroup(a, b, d);
  }

  lemma {:induction false} UpdatesReplace(schema: Schema, committed: Table, c: Changes, o: Order)
    requires Proper(committed, c) && Follows(o, c)
    ensures Replaces(schema, committed, PutRecs(Minus(if c.cleared then map[] else committed, o.deletes), o.inserts),
                     o.updates)
  {
    forall i | 0 <= i < |o.updates|
      ensures var t := PutRecs(Minus(if c.cleared then map[] else committed, o.deletes), o.inserts);
              o.updates[i].id in t && o.updates[i].id in committed && t[o.updates[i].id] == committed[o.updates[i].id]
    {
      UpdatePresent(committed, c, o, i);
    }
  }

  // ---------------------------------------------------------------- on the pages

  /** No deletion of the run stops with the index error of a borrow. */
  ghost predicate NoBorrowFails(cmp: Cmp, f: File, ops: seq<Op>)
    requires ValidFile(cmp, f)
    decreases |ops|
  {
    ops == [] ||
    (!(ops[0].Drop? && ops[0].name in f.trees && BorrowFails(cmp, f.trees[ops[0].name], ops[0].key)) &&
     match Step(cmp, f, ops[0])
     case Failed => true
     case Ok(f') => ValidFile(cmp, f') ==> NoBorrowFails(cmp, f', ops[1..]))
  }

  /** If all deletions hit, they are safe for the pages exactly if none of them fails in a borrow. */
  lemma {:induction false} HitsAreSafe(cmp: Cmp, f: File, ops: seq<Op>)
    requires TotalOrder(cmp) && Sound(cmp, f) && AllHit(MeaningOf(f), ops)
    ensures SafeRun(cmp, f, ops) <==> NoBorrowFails(cmp, f, ops)
    decreases |ops|
  {
    if ops != [] {
      StepSound(cmp, f, ops[0]);
      if Safe(cmp, f, ops[0]) {
        HitsAreSafe(cmp, Step(cmp, f, ops[0]).f, ops[1..]);
      }
    }
  }

  /**
   A commit on the index file: unless a borrow fails it goes through, every page keeps one owner, and the
   trees spell the indexes that `CommitApply.Applied` describes.
   */
  lemma {:induction false} CommitOnFile(cmp: Cmp, kinds: Kinds, m: Meaning, f: File, schema: Schema, read: Reader,
                                        x: Indexes, committed: Table, c: Changes, o: Order, ps: seq<Pointer>, g: nat)
    requires TotalOrder(cmp) && Sound(cmp, f) && MeaningOf(f) == Before(m, c)
    requires ProperNames(schema) && Spelled(kinds, m, schema, x) && KindedChanges(kinds, schema, committed, c)
    requires Proper(committed, c) && Follows(o, c) && Agrees(schema, read, x, committed) && Written(read, o, ps)
    requires UniqueAgrees(schema, x, committed) && NoDuplicates(schema, committed)
    ensures var calls := CallsOf(x, schema, read, c, o, ps, g);
            && (SafeRun(cmp, f, calls) <==> NoBorrowFails(cmp, f, calls))
            && (NoBorrowFails(cmp, f, calls) ==>
                  var r := Run(cmp, f, calls);
                  r.Ok? && Sound(cmp, r.f) && Spelled(kinds, MeaningOf(r.f), schema,
                                                      Applied(x, schema, read, c, o, ps)))
  {
    var calls := CallsOf(x, schema, read, c, o, ps, g);
    CommitLeads(kinds, m, schema, read, x, committed, c, o, ps, g);
    HitsAreSafe(cmp, f, calls);
    if NoBorrowFails(cmp, f, calls) {
      RunSound(cmp, f, calls);
    }
  }
}
