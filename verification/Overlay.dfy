/**
 The staged changes of a transaction on one table, over the committed records.

 The program keeps three collections and a flag and never the resulting table. The methods are
 proved to act like operations on that table: each succeeds exactly when the operation on a map
 would, and has its effect.
 */
module Overlay {
  import opened Options
  import opened Values
  import opened Records

  datatype Changes = Changes(cleared: bool, inserts: Table, updates: Table, deletes: set<Value>)

  /** The table as the transaction sees it. */
  function View(committed: Table, c: Changes): Table {
    if c.cleared then c.inserts else (committed - c.deletes) + c.updates + c.inserts
  }

  /** What every call keeps. */
  ghost predicate Proper(committed: Table, c: Changes) {
    && Filed(committed) && Filed(c.inserts) && Filed(c.updates)
    && c.inserts.Keys !! c.updates.Keys && c.updates.Keys !! c.deletes
    && c.updates.Keys <= committed.Keys && c.deletes <= committed.Keys
    && (!c.cleared ==> forall k :: k in c.inserts ==> k !in committed || k in c.deletes)
    && (c.cleared ==> c.updates == map[] && c.deletes == {})
  }

  /** The calls on a table. */
  datatype Call = Insert(r: Rec) | Update(r: Rec) | Upsert(r: Rec) | Delete(id: Value) | Clear

  /** Whether a call succeeds on a map. Deleting an absent id is no error. */
  predicate Accepts(t: Table, call: Call) {
    match call
    case Insert(r) => r.id != Nil && r.id !in t
    case Update(r) => r.id != Nil && r.id in t
    case Upsert(r) => r.id != Nil
    case Delete(_) => true
    case Clear => true
  }

  /** What a successful call does to a map. */
  function Effect(t: Table, call: Call): Table {
    match call
    case Insert(r) => t[r.id := r]
    case Update(r) => t[r.id := r]
    case Upsert(r) => t[r.id := r]
    case Delete(id) => t - {id}
    case Clear => map[]
  }

  function EffectIf(t: Table, call: Call): Table {
    if Accepts(t, call) then Effect(t, call) else t
  }

  lemma {:induction false} StageInsert(committed: Table, c: Changes, r: Rec)
    requires Proper(committed, c) && r.id != Nil && r.id !in View(committed, c)
    ensures var c' := c.(inserts := c.inserts[r.id := r]);
            Proper(committed, c') && View(committed, c') == View(committed, c)[r.id := r]
  {
  }

  /** How an update is staged, and a deletion. */
  function Updated(c: Changes, r: Rec): Changes {
    if r.id in c.inserts then c.(inserts := c.inserts[r.id := r]) else c.(updates := c.updates[r.id := r])
  }

  function Removed(c: Changes, id: Value): Changes {
    if id in c.inserts then c.(inserts := c.inserts - {id})
    else c.(updates := c.updates - {id}, deletes := c.deletes + {id})
  }

  lemma {:induction false} StageUpdate(committed: Table, c: Changes, r: Rec)
    requires Proper(committed, c) && r.id != Nil && r.id in View(committed, c)
    ensures Proper(committed, Updated(c, r))
    ensures View(committed, Updated(c, r)) == View(committed, c)[r.id := r]
  {
    if r.id in c.inserts {
      UpdateInserted(committed, c, r);
    } else {
      UpdateCommitted(committed, c, r);
    }
  }

  lemma {:induction false} UpdateInserted(committed: Table, c: Changes, r: Rec)
    requires Proper(committed, c) && r.id != Nil && r.id in c.inserts
    ensures Proper(committed, Updated(c, r))
    ensures View(committed, Updated(c, r)) == View(committed, c)[r.id := r]
  {
  }

  lemma {:induction false} UpdateCommitted(committed: Table, c: Changes, r: Rec)
    requires Proper(committed, c) && r.id != Nil && r.id in View(committed, c) && r.id !in c.inserts
    ensures Proper(committed, Updated(c, r))
    ensures View(committed, Updated(c, r)) == View(committed, c)[r.id := r]
  {
    assert !c.cleared && r.id in committed && r.id !in c.deletes;
    assert Updated(c, r).updates == c.updates[r.id := r];
    PlusOne(committed - c.deletes, c.updates, c.inserts, r.id, r);
  }

  lemma {:induction false} PlusOne(a: Table, b: Table, d: Table, k: Value, r: Rec)
    requires k !in d
    ensures a + b[k := r] + d == (a + b + d)[k := r]
  {
  }

  lemma {:induction false} StageDelete(committed: Table, c: Changes, id: Value)
    requires Proper(committed, c) && id in View(committed, c)
    ensures Proper(committed, Removed(c, id))
    ensures View(committed, Removed(c, id)) == View(committed, c) - {id}
  {
    RemovedView(committed, c, id);
  }

  lemma {:induction false} RemovedView(committed: Table, c: Changes, id: Value)
    requires Proper(committed, c) && id in View(committed, c)
    ensures View(committed, Removed(c, id)) == View(committed, c) - {id}
  {
    if !c.cleared {
      if id in c.inserts {
        MinusLast(committed - c.deletes, c.updates, c.inserts, id);
      } else {
        MinusFirst(committed, c.deletes, c.updates, c.inserts, id);
      }
    }
  }

  lemma {:induction false} MinusLast(a: Table, b: Table, d: Table, k: Value)
    requires k !in a && k !in b
    ensures a + b + (d - {k}) == a + b + d - {k}
  {
  }

  lemma {:induction false} MinusFirst(a: Table, out: set<Value>, b: Table, d: Table, k: Value)
    requires k !in d
    ensures (a - (out + {k})) + (b - {k}) + d == (a - out) + b + d - {k}
  {
    assert a - (out + {k}) == a - out - {k};
    assert (a - out - {k}) + (b - {k}) == (a - out) + b - {k};
  }

  class TableChanges {
    /** The records that the primary index and the table file hold, fixed for the transaction. */
    const committed: Table
    var active: bool
    var cleared: bool
    var inserts: Table
    var updates: Table
    var deletes: set<Value>

    ghost function State(): Changes
      reads this
    {
      Changes(cleared, inserts, updates, deletes)
    }

    ghost function Sees(): Table
      reads this
    {
      View(committed, State())
    }

    ghost predicate Valid()
      reads this
    {
      Proper(committed, State())
    }

    constructor (committed: Table)
      requires Filed(committed)
      ensures Valid() && active && this.committed == committed && Sees() == committed
    {
      this.committed := committed;
      active, cleared, inserts, updates, deletes := true, false, map[], map[], {};
    }

    /** The record under `id`, looked up in the order insert and update use. */
    method Staged(id: Value) returns (r: Option<Rec>)
      requires Valid()
      ensures r == if id in Sees() then Some(Sees()[id]) else None
    {
      if id in inserts {
        r := Some(inserts[id]);
      } else if id in updates {
        r := Some(updates[id]);
      } else if !cleared && id !in deletes && id in committed {
        r := Some(committed[id]);
      } else {
        r := None;
      }
    }

    method InsertRecord(r: Rec) returns (ok: bool)
      requires Valid()
      modifies this
      ensures Valid() && active == old(active)
      ensures ok == (active && Accepts(old(Sees()), Insert(r)))
      ensures Sees() == if ok then Effect(old(Sees()), Insert(r)) else old(Sees())
    {
      if !active || r.id == Nil { return false; }
      var found := Staged(r.id);
      if found.Some? { return false; }
      StageInsert(committed, State(), r);
      inserts := inserts[r.id := r];
      ok := true;
    }

    method UpdateRecord(r: Rec) returns (ok: bool)
      requires Valid()
      modifies this
      ensures Valid() && active == old(active)
      ensures ok == (active && Accepts(old(Sees()), Update(r)))
      ensures Sees() == if ok then Effect(old(Sees()), Update(r)) else old(Sees())
    {
      if !active || r.id == Nil { return false; }
      var found := Staged(r.id);
      if found.None? { return false; }
      StageUpdate(committed, State(), r);
      if r.id in inserts {
        inserts := inserts[r.id := r];
      } else {
        updates := updates[r.id := r];
      }
      ok := true;
    }

    method UpsertRecord(r: Rec) returns (ok: bool)
      requires Valid()
      modifies this
      ensures Valid() && active == old(active)
      ensures ok == (active && Accepts(old(Sees()), Upsert(r)))
      ensures Sees() == if ok then Effect(old(Sees()), Upsert(r)) else old(Sees())
    {
      if r.id == Nil { return false; }
      var found := Staged(r.id);
      if found.Some? {
        ok := UpdateRecord(r);
      } else {
        ok := InsertRecord(r);
      }
    }

    method DeleteById(id: Value) returns (ok: bool, deleted: bool)
      requires Valid()
      modifies this
      ensures Valid() && active == old(active)
      ensures ok == active && deleted == (ok && id in old(Sees()))
      ensures Sees() == if ok then Effect(old(Sees()), Delete(id)) else old(Sees())
    {
      if !active { return false, false; }
      ok := true;
      var found := Staged(id);
      deleted := found.Some?;
      if !deleted { return; }
      StageDelete(committed, State(), id);
      if id in inserts {
        inserts := inserts - {id};
      } else {
        updates := updates - {id};
        deletes := deletes + {id};
      }
    }

    method ClearAll() returns (ok: bool)
      requires Valid()
      modifies this
      ensures Valid() && active == old(active) && ok == active
      ensures Sees() == if ok then Effect(old(Sees()), Clear) else old(Sees())
    {
      if !active { return false; }
      cleared, inserts, updates, deletes := true, map[], map[], {};
      ok := true;
    }

    /** The public lookup, which asks the deletions before the insertions. */
    method FindById(id: Value) returns (ok: bool, r: Option<Rec>)
      requires Valid()
      ensures ok == active
      ensures active && id in Sees() && r != Some(Sees()[id]) <==> active && Hidden(State(), id)
      ensures active && id !in Sees() ==> r == None
      ensures active && Hidden(State(), id) ==> r == None
    {
      ok := active;
      r := None;
      if !ok { return; }
      if cleared {
        r := if id in inserts then Some(inserts[id]) else None;
      } else if id in deletes {
        r := None;
      } else if id in inserts {
        r := Some(inserts[id]);
      } else if id in updates {
        r := Some(updates[id]);
      } else if id in committed {
        r := Some(committed[id]);
      }
    }

    /** Any sequence of calls: failed ones change nothing, and the others act like operations on a map. */
    method Run(calls: seq<Call>)
      requires Valid() && active
      modifies this
      ensures Valid() && active
      ensures Sees() == RunOn(old(Sees()), calls)
    {
      for i := 0 to |calls|
        invariant Valid() && active
        invariant Sees() == RunOn(old(Sees()), calls[..i])
      {
        assert calls[..i + 1][..i] == calls[..i];
        match calls[i] {
          case Insert(r) => var _ := InsertRecord(r);
          case Update(r) => var _ := UpdateRecord(r);
          case Upsert(r) => var _ := UpsertRecord(r);
          case Delete(id) => var _, _ := DeleteById(id);
          case Clear => var _ := ClearAll();
        }
      }
      assert calls[..|calls|] == calls;
    }
  }

  /** A committed record that was deleted and inserted again: the public lookup does not find it. */
  predicate Hidden(c: Changes, id: Value) {
    !c.cleared && id in c.deletes && id in c.inserts
  }

  function RunOn(t: Table, calls: seq<Call>): Table
    decreases |calls|
  {
    if calls == [] then t else EffectIf(RunOn(t, calls[..|calls| - 1]), calls[|calls| - 1])
  }
}
