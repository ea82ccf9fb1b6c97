/**
 Running a query: the lookups that its plan asks for, the staged changes laid over what they found, the
 conditions, and each id once. The index file is the one of `PagedFile`, so a lookup by index is the
 range scan along the leaves that the program makes.
 */
module QueryList {
  import opened Options
  import opened KeyOrder
  import opened PageFormat
  import opened Values
  import opened Records
  import opened ShadowIndex
  import opened Overlay
  import opened UniqueCheck
  import opened CommitApply
  import opened KeyCodec
  import opened KeyCompare
  import opened TreeRange
  import opened IndexFile
  import opened PagedFile
  import opened IndexLookup
  import opened QueryPlan

  function ToSet(rs: seq<Rec>): set<Rec> {
    set r | r in rs
  }

  /** The orders in which the program meets the staged records. */
  datatype Orders = Orders(inserts: seq<Rec>, updates: seq<Rec>)

  ghost predicate FollowsOrders(o: Orders, c: Changes) {
    ToSet(o.inserts) == c.inserts.Values && ToSet(o.updates) == c.updates.Values
  }

  /** The kinds of keys in the indexes of a schema, and the comparator on them. */
  ghost predicate KindedSchema(cmp: Cmp, kinds: Kinds, schema: Schema) {
    && SourceLike(cmp, Single(kinds.id))
    && forall i :: 0 <= i < |schema| ==>
         var n := schema[i].name;
         && n in kinds.values
         && SourceLike(cmp, if schema[i].unique then Single(kinds.values[n]) else Pairs(kinds.values[n], kinds.id))
  }

  /** The index file spells the indexes `x`, in trees whose leaf chains are whole. */
  ghost predicate Indexed(file: DiskBPlusTree, kinds: Kinds, schema: Schema, x: Indexes)
    reads file
  {
    && file.Valid() && EmptyFirst(file.cmp) && KindedSchema(file.cmp, kinds, schema)
    && Spells(MeaningOf(file.F()), schema, x) && Kinded(kinds, x)
    && WholeChain(file.trees, PRIMARY) && forall i :: 0 <= i < |schema| ==> WholeChain(file.trees, schema[i].name)
  }

  /** The value that a plan looks up is of the kind of its index. */
  predicate KindedPlan(plan: Plan, kinds: Kinds) {
    match plan
    case ById(v) => OfKind(v, kinds.id)
    case ByIndex(m, v) =>
      m.name in kinds.values && (if m.unique then OfKind(v, kinds.values[m.name]) else Askable(kinds.values[m.name], v))
    case Scan => true
  }

  /** Not touched by any staged change. */
  predicate Unstaged(c: Changes, k: Value) {
    k !in c.deletes && k !in c.updates && k !in c.inserts
  }

  ghost predicate FoundUnder(keys: set<Value>, found: seq<Rec>, c: Changes, committed: Table) {
    && (forall r :: r in found ==> r.id in keys && r.id in committed && Unstaged(c, r.id) && r == committed[r.id])
    && (forall k :: k in keys && k in committed && Unstaged(c, k) ==> committed[k] in found)
  }

  // ---------------------------------------------------------------- lookups

  /** The ids that a plan names. */
  method FindTargets(file: DiskBPlusTree, kinds: Kinds, plan: Plan, schema: Schema, read: Reader, ghost x: Indexes)
    returns (targets: seq<Value>)
    requires Indexed(file, kinds, schema, x) && KindedPlan(plan, kinds) && (plan.ByIndex? ==> plan.meta in schema)
    modifies file`nodes
    ensures Indexed(file, kinds, schema, x)
    ensures forall k :: k in targets <==> k in Targets(plan, x, read)
  {
    match plan
    case ById(v) =>
      targets := [v];
    case ByIndex(m, v) =>
      targets := FindByIndex(file, kinds, m, v, schema, read, x);
    case Scan =>
      targets := [];
  }

  method FindByIndex(file: DiskBPlusTree, kinds: Kinds, m: IndexMeta, v: Value, schema: Schema, read: Reader,
                     ghost x: Indexes)
    returns (targets: seq<Value>)
    requires Indexed(file, kinds, schema, x) && KindedPlan(ByIndex(m, v), kinds) && m in schema
    modifies file`nodes
    ensures Indexed(file, kinds, schema, x)
    ensures forall k :: k in targets <==> k in Targets(ByIndex(m, v), x, read)
  {
    ghost var i :| 0 <= i < |schema| && schema[i] == m;
    assert SpellsIndex(MeaningOf(file.F()), schema, x, i);
    if m.unique {
      targets := [];
      var found := FindValue(file, m.name, v, x);
      if found.Some? {
        var r := read(found.value);
        if r.Some? {
          targets := [r.value.id];
        }
      }
    } else {
      targets := FindPairs(file, kinds, m.name, v, x);
      assert forall k :: k in Targets(ByIndex(m, v), x, read) <==> (m.name, v, k) in x.pairs;
    }
  }

  /** The committed record under `k`, if it is not staged. */
  method ReadOne(file: DiskBPlusTree, kinds: Kinds, schema: Schema, k: Value, read: Reader, c: Changes,
                 ghost x: Indexes, ghost committed: Table)
    returns (r: Option<Rec>)
    requires Indexed(file, kinds, schema, x) && PrimaryAgrees(read, x, committed)
    modifies file`nodes
    ensures Indexed(file, kinds, schema, x)
    ensures r == if k in committed && Unstaged(c, k) then Some(committed[k]) else None
  {
    r := None;
    if Unstaged(c, k) {
      var found := FindId(file, k, x);
      if found.Some? {
        r := read(found.value);
      }
    }
  }

  /** The committed records under `keys` that are not staged. */
  method ReadUnstaged(file: DiskBPlusTree, kinds: Kinds, schema: Schema, keys: seq<Value>, read: Reader, c: Changes,
                      ghost x: Indexes, ghost committed: Table)
    returns (records: seq<Rec>)
    requires Indexed(file, kinds, schema, x) && Filed(committed) && PrimaryAgrees(read, x, committed)
    modifies file`nodes
    ensures Indexed(file, kinds, schema, x)
    ensures FoundUnder(Members(keys), records, c, committed)
  {
    records := [];
    for i := 0 to |keys|
      invariant Indexed(file, kinds, schema, x)
      invariant FoundUnder(Members(keys[..i]), records, c, committed)
    {
      var r := ReadOne(file, kinds, schema, keys[i], read, c, x, committed);
      FoundMore(keys, i, records, c, committed);
      if r.Some? {
        records := records + [r.value];
      }
    }
    assert keys[..|keys|] == keys;
  }

  ghost function Members(keys: seq<Value>): set<Value> {
    set k | k in keys
  }

  lemma {:induction false} FoundMore(keys: seq<Value>, i: nat, records: seq<Rec>, c: Changes, committed: Table)
    requires i < |keys| && Filed(committed) && FoundUnder(Members(keys[..i]), records, c, committed)
    ensures var k := keys[i];
            FoundUnder(Members(keys[..i + 1]),
                       if k in committed && Unstaged(c, k) then records + [committed[k]] else records, c, committed)
  {
    assert keys[..i + 1] == keys[..i] + [keys[i]];
  }

  /** Whether the scan of a query goes on after an entry. */
  function GoesOn(c: Changes, read: Reader): Visitor {
    (seen, e) => IdOf(e).Some? && (!Unstaged(c, IdOf(e).value) || read(e.1).Some?)
  }

  /** All committed records that are not staged. */
  method ScanUnstaged(file: DiskBPlusTree, kinds: Kinds, schema: Schema, read: Reader, c: Changes, ghost x: Indexes,
                      ghost committed: Table)
    returns (records: seq<Rec>)
    requires Indexed(file, kinds, schema, x) && Filed(committed) && PrimaryAgrees(read, x, committed)
    modifies file`nodes
    ensures Indexed(file, kinds, schema, x)
    ensures FoundUnder(committed.Keys, records, c, committed)
  {
    assert NeverStops(x, GoesOn(c, read));
    var seen := ScanIds(file, kinds, GoesOn(c, read), x);
    records := ReadEntries(seen, read, c, x, committed);
  }

  method ReadEntries(seen: seq<Entry>, read: Reader, c: Changes, ghost x: Indexes, ghost committed: Table)
    returns (records: seq<Rec>)
    requires FilesIds(x, seen) && Filed(committed) && PrimaryAgrees(read, x, committed)
    ensures FoundUnder(committed.Keys, records, c, committed)
  {
    records := [];
    for i := 0 to |seen|
      invariant FoundUnder(IdsOf(seen[..i]), records, c, committed)
    {
      assert FilesId(x, seen[i]);
      IdsOfMore(seen, i);
      var id := IdOf(seen[i]).value;
      if Unstaged(c, id) {
        records := records + [read(seen[i].1).value];
      }
    }
    assert seen[..|seen|] == seen;
    AllIds(x, seen);
  }

  ghost function IdsOf(seen: seq<Entry>): set<Value> {
    set e | e in seen && IdOf(e).Some? :: IdOf(e).value
  }

  lemma {:induction false} IdsOfMore(seen: seq<Entry>, i: nat)
    requires i < |seen| && IdOf(seen[i]).Some?
    ensures IdsOf(seen[..i + 1]) == IdsOf(seen[..i]) + {IdOf(seen[i]).value}
  {
    assert seen[..i + 1] == seen[..i] + [seen[i]];
  }

  lemma {:induction false} AllIds(x: Indexes, seen: seq<Entry>)
    requires FilesIds(x, seen)
    ensures IdsOf(seen) == x.primary.Keys
  {
    forall id | id in x.primary
      ensures id in IdsOf(seen)
    {
      var e :| e in seen && IdOf(e) == Some(id);
    }
    forall e | e in seen
      ensures IdOf(e).Some? && IdOf(e).value in x.primary
    {
      assert FilesId(x, e);
    }
  }

  // ---------------------------------------------------------------- staged changes

  /** The staged records under the targets, and then those that are not under a target. */
  method AddStaged(records: seq<Rec>, targets: seq<Value>, o: Orders, c: Changes) returns (all: seq<Rec>)
    requires Filed(c.inserts) && Filed(c.updates) && ToSet(o.inserts) == c.inserts.Values
    requires ToSet(o.updates) == c.updates.Values
    ensures ToSet(all) == ToSet(records) + c.inserts.Values + c.updates.Values
  {
    all := records;
    for i := 0 to |targets|
      invariant ToSet(records) <= ToSet(all) <= ToSet(records) + c.inserts.Values + c.updates.Values
      invariant forall k :: k in targets[..i] && k in c.inserts ==> c.inserts[k] in all
      invariant forall k :: k in targets[..i] && k in c.updates ==> c.updates[k] in all
    {
      var k := targets[i];
      assert targets[..i + 1] == targets[..i] + [k];
      if k in c.inserts {
        all := all + [c.inserts[k]];
      }
      if k in c.updates {
        all := all + [c.updates[k]];
      }
    }
    assert targets[..|targets|] == targets;
    ghost var most := ToSet(records) + c.inserts.Values + c.updates.Values;
    all := AddOthers(all, targets, o.inserts, c.inserts, most);
    all := AddOthers(all, targets, o.updates, c.updates, most);
  }

  method AddOthers(records: seq<Rec>, targets: seq<Value>, staged: seq<Rec>, ghost t: Table, ghost most: set<Rec>)
    returns (all: seq<Rec>)
    requires Filed(t) && ToSet(staged) == t.Values && ToSet(records) <= most && t.Values <= most
    requires forall k :: k in targets && k in t ==> t[k] in records
    ensures records <= all && ToSet(all) <= most && t.Values <= ToSet(all)
  {
    all := records;
    for i := 0 to |staged|
      invariant records <= all && ToSet(all) <= most && forall j :: 0 <= j < i ==> staged[j] in all
    {
      assert staged[i] in ToSet(staged);
      assert t[staged[i].id] == staged[i];
      if staged[i].id !in targets {
        all := all + [staged[i]];
      }
    }
    forall r | r in t.Values
      ensures r in all
    {
      assert r in ToSet(staged);
    }
  }

  method StagedUnder(targets: seq<Value>, t: Table) returns (records: seq<Rec>)
    requires Filed(t)
    ensures ToSet(records) == set k | k in targets && k in t :: t[k]
  {
    records := [];
    for i := 0 to |targets|
      invariant forall r :: r in records ==> r.id in targets && r.id in t && t[r.id] == r
      invariant forall k :: k in targets[..i] && k in t ==> t[k] in records
    {
      assert targets[..i + 1] == targets[..i] + [targets[i]];
      if targets[i] in t {
        records := records + [t[targets[i]]];
      }
    }
    assert targets[..|targets|] == targets;
  }

  lemma {:induction false} CollectedTargets(plan: Plan, targets: set<Value>, c: Changes, committed: Table,
                                            found: seq<Rec>)
    requires Proper(committed, c) && !c.cleared && !plan.Scan? && FoundUnder(targets, found, c, committed)
    ensures ToSet(found) + c.inserts.Values + c.updates.Values == Candidates(plan, targets, committed, c)
  {
  }

  lemma {:induction false} CollectedScan(targets: set<Value>, c: Changes, committed: Table, found: seq<Rec>)
    requires Proper(committed, c) && !c.cleared && FoundUnder(committed.Keys, found, c, committed)
    ensures ToSet(found) + c.inserts.Values + c.updates.Values == Candidates(Scan, targets, committed, c)
  {
    var v, all := View(committed, c), ToSet(found) + c.inserts.Values + c.updates.Values;
    forall r | r in all
      ensures r in v.Values
    {
      assert r.id in v && v[r.id] == r;
    }
    forall k | k in v
      ensures v[k] in all
    {
      assert k in c.inserts || k in c.updates || Unstaged(c, k);
    }
  }

  /** Collect what the plan finds and what is staged. */
  method Collect(file: DiskBPlusTree, kinds: Kinds, schema: Schema, plan: Plan, o: Orders, read: Reader, c: Changes,
                 ghost x: Indexes, ghost committed: Table)
    returns (records: seq<Rec>)
    requires Indexed(file, kinds, schema, x) && KindedPlan(plan, kinds) && (plan.ByIndex? ==> plan.meta in schema)
    requires Proper(committed, c) && PrimaryAgrees(read, x, committed) && FollowsOrders(o, c)
    modifies file`nodes
    ensures Indexed(file, kinds, schema, x)
    ensures ToSet(records) == Candidates(plan, Targets(plan, x, read), committed, c)
  {
    if plan.Scan? {
      records := CollectAll(file, kinds, schema, o, read, c, x, committed);
    } else {
      var targets := FindTargets(file, kinds, plan, schema, read, x);
      if c.cleared {
        records := StagedUnder(targets, c.inserts);
      } else {
        records := ReadUnstaged(file, kinds, schema, targets, read, c, x, committed);
        ghost var found := records;
        records := AddStaged(records, targets, o, c);
        assert Members(targets) == Targets(plan, x, read);
        CollectedTargets(plan, Targets(plan, x, read), c, committed, found);
      }
    }
  }

  method CollectAll(file: DiskBPlusTree, kinds: Kinds, schema: Schema, o: Orders, read: Reader, c: Changes,
                    ghost x: Indexes, ghost committed: Table)
    returns (records: seq<Rec>)
    requires Indexed(file, kinds, schema, x) && Proper(committed, c) && PrimaryAgrees(read, x, committed)
    requires FollowsOrders(o, c)
    modifies file`nodes
    ensures Indexed(file, kinds, schema, x)
    ensures ToSet(records) == View(committed, c).Values
  {
    if c.cleared {
      return o.inserts;
    }
    var found := ScanUnstaged(file, kinds, schema, read, c, x, committed);
    records := found + o.inserts + o.updates;
    assert ToSet(records) == ToSet(found) + ToSet(o.inserts) + ToSet(o.updates);
    CollectedScan({}, c, committed, found);
  }

  /** Keep the records that pass all conditions, each id once. */
  method Filter(conds: seq<Condition>, records: seq<Rec>, ghost t: Table) returns (filtered: seq<Rec>)
    requires Filed(t) && forall r :: r in records ==> r in t.Values
    ensures ToSet(filtered) == set r | r in records && TestAll(conds, r)
    ensures forall i, j :: 0 <= i < j < |filtered| ==> filtered[i].id != filtered[j].id
  {
    filtered := [];
    for i := 0 to |records|
      invariant forall r :: r in filtered ==> r in records && TestAll(conds, r)
      invariant forall r :: r in records[..i] && TestAll(conds, r) ==> r in filtered
      invariant forall i, j :: 0 <= i < j < |filtered| ==> filtered[i].id != filtered[j].id
    {
      var r := records[i];
      assert records[..i + 1] == records[..i] + [r];
      var match_ := Passes(conds, r);
      if match_ {
        var duplicate := false;
        for j := 0 to |filtered|
          invariant duplicate <==> exists l :: 0 <= l < j && filtered[l].id == r.id
        {
          if filtered[j].id == r.id {
            duplicate := true;
          }
        }
        if !duplicate {
          filtered := filtered + [r];
        } else {
          SameIdSameRecord(t, filtered, records, r);
        }
      }
    }
    assert records[..|records|] == records;
  }

  method Passes(conds: seq<Condition>, r: Rec) returns (ok: bool)
    ensures ok == TestAll(conds, r)
  {
    for i := 0 to |conds|
      invariant forall j :: 0 <= j < i ==> Test(conds[j], r)
    {
      if !Test(conds[i], r) { return false; }
    }
    return true;
  }

  lemma {:induction false} SameIdSameRecord(t: Table, filtered: seq<Rec>, records: seq<Rec>, r: Rec)
    requires Filed(t) && (forall r :: r in records ==> r in t.Values) && (forall r :: r in filtered ==> r in records)
    requires r in records && exists l :: 0 <= l < |filtered| && filtered[l].id == r.id
    ensures r in filtered
  {
    var l :| 0 <= l < |filtered| && filtered[l].id == r.id;
    assert filtered[l] in records && filtered[l] in t.Values;
  }

  /**
   The list of records before sorting and paging: each id once, the records that the plan finds over the
   staged changes and that pass all conditions. With indexes that agree with the table and a plan that
   follows an equality, that is every record of the view that passes.
   */
  method List(file: DiskBPlusTree, kinds: Kinds, schema: Schema, conds: seq<Condition>, read: Reader, c: Changes,
              o: Orders, ghost x: Indexes, ghost committed: Table)
    returns (filtered: seq<Rec>)
    requires Indexed(file, kinds, schema, x) && KindedPlan(ChoosePlan(schema, conds, c.cleared), kinds)
    requires Proper(committed, c) && PrimaryAgrees(read, x, committed) && FollowsOrders(o, c)
    modifies file`nodes
    ensures Indexed(file, kinds, schema, x)
    ensures ToSet(filtered) == Listed(schema, conds, x, read, committed, c)
    ensures PairsAgree(schema, x, committed) && UniqueAgrees(schema, x, committed)
            && FollowsEquality(schema, conds, committed, c) ==>
              forall r :: r in filtered <==>
                r.id in View(committed, c) && View(committed, c)[r.id] == r &&
                forall i :: 0 <= i < |conds| ==> Test(conds[i], r)
    ensures forall i, j :: 0 <= i < j < |filtered| ==> filtered[i].id != filtered[j].id
  {
    var plan := ChoosePlan(schema, conds, c.cleared);
    PlanInSchema(schema, conds, c.cleared);
    var records := Collect(file, kinds, schema, plan, o, read, c, x, committed);
    filtered := FilterCandidates(conds, records, Candidates(plan, Targets(plan, x, read), committed, c),
                                 View(committed, c)) by {
      ViewFiled(committed, c);
      CandidatesInView(plan, Targets(plan, x, read), committed, c);
    }
    ListedIsScan(schema, conds, x, read, committed, c);
    MatchingMeans(conds, committed, c, filtered);
  }

  lemma {:induction false} MatchingMeans(conds: seq<Condition>, committed: Table, c: Changes, filtered: seq<Rec>)
    requires Proper(committed, c)
    ensures ToSet(filtered) == Matching(conds, View(committed, c)) ==>
              forall r :: r in filtered <==>
                r.id in View(committed, c) && View(committed, c)[r.id] == r &&
                forall i :: 0 <= i < |conds| ==> Test(conds[i], r)
  {
    ViewFiled(committed, c);
    if ToSet(filtered) == Matching(conds, View(committed, c)) {
      forall r
        ensures r in filtered <==> r in Matching(conds, View(committed, c))
      {
        assert r in filtered <==> r in ToSet(filtered);
      }
    }
  }

  lemma {:induction false} ListedIsScan(schema: Schema, conds: seq<Condition>, x: Indexes, read: Reader,
                                        committed: Table, c: Changes)
    requires Proper(committed, c) && PrimaryAgrees(read, x, committed)
    ensures PairsAgree(schema, x, committed) && UniqueAgrees(schema, x, committed)
            && FollowsEquality(schema, conds, committed, c) ==>
              Listed(schema, conds, x, read, committed, c) == Matching(conds, View(committed, c))
  {
    if PairsAgree(schema, x, committed) && UniqueAgrees(schema, x, committed)
       && FollowsEquality(schema, conds, committed, c) {
      IndexPlanIsScan(schema, conds, x, read, committed, c);
    }
  }

  method FilterCandidates(conds: seq<Condition>, records: seq<Rec>, ghost found: set<Rec>, ghost t: Table)
    returns (filtered: seq<Rec>)
    requires Filed(t) && ToSet(records) == found && found <= t.Values
    ensures ToSet(filtered) == set r | r in found && TestAll(conds, r)
    ensures forall i, j :: 0 <= i < j < |filtered| ==> filtered[i].id != filtered[j].id
  {
    assert forall r :: r in records <==> r in found;
    filtered := Filter(conds, records, t);
  }

  lemma {:induction false} ViewFiled(committed: Table, c: Changes)
    requires Proper(committed, c)
    ensures Filed(View(committed, c))
  {
  }

  lemma {:induction false} PlanInSchema(schema: Schema, conds: seq<Condition>, cleared: bool)
    ensures var plan := ChoosePlan(schema, conds, cleared); plan.ByIndex? ==> plan.meta in schema
  {
    if IdCondition(conds).None? && !cleared && IndexCondition(schema, conds).Some? {
      IndexConditionIn(schema, conds);
    }
  }
}
