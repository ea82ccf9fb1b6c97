/**
 Queries: a plan narrows the records down by an equality condition on the id or on an indexed field,
 the staged changes are laid over what the plan found, and all conditions are tested on the rest.
 The result is the same as that of a scan over the transaction's view.
 */
module QueryPlan {
  import opened Options
  import opened KeyOrder
  import opened PageFormat
  import opened Values
  import opened Records
  import opened ShadowIndex
  import opened Overlay
  import opened UniqueCheck
  import opened CommitApply

  // ---------------------------------------------------------------- conditions

  datatype Compare = Eq | Ne | Gt | Ge | Lt | Le

  datatype Condition = Condition(field: string, op: Compare, value: Value)

  /** The id counts as a field. */
  function FieldOf(r: Rec, name: string): Value {
    if name == "id" then r.id else Field(r, name)
  }

  /** Whether the outcome of a comparison is the one asked for. */
  predicate Compares(op: Compare, d: int) {
    match op
    case Eq => d == 0
    case Ne => d != 0
    case Gt => d > 0
    case Ge => d >= 0
    case Lt => d < 0
    case Le => d <= 0
  }

  predicate Test(c: Condition, r: Rec) {
    Compares(c.op, CompareValues(FieldOf(r, c.field), c.value))
  }

  predicate TestAll(conds: seq<Condition>, r: Rec) {
    forall i :: 0 <= i < |conds| ==> Test(conds[i], r)
  }

  function Symbol(op: Compare): string {
    match op
    case Eq => " == "
    case Ne => " != "
    case Gt => " > "
    case Ge => " >= "
    case Lt => " < "
    case Le => " <= "
  }

  /** The description of a condition, as it is shown to users. */
  function Description(c: Condition): string {
    var shown := Show(c.value);
    c.field + Symbol(c.op) + seq(|shown|, i requires 0 <= i < |shown| => shown[i] as char)
  }

  /** How the planner recognises an equality: by the characters `==` in the description. */
  predicate LooksEqual(c: Condition) {
    var s := Description(c);
    exists i :: 0 <= i < |s| - 1 && s[i] == '=' && s[i + 1] == '='
  }

  // ---------------------------------------------------------------- plans

  datatype Plan = ById(value: Value) | ByIndex(meta: IndexMeta, value: Value) | Scan

  /** The first condition on the id that looks like an equality. */
  function IdCondition(conds: seq<Condition>): Option<Condition> {
    if conds == [] then None
    else if conds[0].field == "id" && LooksEqual(conds[0]) then Some(conds[0])
    else IdCondition(conds[1..])
  }

  function IndexOn(schema: Schema, field: string): Option<IndexMeta> {
    if schema == [] then None
    else if schema[0].field == field then Some(schema[0])
    else IndexOn(schema[1..], field)
  }

  /** The first condition that looks like an equality and whose field has an index. */
  function IndexCondition(schema: Schema, conds: seq<Condition>): Option<(Condition, IndexMeta)> {
    if conds == [] then None
    else if LooksEqual(conds[0]) && IndexOn(schema, conds[0].field).Some? then
      Some((conds[0], IndexOn(schema, conds[0].field).value))
    else IndexCondition(schema, conds[1..])
  }

  function ChoosePlan(schema: Schema, conds: seq<Condition>, cleared: bool): Plan {
    match IdCondition(conds)
    case Some(c) => ById(c.value)
    case None =>
      if cleared then Scan
      else match IndexCondition(schema, conds)
        case Some((c, m)) => ByIndex(m, c.value)
        case None => Scan
  }

  /** The ids that a plan names. */
  function Targets(plan: Plan, x: Indexes, read: Reader): set<Value> {
    match plan
    case ById(v) => {v}
    case ByIndex(m, v) =>
      if m.unique then
        if (m.name, v) in x.unique && read(x.unique[(m.name, v)]).Some? then {read(x.unique[(m.name, v)]).value.id}
          else {}
      else set e | e in x.pairs && e.0 == m.name && e.1 == v :: e.2
    case Scan => {}
  }

  /** The records that a plan hands to the conditions. */
  function Candidates(plan: Plan, targets: set<Value>, committed: Table, c: Changes): set<Rec> {
    if plan.Scan? then View(committed, c).Values
    else if c.cleared then set k | k in targets && k in c.inserts :: c.inserts[k]
    else
      (set k | k in targets && k in Untouched(committed, c) && k !in c.inserts :: committed[k]) + c.inserts.Values +
        c.updates.Values
  }

  function Listed(schema: Schema, conds: seq<Condition>, x: Indexes, read: Reader, committed: Table,
                  c: Changes): set<Rec> {
    var plan := ChoosePlan(schema, conds, c.cleared);
    set r | r in Candidates(plan, Targets(plan, x, read), committed, c) && TestAll(conds, r)
  }

  /** What a scan over the view finds. */
  function Matching(conds: seq<Condition>, t: Table): set<Rec> {
    set r | r in t.Values && TestAll(conds, r)
  }

  // ---------------------------------------------------------------- the index plan is the scan plan

  /** All candidates are in the view; what a plan may miss are committed records the transaction left alone. */
  lemma {:induction false} CandidatesInView(plan: Plan, targets: set<Value>, committed: Table, c: Changes)
    requires Proper(committed, c)
    ensures Candidates(plan, targets, committed, c) <= View(committed, c).Values
    ensures !c.cleared && !plan.Scan? ==>
              forall k :: k in View(committed, c) && k !in Untouched(committed, c) ==>
                View(committed, c)[k] in Candidates(plan, targets, committed, c)
    ensures !c.cleared && !plan.Scan? ==>
              forall k :: k in Untouched(committed, c) ==>
                k in View(committed, c) && View(committed, c)[k] == committed[k] &&
                (k in targets ==> committed[k] in Candidates(plan, targets, committed, c))
  {
    var v := View(committed, c);
    ViewParts(committed, c);
    forall r | r in Candidates(plan, targets, committed, c)
      ensures r in v.Values
    {
      if !plan.Scan? {
        assert r.id in v && v[r.id] == r;
      }
    }
    forall k | !c.cleared && !plan.Scan? && k in v && k !in Untouched(committed, c)
      ensures v[k] in Candidates(plan, targets, committed, c)
    {
      assert v[k] in c.inserts.Values || v[k] in c.updates.Values;
    }
  }

  /** Every record that passes the conditions and is untouched is among the targets. */
  ghost predicate FindsAll(conds: seq<Condition>, targets: set<Value>, t: Table) {
    forall k :: k in t && TestAll(conds, t[k]) ==> k in targets
  }

  lemma {:induction false} PlanIsScan(plan: Plan, targets: set<Value>, conds: seq<Condition>, committed: Table,
                                      c: Changes)
    requires Proper(committed, c)
    requires !plan.Scan? && !c.cleared ==> FindsAll(conds, targets, Untouched(committed, c))
    requires !plan.Scan? && c.cleared ==> FindsAll(conds, targets, c.inserts)
    ensures (set r | r in Candidates(plan, targets, committed, c) && TestAll(conds, r)) ==
            Matching(conds, View(committed, c))
  {
    var v := View(committed, c);
    CandidatesInView(plan, targets, committed, c);
    forall r | r in v.Values && TestAll(conds, r)
      ensures r in Candidates(plan, targets, committed, c)
    {
      var k :| k in v && v[k] == r;
      if !plan.Scan? && !c.cleared && k in Untouched(committed, c) {
        assert Untouched(committed, c)[k] == r;
      }
    }
  }

  /** The condition that a plan follows. */
  function Chosen(schema: Schema, conds: seq<Condition>, cleared: bool): Option<Condition> {
    match IdCondition(conds)
    case Some(c) => Some(c)
    case None =>
      if cleared then None
      else match IndexCondition(schema, conds)
        case Some((c, _)) => Some(c)
        case None => None
  }

  /** The values of the field are nil or of the kind of the condition's value. */
  ghost predicate Fitting(c: Condition, t: Table) {
    !c.value.Nil? && forall k :: k in t ==> FieldOf(t[k], c.field).Nil? || SameKind(FieldOf(t[k], c.field), c.value)
  }

  lemma {:induction false} EqualMeans(c: Condition, t: Table, k: Value)
    requires c.op.Eq? && Fitting(c, t) && k in t
    ensures Test(c, t[k]) <==> FieldOf(t[k], c.field) == c.value
  {
    if !FieldOf(t[k], c.field).Nil? {
      KindOrder(FieldOf(t[k], c.field), c.value);
    }
  }

  lemma {:induction false} IdConditionIn(conds: seq<Condition>)
    requires IdCondition(conds).Some?
    ensures IdCondition(conds).value in conds && IdCondition(conds).value.field == "id"
  {
    if !(conds[0].field == "id" && LooksEqual(conds[0])) {
      IdConditionIn(conds[1..]);
    }
  }

  lemma {:induction false} IndexConditionIn(schema: Schema, conds: seq<Condition>)
    requires IndexCondition(schema, conds).Some?
    ensures var (c, m) := IndexCondition(schema, conds).value; c in conds && m in schema && m.field == c.field
  {
    if LooksEqual(conds[0]) && IndexOn(schema, conds[0].field).Some? {
      IndexOnIn(schema, conds[0].field);
    } else {
      IndexConditionIn(schema, conds[1..]);
    }
  }

  /** A condition on the id that looks like an equality is never left to the indexes. */
  lemma {:induction false} NotOnId(schema: Schema, conds: seq<Condition>)
    requires IndexCondition(schema, conds).Some? && IdCondition(conds).None?
    ensures IndexCondition(schema, conds).value.0.field != "id"
  {
    if !(LooksEqual(conds[0]) && IndexOn(schema, conds[0].field).Some?) {
      NotOnId(schema, conds[1..]);
    }
  }

  lemma {:induction false} IndexOnIn(schema: Schema, field: string)
    requires IndexOn(schema, field).Some?
    ensures IndexOn(schema, field).value in schema && IndexOn(schema, field).value.field == field
  {
    if schema[0].field != field {
      IndexOnIn(schema[1..], field);
    }
  }

  lemma {:induction false} IdFinds(conds: seq<Condition>, c: Condition, t: Table)
    requires c in conds && c.op.Eq? && c.field == "id" && Fitting(c, t) && Filed(t)
    ensures FindsAll(conds, {c.value}, t)
  {
    forall k | k in t && TestAll(conds, t[k])
      ensures k == c.value
    {
      EqualMeans(c, t, k);
    }
  }

  /** An index on the field of an equality finds every committed record that passes it. */
  lemma {:induction false} IndexFinds(schema: Schema, i: nat, conds: seq<Condition>, c: Condition, x: Indexes,
                                      read: Reader, committed: Table, t: Table)
    requires i < |schema| && c in conds && c.op.Eq? && c.field == schema[i].field && c.field != "id"
    requires Fitting(c, committed)
    requires Filed(committed) && PrimaryAgrees(read, x, committed) && PairsAgree(schema, x, committed)
    requires UniqueAgrees(schema, x, committed)
    requires forall k :: k in t ==> k in committed && t[k] == committed[k]
    ensures FindsAll(conds, Targets(ByIndex(schema[i], c.value), x, read), t)
  {
    var m := schema[i];
    forall k | k in t && TestAll(conds, t[k])
      ensures k in Targets(ByIndex(m, c.value), x, read)
    {
      EqualMeans(c, committed, k);
      assert Field(committed[k], m.field) == c.value;
      if m.unique {
        assert (m.name, c.value) in UniquesOf(schema, committed[k]);
        assert Holds(schema, committed, k, (m.name, c.value));
      } else {
        assert (m.name, c.value, k) in PairsOf(schema, committed[k], k);
      }
    }
  }

  /** The condition that the plan follows, if any, is an equality with a value of the stored kind. */
  ghost predicate FollowsEquality(schema: Schema, conds: seq<Condition>, committed: Table, c: Changes) {
    var chosen := Chosen(schema, conds, c.cleared);
    chosen.Some? ==>
      chosen.value.op.Eq? && Fitting(chosen.value, committed) && Fitting(chosen.value, c.inserts)
  }

  /**
   If the condition that the plan follows is an equality with a value of the stored kind, then the plan
   gives what a scan over the transaction's view gives.
   */
  lemma {:induction false} IndexPlanIsScan(schema: Schema, conds: seq<Condition>, x: Indexes, read: Reader,
                                           committed: Table, c: Changes)
    requires Proper(committed, c)
    requires PrimaryAgrees(read, x, committed) && PairsAgree(schema, x, committed) && UniqueAgrees(schema, x, committed)
    requires FollowsEquality(schema, conds, committed, c)
    ensures Listed(schema, conds, x, read, committed, c) == Matching(conds, View(committed, c))
  {
    var plan := ChoosePlan(schema, conds, c.cleared);
    var targets := Targets(plan, x, read);
    if IdCondition(conds).Some? {
      IdConditionIn(conds);
      IdFinds(conds, IdCondition(conds).value, committed);
      IdFinds(conds, IdCondition(conds).value, c.inserts);
    } else if !c.cleared && IndexCondition(schema, conds).Some? {
      IndexConditionIn(schema, conds);
      var (cond, m) := IndexCondition(schema, conds).value;
      var i :| 0 <= i < |schema| && schema[i] == m;
      NotOnId(schema, conds);
      IndexFinds(schema, i, conds, cond, x, read, committed, Untouched(committed, c));
    }
    PlanIsScan(plan, targets, conds, committed, c);
  }

  // ---------------------------------------------------------------- conditions mistaken for equalities

  /** An equality is always recognised. */
  lemma {:induction false} EqualLooksEqual(c: Condition)
    requires c.op.Eq?
    ensures LooksEqual(c)
  {
    var s := Description(c);
    assert s[|c.field| + 1] == '=' && s[|c.field| + 2] == '=';
  }

  lemma {:induction false} NoEqualSign(n: nat)
    ensures forall i :: 0 <= i < |Digits(n)| ==> 48 <= Digits(n)[i] <= 57
  {
    if n >= 10 {
      NoEqualSign(n / 10);
    }
  }

  lemma {:induction false} ShownWithout(v: Value)
    requires !v.Text?
    ensures forall i :: 0 <= i < |Show(v)| ==> Show(v)[i] != 61
  {
    if IsInteger(v) {
      var k := AsInteger(v);
      NoEqualSign(if k < 0 then -k else k);
    }
  }

  /** In a comparison other than an equality, two equal signs in a row come from the value. */
  lemma {:induction false} SignsInValue(c: Condition)
    requires c.field == "id" && !c.op.Eq? && LooksEqual(c)
    ensures exists i :: 0 <= i < |Show(c.value)| && Show(c.value)[i] == 61
  {
    var s, shown := Description(c), Show(c.value);
    var head := c.field + Symbol(c.op);
    var i :| 0 <= i < |s| - 1 && s[i] == '=' && s[i + 1] == '=';
    HeadClean(c.op);
    assert forall j :: 0 <= j < |head| ==> s[j] == head[j];
    assert i >= |head| && s[i] == shown[i - |head|] as char;
    assert shown[i - |head|] == 61;
  }

  lemma {:induction false} HeadClean(op: Compare)
    requires !op.Eq?
    ensures var head := "id" + Symbol(op);
            head[|head| - 1] == ' ' && forall j :: 0 <= j < |head| - 1 ==> head[j] != '=' || head[j + 1] != '='
  {
  }

  /** Only the text of a value can make another comparison of the id look like an equality. */
  lemma {:induction false} OnlyTexts(c: Condition)
    requires c.field == "id" && !c.op.Eq? && LooksEqual(c)
    ensures c.value.Text? && c.value.bytes != []
  {
    SignsInValue(c);
    if !c.value.Text? {
      ShownWithout(c.value);
    }
  }

  /** A value that passes a comparison with `v` and is nil or different from `v`; there is none below nil. */
  function OtherValue(op: Compare, v: Value): Value {
    if op.Lt? || op.Le? then Nil
    else match v
      case Nil => Flag(true)
      case Text(s) => Text(s + [0])
      case _ => Text([126])
  }

  /** The same for ids, which are not nil. */
  function OtherId(op: Compare, v: Value): Value {
    if op.Lt? || op.Le? then Text([]) else OtherValue(op, v)
  }

  lemma {:induction false} LexLonger(v: seq<Byte>)
    ensures LexCompare(v + [0], v) == 1
  {
    if v != [] {
      assert (v + [0])[1..] == v[1..] + [0];
      LexLonger(v[1..]);
    }
  }

  /** Digits and minus signs come before the tilde. */
  lemma {:induction false} ShownBelowTilde(v: Value)
    requires !v.Text? && !v.Nil?
    ensures Show(v) != [] && Show(v)[0] < 126
  {
    if IsInteger(v) {
      var k := AsInteger(v);
      DigitsFirst(if k < 0 then -k else k);
    }
  }

  lemma {:induction false} DigitsFirst(n: nat)
    ensures Digits(n) != [] && Digits(n)[0] < 126
  {
    if n >= 10 {
      DigitsFirst(n / 10);
    }
  }

  /** A record with a nil value, which no index holds, is the one exception. */
  predicate NothingPasses(c: Condition) {
    c.op.Lt? && c.value.Nil?
  }

  lemma {:induction false} OtherPasses(c: Condition)
    requires !c.op.Eq? && !NothingPasses(c)
    ensures var w := OtherValue(c.op, c.value); (w != c.value || w.Nil?) && Compares(c.op, CompareValues(w, c.value))
  {
    match c.value
    case Nil =>
    case Text(s) => LexLonger(s);
    case _ => ShownBelowTilde(c.value);
  }

  lemma {:induction false} OtherIdPasses(c: Condition)
    requires !c.op.Eq? && c.value.Text? && c.value.bytes != []
    ensures var w := OtherId(c.op, c.value); w != c.value && !w.Nil? && Compares(c.op, CompareValues(w, c.value))
  {
    LexLonger(c.value.bytes);
  }

  const NO_CHANGES: Changes := Changes(false, map[], map[], {})

  /** The index file of the table with the one record `r`. */
  function OneRecord(schema: Schema, r: Rec): Indexes {
    Enter(EMPTY, schema, r, Pointer(0, 0))
  }

  function OneReader(r: Rec): Reader {
    p => Some(r)
  }

  ghost predicate AllAgree(schema: Schema, read: Reader, x: Indexes, t: Table) {
    PrimaryAgrees(read, x, t) && PairsAgree(schema, x, t) && UniqueAgrees(schema, x, t)
  }

  lemma {:induction false} OneAgrees(schema: Schema, r: Rec)
    ensures AllAgree(schema, OneReader(r), OneRecord(schema, r), map[r.id := r])
  {
    EmptyAgrees(schema, OneReader(r));
    assert map[][r.id := r] == map[r.id := r];
    EnterAgrees(schema, OneReader(r), EMPTY, map[], r, Pointer(0, 0));
    EnterUnique(schema, EMPTY, map[], r, Pointer(0, 0));
  }

  /** The query plan follows the condition. */
  predicate Followed(schema: Schema, c: Condition) {
    LooksEqual(c) && (c.field == "id" || IndexOn(schema, c.field).Some?)
  }

  lemma {:induction false} FollowedPlan(schema: Schema, c: Condition)
    ensures ChoosePlan(schema, [c], false) ==
            if !Followed(schema, c) then Scan
            else if c.field == "id" then ById(c.value) else ByIndex(IndexOn(schema, c.field).value, c.value)
    ensures Followed(schema, c) <==> Chosen(schema, [c], false).Some?
  {
    assert [c][1..] == [];
    assert IdCondition([c][1..]) == None && IndexCondition(schema, [c][1..]) == None;
    assert IdCondition([c]) == if c.field == "id" && LooksEqual(c) then Some(c) else None;
  }

  /** A record that passes the condition and that the plan does not find. */
  function MissedRecord(c: Condition): Rec {
    if c.field == "id" then Rec(OtherId(c.op, c.value), map[])
      else Rec(Flag(true), map[c.field := OtherValue(c.op, c.value)])
  }

  lemma {:induction false} MissedPasses(c: Condition)
    requires !c.op.Eq? && !NothingPasses(c) && LooksEqual(c)
    ensures var r := MissedRecord(c); r.id != Nil && Test(c, r) && (c.field == "id" ==> r.id != c.value)
    ensures c.field != "id" ==> OtherValue(c.op, c.value) != c.value || OtherValue(c.op, c.value).Nil?
  {
    if c.field == "id" {
      OnlyTexts(c);
      OtherIdPasses(c);
    } else {
      OtherPasses(c);
    }
  }

  /** The index on the field holds another value, or none. */
  lemma {:induction false} MissedByIndex(schema: Schema, c: Condition, m: IndexMeta)
    requires c.field != "id" && (OtherValue(c.op, c.value) != c.value || OtherValue(c.op, c.value).Nil?)
    ensures var r := MissedRecord(c); Targets(ByIndex(m, c.value), OneRecord(schema, r), OneReader(r)) == {}
  {
    var r := MissedRecord(c);
    var x := OneRecord(schema, r);
    assert forall n :: Field(r, n) == if n == c.field then OtherValue(c.op, c.value) else Nil;
    assert forall e :: e in x.pairs ==> e.1 != Nil && e.1 == OtherValue(c.op, c.value);
    assert forall u :: u in x.unique ==> u.1 != Nil && u.1 == OtherValue(c.op, c.value);
  }

  /** A comparison that is taken for an equality misses a record of some table. */
  lemma {:induction false} MissedIsMissed(schema: Schema, c: Condition)
    requires !c.op.Eq? && !NothingPasses(c) && Followed(schema, c)
    ensures var r := MissedRecord(c);
            var x, read, t := OneRecord(schema, r), OneReader(r), map[r.id := r];
            && Filed(t) && AllAgree(schema, read, x, t)
            && Listed(schema, [c], x, read, t, NO_CHANGES) != Matching([c], t)
  {
    var r := MissedRecord(c);
    var x, read, t := OneRecord(schema, r), OneReader(r), map[r.id := r];
    MissedPasses(c);
    OneAgrees(schema, r);
    FollowedPlan(schema, c);
    var plan := ChoosePlan(schema, [c], false);
    if c.field != "id" {
      MissedByIndex(schema, c, IndexOn(schema, c.field).value);
    }
    assert r.id !in Targets(plan, x, read);
    assert t[r.id] == r && r in t.Values;
    assert r in Matching([c], t);
    assert r !in Candidates(plan, Targets(plan, x, read), t, NO_CHANGES);
  }

  /** A comparison below nil passes nothing, whatever the plan. */
  lemma {:induction false} BelowNil(c: Condition, r: Rec)
    requires NothingPasses(c)
    ensures !Test(c, r)
  {
  }

  /** The query with the single condition `c` gives what a scan gives, on every table whose indexes agree with it. */
  ghost predicate PlanIsRight(schema: Schema, c: Condition) {
    forall x, read, t :: Filed(t) && AllAgree(schema, read, x, t) ==>
      Listed(schema, [c], x, read, t, NO_CHANGES) == Matching([c], t)
  }

  /**
   A comparison other than an equality is answered rightly on every table if and only if the planner does not
   take it for an equality on the id or on an indexed field, because of the characters `==` in the name of
   the field or in its value. The exception is a comparison that nothing passes.
   */
  lemma {:induction false} MistakenForEquality(schema: Schema, c: Condition)
    requires !c.op.Eq?
    ensures PlanIsRight(schema, c) <==> !Followed(schema, c) || NothingPasses(c)
  {
    if Followed(schema, c) && !NothingPasses(c) {
      var r := MissedRecord(c);
      MissedIsMissed(schema, c);
      assert Filed(map[r.id := r]) && AllAgree(schema, OneReader(r), OneRecord(schema, r), map[r.id := r]);
    } else {
      forall x, read, t | Filed(t) && AllAgree(schema, read, x, t)
        ensures Listed(schema, [c], x, read, t, NO_CHANGES) == Matching([c], t)
      {
        if NothingPasses(c) {
          assert forall r :: TestAll([c], r) ==> Test([c][0], r);
        } else {
          FollowedPlan(schema, c);
          assert Proper(t, NO_CHANGES) && View(t, NO_CHANGES) == t;
          IndexPlanIsScan(schema, [c], x, read, t, NO_CHANGES);
        }
      }
    }
  }

  // ---------------------------------------------------------------- what a condition asks

  /** The value that a record has under a name; the id is one of them, and what is missing is nil. */
  predicate HasValue(r: Rec, name: string, v: Value) {
    if name == "id" then r.id == v else if name in r.fields then r.fields[name] == v else v == Nil
  }

  /** What a comparison asks of a value that is, or is not, below or equal to the one given. */
  predicate Asked(op: Compare, below: bool, same: bool) {
    match op
    case Eq => same
    case Ne => !same
    case Gt => !below && !same
    case Ge => !below
    case Lt => below
    case Le => below || same
  }

  /** On numbers of either width the six comparisons are those of the integers. */
  lemma {:induction false} ConditionOnIntegers(c: Condition, r: Rec, v: Value, m: int, n: int)
    requires HasValue(r, c.field, v) && Stores(v, m) && Stores(c.value, n)
    ensures c.op.Eq? ==> (Test(c, r) <==> m == n)
    ensures c.op.Ne? ==> (Test(c, r) <==> m != n)
    ensures c.op.Gt? ==> (Test(c, r) <==> m > n)
    ensures c.op.Ge? ==> (Test(c, r) <==> m >= n)
    ensures c.op.Lt? ==> (Test(c, r) <==> m < n)
    ensures c.op.Le? ==> (Test(c, r) <==> m <= n)
  {
    IntegersCompare(v, m, c.value, n);
  }

  /** On texts they go by the dictionary order of the bytes. */
  lemma {:induction false} ConditionOnTexts(c: Condition, r: Rec, a: seq<Byte>, b: seq<Byte>)
    requires HasValue(r, c.field, Text(a)) && c.value == Text(b)
    ensures Test(c, r) <==> Asked(c.op, Precedes(a, b), a == b)
  {
    TextsCompare(a, b);
    if Precedes(a, b) {
      PrecedesNot(a, b);
    }
  }

  /** On flags false is below true. */
  lemma {:induction false} ConditionOnFlags(c: Condition, r: Rec, a: bool, b: bool)
    requires HasValue(r, c.field, Flag(a)) && c.value == Flag(b)
    ensures Test(c, r) <==> Asked(c.op, !a && b, a == b)
  {
    FlagsAndNil(a, b, Nil);
  }

  /** Nil, which is also the value of a missing field, is below everything else. */
  lemma {:induction false} ConditionOnNil(c: Condition, r: Rec, v: Value)
    requires HasValue(r, c.field, v) && (v.Nil? || c.value.Nil?)
    ensures Test(c, r) <==> Asked(c.op, v.Nil? && !c.value.Nil?, v == c.value)
  {
    FlagsAndNil(true, true, v);
    FlagsAndNil(true, true, c.value);
  }
}
