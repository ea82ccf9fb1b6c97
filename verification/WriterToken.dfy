/**
 The writer token: a channel with one token that transactions, and the operations that exclude them
 (close, compact, backup, drop, registration), take and give back. The model interleaves the steps
 of any number of callers.
 */
module WriterToken {
  type Caller = nat

  /**
   Where a caller stands. `Taken` has just received the token; `Spent` is a transaction that has ended but
   not returned.
   */
  datatype Phase = Idle | Taken(transaction: bool) | Busy | Active | Spent

  predicate Holds(p: Phase) { p.Taken? || p.Busy? || p.Active? }

  /** `takes` and `gives` count how often each caller received and returned the token. */
  datatype State = State(tokens: nat, closed: bool, phase: map<Caller, Phase>, takes: map<Caller, nat>,
                         gives: map<Caller, nat>)

  function PhaseOf(s: State, c: Caller): Phase { if c in s.phase then s.phase[c] else Idle }
  function TakesOf(s: State, c: Caller): nat { if c in s.takes then s.takes[c] else 0 }
  function GivesOf(s: State, c: Caller): nat { if c in s.gives then s.gives[c] else 0 }

  datatype Action =
    | Take(transaction: bool)   // receive the token from the channel
    | Cancel                    // the context was done: give it back
    | Enter                     // start the operation, or the transaction unless the database is closed
    | Shut                      // mark the database closed
    | Leave                     // end the operation: deferred unlock
    | Finish                    // commit or roll back: the transaction becomes inactive and its token is returned
    | Repeat                    // commit or roll back again: no effect
    | Return                    // the call ends

  /** Giving back: a send that is dropped if the channel is full. */
  function Unlock(s: State, c: Caller): State {
    s.(tokens := if s.tokens < 1 then s.tokens + 1 else s.tokens, gives := s.gives[c := GivesOf(s, c) + 1])
  }

  function Moved(s: State, c: Caller, p: Phase): State {
    s.(phase := s.phase[c := p])
  }

  predicate Enabled(s: State, c: Caller, a: Action) {
    var p := PhaseOf(s, c);
    match a
    case Take(_) => p.Idle? && s.tokens > 0
    case Cancel => p.Taken?
    case Enter => p.Taken?
    case Shut => p.Busy?
    case Leave => p.Busy?
    case Finish => p.Active?
    case Repeat => p.Spent?
    case Return => p.Spent?
  }

  function Act(s: State, c: Caller, a: Action): State
    requires Enabled(s, c, a)
  {
    match a
    case Take(t) => Moved(s.(tokens := s.tokens - 1, takes := s.takes[c := TakesOf(s, c) + 1]), c, Taken(t))
    case Cancel => Moved(Unlock(s, c), c, Idle)
    case Enter =>
      if !PhaseOf(s, c).transaction then Moved(s, c, Busy)
      else if s.closed then Moved(Unlock(s, c), c, Idle)
      else Moved(s, c, Active)
    case Shut => s.(closed := true)
    case Leave => Moved(Unlock(s, c), c, Idle)
    case Finish => Moved(Unlock(s, c), c, Spent)
    case Repeat => s
    case Return => Moved(s, c, Idle)
  }

  function Holders(s: State): set<Caller> {
    set c | c in s.phase && Holds(s.phase[c])
  }

  /** Tokens in the channel plus holders make one, and each caller's receipts and returns balance. */
  ghost predicate Conserved(s: State) {
    && s.tokens + |Holders(s)| == 1
    && (forall c: Caller :: Balanced(s, c))
  }

  /** Receipts and returns of caller `d` balance. */
  predicate Balanced(s: State, d: Caller) {
    TakesOf(s, d) == GivesOf(s, d) + (if Holds(PhaseOf(s, d)) then 1 else 0)
  }

  lemma {:induction false} StepBalances(s: State, c: Caller, a: Action, d: Caller)
    requires Enabled(s, c, a) && Balanced(s, d)
    ensures Balanced(Act(s, c, a), d)
  {
    var s' := Act(s, c, a);
    if d != c {
      assert TakesOf(s', d) == TakesOf(s, d) && GivesOf(s', d) == GivesOf(s, d) && PhaseOf(s', d) == PhaseOf(s, d);
    }
  }

  /** A token moves between the channel and the acting caller. */
  lemma {:induction false} TokenMoves(s: State, c: Caller, a: Action)
    requires Enabled(s, c, a) && (Holds(PhaseOf(s, c)) ==> s.tokens == 0)
    ensures var s' := Act(s, c, a);
            s'.tokens + (if Holds(PhaseOf(s', c)) then 1 else 0) == s.tokens + (if Holds(PhaseOf(s, c)) then 1 else 0)
  {
  }

  lemma {:induction false} StepTokens(s: State, c: Caller, a: Action)
    requires s.tokens + |Holders(s)| == 1 && Enabled(s, c, a)
    ensures Act(s, c, a).tokens + |Holders(Act(s, c, a))| == 1
    ensures Holds(PhaseOf(s, c)) ==> s.tokens == 0
  {
    HoldersAfter(s, c, a);
    OneMember(Holders(s), c);
    assert c in Holders(s) <==> Holds(PhaseOf(s, c));
    TokenMoves(s, c, a);
  }

  lemma {:induction false} HoldersAfter(s: State, c: Caller, a: Action)
    requires Enabled(s, c, a)
    ensures var s' := Act(s, c, a); Holders(s') == if Holds(PhaseOf(s', c)) then Holders(s) + {c} else Holders(s) - {c}
  {
    var s' := Act(s, c, a);
    forall d | d != c
      ensures d in Holders(s') <==> d in Holders(s)
    {
      assert PhaseOf(s', d) == PhaseOf(s, d);
    }
    assert c in Holders(s') <==> Holds(PhaseOf(s', c));
    assert c in Holders(s) <==> Holds(PhaseOf(s, c));
  }

  lemma {:induction false} OneMember(h: set<Caller>, c: Caller)
    ensures |h + {c}| == |h| + (if c in h then 0 else 1) && |h - {c}| == |h| - (if c in h then 1 else 0)
  {
    if c in h {
      assert h + {c} == h;
      assert h == (h - {c}) + {c};
    } else {
      assert h - {c} == h;
    }
  }

  /** Every step keeps the token, and a returned token is never dropped: the channel is empty then. */
  lemma {:induction false} StepConserves(s: State, c: Caller, a: Action)
    requires Conserved(s) && Enabled(s, c, a)
    ensures Conserved(Act(s, c, a))
    ensures Holds(PhaseOf(s, c)) ==> s.tokens == 0
  {
    StepTokens(s, c, a);
    forall d: Caller
      ensures Balanced(Act(s, c, a), d)
    {
      StepBalances(s, c, a, d);
    }
  }

  /** A run of steps by any callers. */
  ghost predicate Reachable(s: State, run: seq<(Caller, Action)>, s': State)
    decreases |run|
  {
    if run == [] then s' == s
    else Enabled(s, run[0].0, run[0].1) && Reachable(Act(s, run[0].0, run[0].1), run[1..], s')
  }

  const START: State := State(1, false, map[], map[], map[])

  /**
   In every reachable state at most one transaction is active, and a caller that is idle or whose
   transaction has ended has returned the token as often as it received it.
   */
  lemma {:induction false} RunConserves(s: State, run: seq<(Caller, Action)>, s': State)
    requires Conserved(s) && Reachable(s, run, s')
    ensures Conserved(s')
    ensures forall c: Caller, d: Caller :: PhaseOf(s', c).Active? && PhaseOf(s', d).Active? ==> c == d
    ensures forall c: Caller :: !Holds(PhaseOf(s', c)) ==> TakesOf(s', c) == GivesOf(s', c)
    decreases |run|
  {
    if run != [] {
      StepConserves(s, run[0].0, run[0].1);
      RunConserves(Act(s, run[0].0, run[0].1), run[1..], s');
    } else {
      forall c: Caller | !Holds(PhaseOf(s', c))
        ensures TakesOf(s', c) == GivesOf(s', c)
      {
        assert Balanced(s', c);
      }
      forall c: Caller, d: Caller | PhaseOf(s', c).Active? && PhaseOf(s', d).Active?
        ensures c == d
      {
        if c != d {
          assert {c, d} <= Holders(s');
          SubsetSize({c, d}, Holders(s'));
        }
      }
    }
  }

  lemma {:induction false} SubsetSize(a: set<Caller>, b: set<Caller>)
    requires a <= b
    ensures |a| <= |b|
  {
    assert b == a + (b - a);
  }

  lemma {:induction false} StartConserved()
    ensures Conserved(START)
  {
    assert Holders(START) == {};
  }

  // ---------------------------------------------------------------- closing

  /** A transaction becomes active exactly when it enters with the token on a database that is not closed. */
  lemma {:induction false} BecomesActive(s: State, c: Caller, a: Action, d: Caller)
    requires Enabled(s, c, a)
    ensures !PhaseOf(s, d).Active? && PhaseOf(Act(s, c, a), d).Active? <==>
            d == c && a.Enter? && PhaseOf(s, c) == Taken(true) && !s.closed
    ensures Act(s, c, a).closed <==> s.closed || a.Shut?
  {
    if d != c {
      assert PhaseOf(Act(s, c, a), d) == PhaseOf(s, d);
    }
  }

  /** While one operation holds the token there is no active transaction. */
  lemma {:induction false} BusyAlone(s: State, c: Caller, d: Caller)
    requires Conserved(s) && PhaseOf(s, c).Busy?
    ensures !PhaseOf(s, d).Active?
  {
    if PhaseOf(s, d).Active? {
      assert {c, d} <= Holders(s);
      SubsetSize({c, d}, Holders(s));
    }
  }

  /** So once the database is closed no transaction is active, and none ever becomes active. */
  lemma {:induction false} ClosedForGood(s: State, c: Caller, run: seq<(Caller, Action)>, s': State)
    requires Conserved(s) && Enabled(s, c, Shut) && Reachable(Act(s, c, Shut), run, s')
    ensures s'.closed && forall d: Caller :: !PhaseOf(s', d).Active?
  {
    var s1 := Act(s, c, Shut);
    forall d: Caller
      ensures !PhaseOf(s1, d).Active?
    {
      BusyAlone(s, c, d);
    }
    StaysClosed(s1, run, s');
  }

  lemma {:induction false} StaysClosed(s: State, run: seq<(Caller, Action)>, s': State)
    requires s.closed && (forall d: Caller :: !PhaseOf(s, d).Active?) && Reachable(s, run, s')
    ensures s'.closed && forall d: Caller :: !PhaseOf(s', d).Active?
    decreases |run|
  {
    if run != [] {
      var next := Act(s, run[0].0, run[0].1);
      forall d: Caller
        ensures !PhaseOf(next, d).Active?
      {
        BecomesActive(s, run[0].0, run[0].1, d);
      }
      BecomesActive(s, run[0].0, run[0].1, run[0].0);
      StaysClosed(next, run[1..], s');
    }
  }
}
