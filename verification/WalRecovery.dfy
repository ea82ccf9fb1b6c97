/**
 Which transactions recovery takes from a log: the records grouped by transaction, the
 transactions with a commit marker and no rollback marker.
 */
module WalRecovery {
  import opened KeyOrder
  import opened BigEndian
  import opened WalFormat

  /** The records of transaction `tx`, in log order. */
  function Group(rs: seq<Record>, tx: Int64): seq<Record> {
    if rs == [] then [] else (if rs[0].tx == tx then [rs[0]] else []) + Group(rs[1..], tx)
  }

  /** The transactions with a marker `op`, in log order. */
  function Marked(rs: seq<Record>, op: Byte): seq<Int64> {
    if rs == [] then [] else (if rs[0].op == op then [rs[0].tx] else []) + Marked(rs[1..], op)
  }

  function Without(txs: seq<Int64>, out: seq<Int64>): seq<Int64> {
    if txs == [] then [] else (if txs[0] in out then [] else [txs[0]]) + Without(txs[1..], out)
  }

  /** The committed transactions, in the order of their commit markers. */
  function Active(rs: seq<Record>): seq<Int64> {
    Without(Marked(rs, COMMIT), Marked(rs, ROLLBACK))
  }

  lemma {:induction false} GroupConcat(a: seq<Record>, b: seq<Record>, tx: Int64)
    ensures Group(a + b, tx) == Group(a, tx) + Group(b, tx)
  {
    if a == [] {
      assert a + b == b;
    } else {
      assert (a + b)[1..] == a[1..] + b;
      assert (a + b)[0] == a[0];
      GroupConcat(a[1..], b, tx);
      var own := if a[0].tx == tx then [a[0]] else [];
      assert own + (Group(a[1..], tx) + Group(b, tx)) == own + Group(a[1..], tx) + Group(b, tx);
    }
  }

  lemma {:induction false} MarkedConcat(a: seq<Record>, b: seq<Record>, op: Byte)
    ensures Marked(a + b, op) == Marked(a, op) + Marked(b, op)
  {
    if a == [] {
      assert a + b == b;
    } else {
      assert (a + b)[1..] == a[1..] + b;
      MarkedConcat(a[1..], b, op);
    }
  }

  lemma {:induction false} WithoutConcat(a: seq<Int64>, b: seq<Int64>, out: seq<Int64>)
    ensures Without(a + b, out) == Without(a, out) + Without(b, out)
  {
    if a == [] {
      assert a + b == b;
    } else {
      assert (a + b)[1..] == a[1..] + b;
      WithoutConcat(a[1..], b, out);
    }
  }

  /** A marker of a transaction is one of its records. */
  lemma {:induction false} MarkedInGroup(rs: seq<Record>, op: Byte, tx: Int64)
    ensures tx in Marked(rs, op) <==> exists i :: 0 <= i < |Group(rs, tx)| && Group(rs, tx)[i].op == op
  {
    if rs != [] {
      MarkedInGroup(rs[1..], op, tx);
      var head := if rs[0].tx == tx then [rs[0]] else [];
      var g, g' := Group(rs, tx), Group(rs[1..], tx);
      assert g == head + g';
      if tx in Marked(rs[1..], op) {
        var i :| 0 <= i < |g'| && g'[i].op == op;
        assert g[|head| + i].op == op;
      }
      if rs[0].op == op && rs[0].tx == tx {
        assert g[0].op == op;
      }
      if i :| 0 <= i < |g| && g[i].op == op {
        if i >= |head| {
          assert g'[i - |head|].op == op;
        }
      }
    }
  }

  lemma {:induction false} WithoutMember(txs: seq<Int64>, out: seq<Int64>, tx: Int64)
    ensures tx in Without(txs, out) <==> tx in txs && tx !in out
  {
    if txs != [] {
      WithoutMember(txs[1..], out, tx);
    }
  }

  lemma {:induction false} GroupMember(rs: seq<Record>, tx: Int64)
    ensures Group(rs, tx) == [] <==> forall i :: 0 <= i < |rs| ==> rs[i].tx != tx
  {
    if rs != [] {
      GroupMember(rs[1..], tx);
      if forall i :: 0 <= i < |rs| ==> rs[i].tx != tx {
        assert forall i :: 0 <= i < |rs[1..]| ==> rs[1..][i].tx == rs[i + 1].tx;
      } else if rs[0].tx != tx {
        var i :| 0 <= i < |rs| && rs[i].tx == tx;
        assert rs[1..][i - 1].tx == tx;
      }
    }
  }

  /** The first part of recovery: one pass over the records, then the filter on rolled-back transactions. */
  method SelectCommits(rs: seq<Record>) returns (groups: map<Int64, seq<Record>>, active: seq<Int64>)
    ensures forall tx :: tx in groups <==> Group(rs, tx) != []
    ensures forall tx :: tx in groups ==> groups[tx] == Group(rs, tx)
    ensures active == Active(rs)
  {
    groups := map[];
    var committed: seq<Int64>, rolledBack: seq<Int64> := [], [];
    for i := 0 to |rs|
      invariant forall tx :: tx in groups <==> Group(rs[..i], tx) != []
      invariant forall tx :: tx in groups ==> groups[tx] == Group(rs[..i], tx)
      invariant committed == Marked(rs[..i], COMMIT) && rolledBack == Marked(rs[..i], ROLLBACK)
    {
      var r := rs[i];
      ExtendOne(rs, i);
      groups := groups[r.tx := (if r.tx in groups then groups[r.tx] else []) + [r]];
      if r.op == COMMIT {
        committed := committed + [r.tx];
      } else if r.op == ROLLBACK {
        rolledBack := rolledBack + [r.tx];
      }
    }
    assert rs[..|rs|] == rs;
    active := [];
    for i := 0 to |committed|
      invariant active == Without(committed[..i], rolledBack)
    {
      assert committed[..i + 1] == committed[..i] + [committed[i]];
      WithoutConcat(committed[..i], [committed[i]], rolledBack);
      if committed[i] !in rolledBack {
        active := active + [committed[i]];
      }
    }
    assert committed[..|committed|] == committed;
  }

  lemma {:induction false} ExtendOne(rs: seq<Record>, i: nat)
    requires i < |rs|
    ensures forall tx :: Group(rs[..i + 1], tx) == Group(rs[..i], tx) + (if rs[i].tx == tx then [rs[i]] else [])
    ensures forall op :: Marked(rs[..i + 1], op) == Marked(rs[..i], op) + (if rs[i].op == op then [rs[i].tx] else [])
  {
    assert rs[..i + 1] == rs[..i] + [rs[i]];
    forall tx
      ensures Group(rs[..i + 1], tx) == Group(rs[..i], tx) + (if rs[i].tx == tx then [rs[i]] else [])
    {
      GroupConcat(rs[..i], [rs[i]], tx);
    }
    forall op
      ensures Marked(rs[..i + 1], op) == Marked(rs[..i], op) + (if rs[i].op == op then [rs[i].tx] else [])
    {
      MarkedConcat(rs[..i], [rs[i]], op);
    }
  }
}
