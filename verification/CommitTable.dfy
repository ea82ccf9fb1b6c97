/**
 A commit on the table file and its indexes together: the staged records are marshalled and appended,
 and the pointers go into the indexes.
 */
module CommitTable {
  import opened Options
  import opened KeyOrder
  import opened PageFormat
  import opened BigEndian
  import opened Values
  import opened Records
  import opened TableStorage
  import opened ShadowIndex
  import opened Overlay
  import opened CommitApply
  import opened UniqueCommit

  /** How records become bytes and back. */
  datatype Codec = Codec(marshal: Rec -> seq<Byte>, unmarshal: seq<Byte> -> Option<Rec>)

  ghost predicate RoundTrips(codec: Codec) {
    forall r :: codec.unmarshal(codec.marshal(r)) == Some(r)
  }

  /** Reading a record of a table file through a pointer. */
  function FileReader(codec: Codec, bytes: seq<Byte>): Reader {
    p => match ReadAt(bytes, p) case None => None case Some(b) => codec.unmarshal(b)
  }

  function Marshalled(codec: Codec, rs: seq<Rec>): (r: seq<seq<Byte>>)
    ensures |r| == |rs| && forall i :: 0 <= i < |rs| ==> r[i] == codec.marshal(rs[i])
  {
    seq(|rs|, i requires 0 <= i < |rs| => codec.marshal(rs[i]))
  }

  /** Appending to the table file keeps every agreement. */
  lemma {:induction false} AppendAgrees(codec: Codec, bytes: seq<Byte>, more: seq<Byte>, schema: Schema, x: Indexes,
                                        t: Table)
    requires Agrees(schema, FileReader(codec, bytes), x, t)
    ensures Agrees(schema, FileReader(codec, bytes + more), x, t)
  {
    forall k | k in t
      ensures FileReader(codec, bytes + more)(x.primary[k]) == Some(t[k])
    {
      assert FileReader(codec, bytes)(x.primary[k]) == Some(t[k]);
      assert ReadAt(bytes, x.primary[k]).Some?;
      AppendKeepsReads(bytes, more, x.primary[k]);
    }
  }

  ghost predicate SmallEnough(codec: Codec, rs: seq<Rec>) {
    forall i :: 0 <= i < |rs| ==> |codec.marshal(rs[i])| <= MAX_RECORD
  }

  /** The pointers of the appended records read them back. */
  lemma {:induction false} AppendedReads(codec: Codec, bytes: seq<Byte>, rs: seq<Rec>, i: nat)
    requires RoundTrips(codec) && SmallEnough(codec, rs) && i < |rs|
    ensures var raw := Marshalled(codec, rs);
            FileReader(codec, bytes + Joined(raw))(Placed(raw, |bytes|)[i]) == Some(rs[i])
  {
    var raw := Marshalled(codec, rs);
    PlacedReads(bytes, raw, i);
    assert codec.unmarshal(codec.marshal(rs[i])) == Some(rs[i]);
  }

  /** The indexes and the table file after a commit. */
  function TableAfter(codec: Codec, schema: Schema, bytes: seq<Byte>, x: Indexes, c: Changes,
                      o: Order): (Indexes, seq<Byte>) {
    var raw := Marshalled(codec, o.inserts + o.updates);
    var bytes' := bytes + Joined(raw);
    (Applied(x, schema, FileReader(codec, bytes'), c, o, Placed(raw, |bytes|)), bytes')
  }

  /**
   After a successful commit the primary index maps exactly the ids of the transaction's view to pointers
   that read back its records, the non-unique indexes hold exactly its entries, and the unique
   indexes hold exactly its values unless one was handed over.
   */
  lemma {:induction false} CommitOnTable(codec: Codec, schema: Schema, bytes: seq<Byte>, x: Indexes, committed: Table,
                                         c: Changes, o: Order)
    requires RoundTrips(codec) && SmallEnough(codec, o.inserts + o.updates)
    requires Proper(committed, c) && Follows(o, c) && Agrees(schema, FileReader(codec, bytes), x, committed)
    ensures var (x', bytes') := TableAfter(codec, schema, bytes, x, c, o);
            && Agrees(schema, FileReader(codec, bytes'), x', View(committed, c))
            && (UniqueAgrees(schema, x, committed) && NoDuplicates(schema, committed)
                && NoDuplicates(schema, View(committed, c)) ==>
                  (UniqueAgrees(schema, x', View(committed, c)) <==> !HandOff(schema, committed, o)))
  {
    var rs := o.inserts + o.updates;
    var raw := Marshalled(codec, rs);
    var bytes' := bytes + Joined(raw);
    var read, ps := FileReader(codec, bytes'), Placed(raw, |bytes|);
    AppendAgrees(codec, bytes, Joined(raw), schema, x, committed);
    forall i | 0 <= i < |ps|
      ensures read(ps[i]) == Some(rs[i])
    {
      AppendedReads(codec, bytes, rs, i);
    }
    CommitAgrees(schema, read, x, committed, c, o, ps);
    if UniqueAgrees(schema, x, committed) && NoDuplicates(schema, committed)
      && NoDuplicates(schema, View(committed, c)) {
      UniqueAfterCommit(schema, read, x, committed, c, o, ps);
    }
  }

  /** Every staged record can be read back from the table file. */
  ghost predicate StagedSmall(codec: Codec, c: Changes) {
    && (forall k :: k in c.inserts ==> |codec.marshal(c.inserts[k])| <= MAX_RECORD)
    && (forall k :: k in c.updates ==> |codec.marshal(c.updates[k])| <= MAX_RECORD)
  }

  /**
   The unique indexes agree with the view whatever order the program iterates in, if and only if no update
   gives up a value that another staged record takes.
   */
  lemma {:induction false} UniqueInEveryOrder(codec: Codec, schema: Schema, bytes: seq<Byte>, x: Indexes,
                                              committed: Table, c: Changes)
    requires RoundTrips(codec) && StagedSmall(codec, c)
    requires Proper(committed, c) && Agrees(schema, FileReader(codec, bytes), x, committed)
    requires UniqueAgrees(schema, x, committed) && NoDuplicates(schema, committed)
    requires NoDuplicates(schema, View(committed, c))
    ensures (forall o :: Follows(o, c) ==>
             UniqueAgrees(schema, TableAfter(codec, schema, bytes, x, c, o).0, View(committed, c)))
            <==> !ValueHandedOver(schema, committed, c)
  {
    forall o | Follows(o, c)
      ensures UniqueAgrees(schema, TableAfter(codec, schema, bytes, x, c, o).0, View(committed, c)) <==>
              !HandOff(schema, committed, o)
      ensures HandOff(schema, committed, o) ==> ValueHandedOver(schema, committed, c)
    {
      FollowsSmall(codec, c, o);
      CommitOnTable(codec, schema, bytes, x, committed, c, o);
      if HandOff(schema, committed, o) {
        OrderHandsOver(schema, committed, c, o);
      }
    }
    if ValueHandedOver(schema, committed, c) {
      var o := SomeOrderHandsOver(schema, committed, c);
      assert Follows(o, c);
    }
  }

  lemma {:induction false} FollowsSmall(codec: Codec, c: Changes, o: Order)
    requires Follows(o, c) && StagedSmall(codec, c)
    ensures SmallEnough(codec, o.inserts + o.updates)
  {
  }
}
