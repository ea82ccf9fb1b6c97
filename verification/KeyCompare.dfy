/**
 Why the tree theorems apply to the comparator of the source.

 `compareByteKeys` is not an order on all byte strings, but a tree only ever compares keys of one
 index. `Unified` is a total order on all byte strings that agrees with the comparator on the
 keys of every single index, so trees built with either are the same trees.
 */
module KeyCompare {
  import opened Options
  import opened KeyOrder
  import opened BigEndian
  import opened Values
  import opened KeyCodec

  datatype Kind = Texts | Smalls | Longs | Flags

  predicate OfKind(v: Value, k: Kind) {
    match k
    case Texts => v.Text?
    case Smalls => v.Small?
    case Longs => v.Long?
    case Flags => v.Flag?
  }

  /** An index is keyed by values of one kind, or by pairs of a secondary value and a primary key. */
  datatype IndexKind = Single(kind: Kind) | Pairs(secondary: Kind, primary: Kind)

  /** The parts of a composite key are short enough for its length fields, and its first byte is no type tag. */
  predicate PlainParts(s: Value, p: Value) {
    Marked(|SerializeKey(s)|) && |SerializeKey(p)| < 0x10000
  }

  ghost predicate PairOf(k: Kind, l: Kind, key: Key, s: Value, p: Value) {
    OfKind(s, k) && (p.Nil? || OfKind(p, l)) && PlainParts(s, p) && key == SerializeComposite(s, p)
  }

  /** The keys of an index of kind `ik`; a scan may start from a composite key without primary part. */
  ghost predicate KeyOf(ik: IndexKind, key: Key) {
    match ik
    case Single(k) => exists v :: OfKind(v, k) && key == SerializeKey(v)
    case Pairs(k, l) => exists s, p :: PairOf(k, l, key, s, p)
  }

  // ---------------------------------------------------------------- an order on all values

  function Rank(v: Value): int {
    match v
    case Nil => 0
    case Text(_) => 1
    case Small(_) => 2
    case Long(_) => 3
    case Flag(_) => 4
  }

  function OrderValues(a: Value, b: Value): int {
    if Rank(a) != Rank(b) then Sign(Rank(a) - Rank(b)) else CompareValues(a, b)
  }

  lemma {:induction false} OrderValuesTotal(a: Value, b: Value)
    ensures OrderValues(a, b) == 0 <==> a == b
    ensures OrderValues(a, b) < 0 <==> OrderValues(b, a) > 0
  {
    if Rank(a) == Rank(b) && !a.Nil? {
      KindOrder(a, b);
    }
  }

  lemma {:induction false} OrderValuesTransitive(a: Value, b: Value, c: Value)
    requires OrderValues(a, b) <= 0 && OrderValues(b, c) <= 0
    ensures OrderValues(a, c) <= 0
  {
    if Rank(a) == Rank(b) == Rank(c) && !a.Nil? {
      KindTransitive(a, b, c);
    }
  }

  // ---------------------------------------------------------------- an order on all keys

  datatype Parsed = Least | One(value: Value) | Two(secondary: Value, primary: Value) | Raw(bytes: Key)

  function OrderParsed(x: Parsed, y: Parsed): int {
    match (x, y)
    case (Least, Least) => 0
    case (Least, _) => -1
    case (_, Least) => 1
    case (One(a), One(b)) => OrderValues(a, b)
    case (One(_), _) => -1
    case (Two(_, _), One(_)) => 1
    case (Two(s, p), Two(t, q)) => if OrderValues(s, t) != 0 then OrderValues(s, t) else OrderValues(p, q)
    case (Two(_, _), Raw(_)) => -1
    case (Raw(a), Raw(b)) => LexCompare(a, b)
    case (Raw(_), _) => 1
  }

  lemma {:induction false} OrderParsedTotal(x: Parsed, y: Parsed)
    ensures OrderParsed(x, y) == 0 <==> x == y
    ensures OrderParsed(x, y) < 0 <==> OrderParsed(y, x) > 0
  {
    match (x, y)
    case (One(a), One(b)) => OrderValuesTotal(a, b);
    case (Two(s, p), Two(t, q)) => OrderValuesTotal(s, t); OrderValuesTotal(t, s); OrderValuesTotal(p, q);
    case (Raw(a), Raw(b)) => LexZero(a, b); LexAntisymmetric(a, b);
    case _ =>
  }

  lemma {:induction false} OrderParsedTransitive(x: Parsed, y: Parsed, z: Parsed)
    requires OrderParsed(x, y) <= 0 && OrderParsed(y, z) <= 0
    ensures OrderParsed(x, z) <= 0
  {
    match (x, y, z)
    case (One(a), One(b), One(c)) => OrderValuesTransitive(a, b, c);
    case (Two(s, p), Two(t, q), Two(u, r)) =>
      OrderValuesTotal(s, t);
      OrderValuesTotal(t, u);
      OrderValuesTotal(s, u);
      OrderValuesTransitive(s, t, u);
      if s == t == u {
        OrderValuesTransitive(p, q, r);
      } else if s == u {
        OrderValuesTransitive(t, u, s);
      }
    case (Raw(a), Raw(b), Raw(c)) => LexTransitive(a, b, c);
    case _ =>
  }

  ghost predicate IsOne(key: Key, v: Value) { !v.Nil? && key == SerializeKey(v) }

  ghost predicate IsTwo(key: Key, s: Value, p: Value) { !s.Nil? && PlainParts(s, p) && key == SerializeComposite(s, p) }

  ghost function ParseKey(key: Key): Parsed {
    if key == [] then Least
    else if exists v :: IsOne(key, v) then (var v :| IsOne(key, v); One(v))
    else if exists s, p :: IsTwo(key, s, p) then (var s, p :| IsTwo(key, s, p); Two(s, p))
    else Raw(key)
  }

  /** Different keys parse differently. */
  lemma {:induction false} ParseInjective(a: Key, b: Key)
    requires ParseKey(a) == ParseKey(b)
    ensures a == b
  {
  }

  ghost function Unified(a: Key, b: Key): int {
    OrderParsed(ParseKey(a), ParseKey(b))
  }

  /** The empty key, which scans use for an open start, comes first; on it, too, the comparator agrees. */
  lemma {:induction false} UnifiedEmpty(key: Key)
    ensures Unified(key, []) >= 0 && Unified(key, []) == CompareByteKeys(key, [])
    ensures Unified([], key) == CompareByteKeys([], key)
  {
  }

  lemma {:induction false} UnifiedTotal()
    ensures TotalOrder((a, b) => Unified(a, b))
  {
    forall a, b
      ensures (Unified(a, b) == 0 <==> a == b) && (Unified(a, b) < 0 <==> Unified(b, a) > 0)
    {
      OrderParsedTotal(ParseKey(a), ParseKey(b));
      if ParseKey(a) == ParseKey(b) {
        ParseInjective(a, b);
      }
    }
    forall a, b, c | Unified(a, b) <= 0 && Unified(b, c) <= 0
      ensures Unified(a, c) <= 0
    {
      OrderParsedTransitive(ParseKey(a), ParseKey(b), ParseKey(c));
    }
  }

  // ---------------------------------------------------------------- agreement with the comparator

  /** Values of any kind have different encodings. */
  lemma {:induction false} SerializeInjective(a: Value, b: Value)
    requires SerializeKey(a) == SerializeKey(b)
    ensures a == b
  {
    var s, t := SerializeKey(a), SerializeKey(b);
    match a
    case Nil =>
    case Text(x) => assert s[0] == 1 && s[5..] == x && t[5..] == b.bytes;
    case Small(i) =>
      assert s[0] == 4 && s[1..] == Put32(i) && t[1..] == Put32(b.i32);
      GetPut32(i);
      GetPut32(b.i32);
    case Long(i) =>
      assert s[0] == 5 && s[1..] == Put64(i) && t[1..] == Put64(b.i64);
      GetPut64(i);
      GetPut64(b.i64);
    case Flag(_) => assert s[0] == 7;
  }

  lemma {:induction false} OneUnique(key: Key, v: Value, w: Value)
    requires IsOne(key, v) && IsOne(key, w)
    ensures v == w
  {
    SerializeInjective(v, w);
  }

  lemma {:induction false} ParseOne(key: Key, v: Value)
    requires IsOne(key, v)
    ensures ParseKey(key) == One(v)
  {
    var w :| IsOne(key, w) && ParseKey(key) == One(w);
    OneUnique(key, v, w);
  }

  lemma {:induction false} TwoNotOne(key: Key, s: Value, p: Value, v: Value)
    requires IsTwo(key, s, p)
    ensures !IsOne(key, v)
  {
    CompositeMarked(s, p);
    assert !v.Nil? ==> !LooksComposite(SerializeKey(v));
  }

  lemma {:induction false} TwoUnique(key: Key, s: Value, p: Value, t: Value, q: Value)
    requires IsTwo(key, s, p) && IsTwo(key, t, q)
    ensures s == t && p == q
  {
    TwoParts(key, s, p);
    TwoParts(key, t, q);
    SerializeInjective(s, t);
    SerializeInjective(p, q);
  }

  lemma {:induction false} TwoParts(key: Key, s: Value, p: Value)
    requires IsTwo(key, s, p)
    ensures SplitComposite(key) == Some((SerializeKey(s), SerializeKey(p)))
  {
    CompositeParts(SerializeKey(s), SerializeKey(p), []);
    assert key + [] == key;
  }

  lemma {:induction false} ParseTwo(key: Key, s: Value, p: Value)
    requires IsTwo(key, s, p)
    ensures ParseKey(key) == Two(s, p)
  {
    forall v
      ensures !IsOne(key, v)
    {
      TwoNotOne(key, s, p, v);
    }
    var t, q :| IsTwo(key, t, q) && ParseKey(key) == Two(t, q);
    TwoUnique(key, s, p, t, q);
  }

  /** On the keys of one index the comparator and the total order agree. */
  lemma {:induction false} Agrees(ik: IndexKind, a: Key, b: Key)
    requires KeyOf(ik, a) && KeyOf(ik, b)
    ensures Unified(a, b) == CompareByteKeys(a, b)
  {
    match ik
    case Single(k) =>
      var v :| OfKind(v, k) && a == SerializeKey(v);
      var w :| OfKind(w, k) && b == SerializeKey(w);
      ParseOne(a, v);
      ParseOne(b, w);
      CompareEncoded(v, w);
    case Pairs(k, l) => AgreesPairs(k, l, a, b);
  }

  lemma {:induction false} AgreesPairs(k: Kind, l: Kind, a: Key, b: Key)
    requires KeyOf(Pairs(k, l), a) && KeyOf(Pairs(k, l), b)
    ensures Unified(a, b) == CompareByteKeys(a, b)
  {
    var s, p :| PairOf(k, l, a, s, p);
    var t, q :| PairOf(k, l, b, t, q);
    AgreesComposite(a, s, p, b, t, q);
  }

  lemma {:induction false} AgreesComposite(a: Key, s: Value, p: Value, b: Key, t: Value, q: Value)
    requires IsTwo(a, s, p) && IsTwo(b, t, q) && SameKind(s, t) && (SameKind(p, q) || p.Nil? || q.Nil?)
    ensures Unified(a, b) == CompareByteKeys(a, b)
  {
    ParseTwo(a, s, p);
    ParseTwo(b, t, q);
    CompareComposites(s, p, t, q);
    KindOrder(s, t);
  }

  /** So on the keys of one index the comparator is a total order, zero exactly on equal keys. */
  lemma {:induction false} ComparatorTotal(ik: IndexKind, a: Key, b: Key, c: Key)
    requires KeyOf(ik, a) && KeyOf(ik, b) && KeyOf(ik, c)
    ensures CompareByteKeys(a, b) == 0 <==> a == b
    ensures CompareByteKeys(a, b) < 0 <==> CompareByteKeys(b, a) > 0
    ensures CompareByteKeys(a, b) <= 0 && CompareByteKeys(b, c) <= 0 ==> CompareByteKeys(a, c) <= 0
  {
    Agrees(ik, a, b);
    Agrees(ik, b, a);
    Agrees(ik, b, c);
    Agrees(ik, a, c);
    UnifiedTotal();
    var cmp: Cmp := (x, y) => Unified(x, y);
    assert cmp(a, b) == Unified(a, b) && cmp(b, a) == Unified(b, a);
    if cmp(a, b) <= 0 && cmp(b, c) <= 0 {
      Transitive(cmp, a, b, c);
    }
  }

  // ---------------------------------------------------------------- secondary parts of 256 to 2047 bytes

  /** The order meant for composite keys: by the secondary value, then by the primary key. */
  function PairOrder(s: Value, p: Value, t: Value, q: Value): int {
    if CompareValues(s, t) != 0 then CompareValues(s, t) else CompareValues(p, q)
  }

  /** The first byte of such a key reads as the tag of a value, and that of no other composite key does. */
  lemma {:induction false} TagsDiffer(s: Value, p: Value, t: Value, q: Value)
    requires s.Text? && t.Text? && |SerializeKey(s)| < 0x10000
    requires !Marked(|SerializeKey(s)|) && Marked(|SerializeKey(t)|)
    ensures var a, b := SerializeComposite(s, p), SerializeComposite(t, q);
            && !LooksComposite(a) && LooksComposite(b) && 1 <= a[0] <= 7
            && (DeserializeKey(b) == if b[0] == 0 then Some(Nil) else None)
            && DeserializeKey(a) != Some(Nil)
            && (|SerializeKey(t)| < 256 ==> b[0] == 0) && (|SerializeKey(t)| >= 2048 ==> b[0] > 7)
  {
    LengthBytes(s, p);
    LengthBytes(t, q);
  }

  /** Next to other composite keys its place depends on the lengths alone. */
  lemma {:induction false} MixedLengths(s: Value, p: Value, t: Value, q: Value)
    requires s.Text? && t.Text? && |SerializeKey(s)| < 0x10000
    requires !Marked(|SerializeKey(s)|) && Marked(|SerializeKey(t)|)
    ensures CompareByteKeys(SerializeComposite(s, p), SerializeComposite(t, q)) ==
            Sign(|SerializeKey(s)| - |SerializeKey(t)|)
  {
    TagsDiffer(s, p, t, q);
  }

  /** A composite key of text `s` is in order with those of a text `t`. */
  ghost predicate InOrder(s: Value, t: Value) {
    forall p, q :: SameKind(p, q) && |SerializeKey(p)| < 0x10000 && |SerializeKey(q)| < 0x10000 ==>
      CompareByteKeys(SerializeComposite(s, p), SerializeComposite(t, q)) == PairOrder(s, p, t, q)
  }

  /** Texts of an encoded length are in order with all texts of the other lengths exactly if that is no tag. */
  lemma {:induction false} LengthInOrder(n: nat)
    requires 5 <= n < 0x10000
    ensures Marked(n) <==>
            forall s: Value, t: Value :: s.Text? && t.Text? && |SerializeKey(s)| == n && Marked(|SerializeKey(t)|) ==>
              InOrder(s, t)
  {
    if Marked(n) {
      forall s: Value, t: Value | s.Text? && t.Text? && |SerializeKey(s)| == n && Marked(|SerializeKey(t)|)
        ensures InOrder(s, t)
      {
        forall p, q | SameKind(p, q) && |SerializeKey(p)| < 0x10000 && |SerializeKey(q)| < 0x10000
          ensures CompareByteKeys(SerializeComposite(s, p), SerializeComposite(t, q)) == PairOrder(s, p, t, q)
        {
          CompareComposites(s, p, t, q);
        }
      }
    } else {
      OutOfOrder(n);
    }
  }

  lemma {:induction false} OutOfOrder(n: nat)
    requires 256 <= n < 2048
    ensures exists s: Value, t: Value ::
              s.Text? && t.Text? && |SerializeKey(s)| == n && Marked(|SerializeKey(t)|) && !InOrder(s, t)
  {
    var s, t, p := Text(seq(n - 5, _ => 0)), Text([1]), Flag(true);
    MixedLengths(s, p, t, p);
    assert |SerializeKey(t)| == 6 && PairOrder(s, p, t, p) == -1;
    assert SameKind(p, p) && CompareByteKeys(SerializeComposite(s, p), SerializeComposite(t, p)) == 1;
    assert !InOrder(s, t);
  }

  /** Two texts of 1019 to 1274 bytes and any two primary keys: the comparator sees nothing but the lengths. */
  lemma {:induction false} LengthsCollide(s: Value, p: Value, t: Value, q: Value)
    requires s.Text? && t.Text? && 1024 <= |SerializeKey(s)| < 1280 && 1024 <= |SerializeKey(t)| < 1280
    ensures CompareByteKeys(SerializeComposite(s, p), SerializeComposite(t, q)) == 0 <==> |s.bytes| == |t.bytes|
  {
    ReadAsInteger(s, p);
    ReadAsInteger(t, q);
    if |s.bytes| != |t.bytes| {
      var a, b := SerializeComposite(s, p), SerializeComposite(t, q);
      if Get32(a[1..5]) == Get32(b[1..5]) {
        GetInjective(a[1..5], b[1..5]);
      }
    }
  }

  /** Its first byte is the tag of a 32-bit integer, and the next four are the same for texts of one length. */
  lemma {:induction false} ReadAsInteger(s: Value, p: Value)
    requires s.Text? && 1024 <= |SerializeKey(s)| < 1280
    ensures var a := SerializeComposite(s, p);
            && |a| > 5 && a[0] == 4 && a[1..5] == [|SerializeKey(s)| - 1024, 1, 0, 0]
            && DeserializeKey(a) == Some(Small(Get32(a[1..5])))
  {
    var a, n := SerializeComposite(s, p), |s.bytes|;
    LengthBytes(s, p);
    assert Put(4, n) == Put(3, n / 256) + [n % 256];
    assert Put(3, n / 256) == Put(2, 0) + [n / 256];
    assert Put(2, 0) == Put(1, 0) + [0] && Put(1, 0) == Put(0, 0) + [0];
    assert a[2..5] == SerializeKey(s)[..3];
  }
}
