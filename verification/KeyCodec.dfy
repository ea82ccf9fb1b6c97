/**
 Keys of indexes as bytes: the tagged encoding of values, composite keys of a secondary value and a
 primary key, and the comparator that orders encoded keys.
 */
module KeyCodec {
  import opened Options
  import opened KeyOrder
  import opened BigEndian
  import opened Values

  const MAX_STRING: nat := 0x100_0000

  /** Strings of at most 16 MiB can be read back. */
  predicate Storable(v: Value) {
    v.Text? ==> |v.bytes| <= MAX_STRING
  }

  // ---------------------------------------------------------------- values

  function WriteString(s: seq<Byte>): seq<Byte> {
    Put(4, |s|) + s
  }

  function WriteValue(v: Value): seq<Byte> {
    match v
    case Nil => [0]
    case Text(s) => [1] + WriteString(s)
    case Small(i) => [4] + Put32(i)
    case Long(i) => [5] + Put64(i)
    case Flag(b) => [7, if b then 1 else 0]
  }

  /** Nil is a zero byte; other values have a tag, and texts a length, before their big-endian bytes. */
  lemma {:induction false} WrittenAs(v: Value)
    ensures var s := WriteValue(v);
            && s[0] == (match v case Nil => 0 case Text(_) => 1 case Small(_) => 4 case Long(_) => 5 case Flag(_) => 7)
            && |s| == (match v
                       case Nil => 1 case Text(t) => 5 + |t| case Small(_) => 5 case Long(_) => 9 case Flag(_) => 2)
            && (v.Text? && |v.bytes| < TWO31 ==> Get32(s[1..5]) == |v.bytes| && s[5..] == v.bytes)
            && (v.Small? ==> Get32(s[1..]) == v.i32) && (v.Long? ==> Get64(s[1..]) == v.i64)
  {
    var s := WriteValue(v);
    match v
    case Text(t) =>
      assert s[1..5] == Put(4, |t|) && s[5..] == t;
      if |t| < TWO31 {
        Limits();
        GetPut(4, |t|);
        ModUnique(|t|, Limit(4), 0, |t|);
      }
    case Small(i) =>
      assert s[1..] == Put32(i);
      GetPut32(i);
    case Long(i) =>
      assert s[1..] == Put64(i);
      GetPut64(i);
    case _ =>
  }

  /** A value read off the front of `s`, with what is left; `None` on malformed or unknown input. */
  function ReadValue(s: seq<Byte>): Option<(Value, seq<Byte>)> {
    if s == [] then None
    else match s[0]
      case 0 => Some((Nil, s[1..]))
      case 1 =>
        if |s| < 5 then None
        else
          var n := Get32(s[1..5]);
          if n < 0 || n > MAX_STRING || 5 + n > |s| then None else Some((Text(s[5..5 + n]), s[5 + n..]))
      case 4 => if |s| < 5 then None else Some((Small(Get32(s[1..5])), s[5..]))
      case 5 => if |s| < 9 then None else Some((Long(Get64(s[1..9])), s[9..]))
      case 7 => if |s| < 2 then None else Some((Flag(s[1] != 0), s[2..]))
      case _ => None
  }

  /** A written value is read back, with any suffix left over, exactly when it is no string over 16 MiB. */
  lemma {:induction false} ValueRoundTrip(v: Value, rest: seq<Byte>)
    requires v.Text? ==> |v.bytes| < TWO32
    ensures ReadValue(WriteValue(v) + rest) == Some((v, rest)) <==> (v.Text? ==> |v.bytes| <= 16777216)
  {
    if v.Text? {
      TextRoundTrip(v.bytes, rest);
    } else {
      PlainRoundTrip(v, rest);
    }
  }

  lemma {:induction false} TextRoundTrip(t: seq<Byte>, rest: seq<Byte>)
    requires |t| < TWO32
    ensures ReadValue(WriteValue(Text(t)) + rest) == Some((Text(t), rest)) <==> |t| <= MAX_STRING
  {
    var s := WriteValue(Text(t)) + rest;
    assert s[0] == 1 && s[1..5] == Put(4, |t|);
    Limits();
    GetPut(4, |t|);
    ModUnique(|t|, Limit(4), 0, |t|);
    assert s[5..5 + |t|] == t && s[5 + |t|..] == rest;
  }

  lemma {:induction false} PlainRoundTrip(v: Value, rest: seq<Byte>)
    requires !v.Text?
    ensures ReadValue(WriteValue(v) + rest) == Some((v, rest))
  {
    var s := WriteValue(v) + rest;
    match v
    case Nil => assert s[1..] == rest;
    case Small(i) =>
      assert s[1..5] == Put32(i) && s[5..] == rest;
      GetPut32(i);
    case Long(i) =>
      assert s[1..9] == Put64(i) && s[9..] == rest;
      GetPut64(i);
    case Flag(b) => assert s[2..] == rest;
  }

  // ---------------------------------------------------------------- keys

  function SerializeKey(v: Value): Key {
    if v.Nil? then [] else WriteValue(v)
  }

  function DeserializeKey(key: Key): Option<Value> {
    if key == [] then Some(Nil)
    else match ReadValue(key)
      case None => None
      case Some((v, _)) => Some(v)
  }

  lemma {:induction false} KeyRoundTrip(v: Value)
    requires Storable(v)
    ensures DeserializeKey(SerializeKey(v)) == Some(v)
  {
    ValueRoundTrip(v, []);
    assert WriteValue(v) + [] == WriteValue(v);
  }

  function SerializeComposite(secondary: Value, primary: Value): Key {
    var s, p := SerializeKey(secondary), SerializeKey(primary);
    Put(2, |s|) + s + Put(2, |p|) + p
  }

  /** The two parts of a composite key, if its lengths make sense. */
  function SplitComposite(key: Key): Option<(Key, Key)> {
    if |key| < 4 then None
    else
      var n := Get(key[..2]);
      if |key| < 2 + n + 2 then None
      else
        var m := Get(key[2 + n..4 + n]);
        if |key| < 4 + n + m then None else Some((key[2..2 + n], key[4 + n..4 + n + m]))
  }

  function DeserializeComposite(key: Key): Option<(Value, Value)> {
    match SplitComposite(key)
    case None => None
    case Some((s, p)) =>
      match (DeserializeKey(s), DeserializeKey(p))
      case (Some(secondary), Some(primary)) => Some((secondary, primary))
      case _ => None
  }

  lemma {:induction false} CompositeParts(s: Key, p: Key, rest: seq<Byte>)
    requires |s| < 0x10000 && |p| < 0x10000
    ensures SplitComposite(Put(2, |s|) + s + Put(2, |p|) + p + rest) == Some((s, p))
    ensures var key, n, m := Put(2, |s|) + s + Put(2, |p|) + p + rest, |s|, |p|;
            Get(key[..2]) == n && key[2..2 + n] == s && Get(key[2 + n..4 + n]) == m && key[4 + n..4 + n + m] == p
  {
    var key := Put(2, |s|) + s + Put(2, |p|) + p + rest;
    Limits();
    GetPut(2, |s|);
    GetPut(2, |p|);
    ModUnique(|s|, Limit(2), 0, |s|);
    ModUnique(|p|, Limit(2), 0, |p|);
    SliceParts(Put(2, |s|), s, Put(2, |p|), p, rest);
  }

  lemma {:induction false} SliceParts(x: seq<Byte>, s: Key, y: seq<Byte>, p: Key, rest: seq<Byte>)
    requires |x| == 2 && |y| == 2
    ensures var key, n, m := x + s + y + p + rest, |s|, |p|;
            key[..2] == x && key[2..2 + n] == s && key[2 + n..4 + n] == y && key[4 + n..4 + n + m] == p
  {
  }

  /** A composite key decodes to its two parts, with any suffix left over. */
  lemma {:induction false} CompositeRoundTrip(secondary: Value, primary: Value, rest: seq<Byte>)
    requires Storable(secondary) && Storable(primary)
    requires |SerializeKey(secondary)| < 0x10000 && |SerializeKey(primary)| < 0x10000
    ensures DeserializeComposite(SerializeComposite(secondary, primary) + rest) == Some((secondary, primary))
  {
    CompositeParts(SerializeKey(secondary), SerializeKey(primary), rest);
    KeyRoundTrip(secondary);
    KeyRoundTrip(primary);
  }

  // ---------------------------------------------------------------- comparator

  predicate LooksComposite(key: Key)
    requires key != []
  {
    (|key| > 1 && key[0] == 0) || key[0] > 7
  }

  /** Composite keys by their secondary part, then by their primary part; `None` if one of them is malformed. */
  function CompareComposite(a: Key, b: Key): Option<int>
    decreases |a| + |b|, 0
  {
    if |a| < 4 || |b| < 4 then None
    else
      var n, m := Get(a[..2]), Get(b[..2]);
      if |a| < 2 + n + 2 || |b| < 2 + m + 2 then None
      else
        var c := CompareByteKeys(a[2..2 + n], b[2..2 + m]);
        if c != 0 then Some(c)
        else
          var n', m' := Get(a[2 + n..4 + n]), Get(b[2 + m..4 + m]);
          if |a| < 4 + n + n' || |b| < 4 + m + m' then None
          else Some(CompareByteKeys(a[4 + n..4 + n + n'], b[4 + m..4 + m + m']))
  }

  function CompareByteKeys(a: Key, b: Key): int
    decreases |a| + |b|, 1
  {
    if a == [] && b == [] then 0
    else if a == [] then -1
    else if b == [] then 1
    else
      var composite := if LooksComposite(a) && LooksComposite(b) then CompareComposite(a, b) else None;
      if composite.Some? then composite.value
      else if a[0] == 1 && b[0] == 1 && |a| >= 5 && |b| >= 5 then LexCompare(a[5..], b[5..])
      else if a[0] == 4 && b[0] == 4 && |a| == 5 && |b| == 5 then Sign(Get32(a[1..]) - Get32(b[1..]))
      else if a[0] == 5 && b[0] == 5 && |a| == 9 && |b| == 9 then Sign(Get64(a[1..]) - Get64(b[1..]))
      else
        match (DeserializeKey(a), DeserializeKey(b))
        case (Some(v), Some(w)) => CompareValues(v, w)
        case _ => LexCompare(a, b)
  }

  /** On encoded values of one kind the comparator is `compareValues`. */
  lemma {:induction false} CompareEncoded(a: Value, b: Value)
    requires SameKind(a, b)
    ensures CompareByteKeys(SerializeKey(a), SerializeKey(b)) == CompareValues(a, b)
  {
    var s, t := SerializeKey(a), SerializeKey(b);
    assert !LooksComposite(s);
    match a
    case Text(x) =>
      assert s[5..] == x && t[5..] == b.bytes;
    case Small(_) => CompareIntegers(a, b);
    case Long(_) => CompareIntegers(a, b);
    case Flag(_) =>
      KeyRoundTrip(a);
      KeyRoundTrip(b);
  }

  lemma {:induction false} CompareIntegers(a: Value, b: Value)
    requires SameKind(a, b) && IsInteger(a)
    ensures CompareByteKeys(SerializeKey(a), SerializeKey(b)) == CompareValues(a, b)
  {
    var s, t := SerializeKey(a), SerializeKey(b);
    assert !LooksComposite(s);
    if a.Small? {
      assert s[1..] == Put32(a.i32) && t[1..] == Put32(b.i32);
      GetPut32(a.i32);
      GetPut32(b.i32);
    } else {
      assert s[1..] == Put64(a.i64) && t[1..] == Put64(b.i64);
      GetPut64(a.i64);
      GetPut64(b.i64);
    }
  }

  /** Encoded integers of either width are ordered as integers. */
  lemma {:induction false} IntegerKeys(a: Value, m: int, b: Value, n: int)
    requires Stores(a, m) && Stores(b, n)
    ensures CompareByteKeys(SerializeKey(a), SerializeKey(b)) < 0 <==> m < n
    ensures CompareByteKeys(SerializeKey(a), SerializeKey(b)) == 0 <==> m == n
    ensures CompareByteKeys(SerializeKey(a), SerializeKey(b)) > 0 <==> m > n
  {
    IntegersCompare(a, m, b, n);
    if SameKind(a, b) {
      CompareIntegers(a, b);
    } else {
      KeyRoundTrip(a);
      KeyRoundTrip(b);
    }
  }

  /** The same with nil, which is the empty key and comes first. */
  lemma {:induction false} CompareEncodedOrNil(a: Value, b: Value)
    requires SameKind(a, b) || a.Nil? || b.Nil?
    ensures CompareByteKeys(SerializeKey(a), SerializeKey(b)) == CompareValues(a, b)
  {
    if !a.Nil? && !b.Nil? {
      CompareEncoded(a, b);
    }
  }

  /** Lengths of a secondary part whose leading byte the comparator does not take for a type tag. */
  predicate Marked(n: nat) {
    n < 256 || 2048 <= n < 0x10000
  }

  /** A composite key starts with the two bytes of a length. */
  lemma {:induction false} LengthBytes(secondary: Value, primary: Value)
    requires |SerializeKey(secondary)| < 0x10000
    ensures var key, n := SerializeComposite(secondary, primary), |SerializeKey(secondary)|;
            |key| >= 4 && key[0] == n / 256 && key[1] == n % 256
  {
    var n := |SerializeKey(secondary)|;
    assert Put(2, n) == Put(1, n / 256) + [n % 256];
    assert Put(1, n / 256) == Put(0, n / 256 / 256) + [n / 256];
  }

  /** The leading byte of such a length is what marks a key as composite. */
  lemma {:induction false} CompositeMarked(secondary: Value, primary: Value)
    requires Marked(|SerializeKey(secondary)|)
    ensures LooksComposite(SerializeComposite(secondary, primary))
  {
    LengthBytes(secondary, primary);
  }

  /** On composite keys the comparator goes by the secondary value and then by the primary key. */
  lemma {:induction false} CompareComposites(s: Value, p: Value, t: Value, q: Value)
    requires SameKind(s, t) && (SameKind(p, q) || p.Nil? || q.Nil?)
    requires Marked(|SerializeKey(s)|) && Marked(|SerializeKey(t)|)
    requires |SerializeKey(p)| < 0x10000 && |SerializeKey(q)| < 0x10000
    ensures CompareByteKeys(SerializeComposite(s, p), SerializeComposite(t, q)) ==
            if CompareValues(s, t) != 0 then CompareValues(s, t) else CompareValues(p, q)
  {
    var a, b := SerializeComposite(s, p), SerializeComposite(t, q);
    CompositeMarked(s, p);
    CompositeMarked(t, q);
    CompareEncoded(s, t);
    CompareEncodedOrNil(p, q);
    CompareParts(SerializeKey(s), SerializeKey(p), SerializeKey(t), SerializeKey(q));
  }

  lemma {:induction false} CompareParts(s: Key, p: Key, t: Key, q: Key)
    requires |s| < 0x10000 && |p| < 0x10000 && |t| < 0x10000 && |q| < 0x10000
    ensures var a, b := Put(2, |s|) + s + Put(2, |p|) + p, Put(2, |t|) + t + Put(2, |q|) + q;
            var c := CompareByteKeys(s, t);
            CompareComposite(a, b) == Some(if c != 0 then c else CompareByteKeys(p, q))
  {
    var a, b := Put(2, |s|) + s + Put(2, |p|) + p, Put(2, |t|) + t + Put(2, |q|) + q;
    assert a + [] == a && b + [] == b;
    CompositeParts(s, p, []);
    CompositeParts(t, q, []);
    assert HasParts(a, s, p) && HasParts(b, t, q);
    CompareSplit(a, s, p, b, t, q);
  }

  /** The parts of a composite key are where the comparator looks for them. */
  ghost predicate HasParts(key: Key, s: Key, p: Key) {
    && |key| == 4 + |s| + |p| && Get(key[..2]) == |s| && key[2..2 + |s|] == s
    && Get(key[2 + |s|..4 + |s|]) == |p| && key[4 + |s|..4 + |s| + |p|] == p
  }

  lemma {:induction false} CompareSplit(a: Key, s: Key, p: Key, b: Key, t: Key, q: Key)
    requires HasParts(a, s, p) && HasParts(b, t, q)
    ensures var c := CompareByteKeys(s, t); CompareComposite(a, b) == Some(if c != 0 then c else CompareByteKeys(p, q))
  {
  }
}
