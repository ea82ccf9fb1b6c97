/**
 Values of fields and keys, and the order `compareValues` puts them in.
 */
module Values {
  import opened KeyOrder
  import opened BigEndian

  datatype Value =
    | Nil
    | Text(bytes: seq<Byte>)
    | Small(i32: Int32)
    | Long(i64: Int64)
    | Flag(on: bool)

  /** Strings compare byte by byte. */
  function LexCompare(a: seq<Byte>, b: seq<Byte>): (r: int)
    ensures r == -1 || r == 0 || r == 1
  {
    if a == [] then (if b == [] then 0 else -1)
    else if b == [] then 1
    else if a[0] < b[0] then -1
    else if a[0] > b[0] then 1
    else LexCompare(a[1..], b[1..])
  }

  function Sign(d: int): int {
    if d < 0 then -1 else if d > 0 then 1 else 0
  }

  predicate IsInteger(v: Value) { v.Small? || v.Long? }

  function AsInteger(v: Value): int
    requires IsInteger(v)
  {
    if v.Small? then v.i32 else v.i64
  }

  function Digits(n: nat): seq<Byte> {
    if n < 10 then [48 + n] else Digits(n / 10) + [48 + n % 10]
  }

  function ShowInteger(i: int): seq<Byte> {
    if i < 0 then [45] + Digits(-i) else Digits(i)
  }

  /** The default textual form, used only between values of different kinds. */
  function Show(v: Value): seq<Byte> {
    match v
    case Nil => [60, 110, 105, 108, 62]
    case Text(s) => s
    case Small(i) => ShowInteger(i)
    case Long(i) => ShowInteger(i)
    case Flag(b) => if b then [116, 114, 117, 101] else [102, 97, 108, 115, 101]
  }

  function CompareValues(a: Value, b: Value): int {
    if a.Nil? && b.Nil? then 0
    else if a.Nil? then -1
    else if b.Nil? then 1
    else if IsInteger(a) && IsInteger(b) then Sign(AsInteger(a) - AsInteger(b))
    else if a.Text? && b.Text? then LexCompare(a.bytes, b.bytes)
    else if a.Flag? && b.Flag? then (if !a.on && b.on then -1 else if a.on && !b.on then 1 else 0)
    else LexCompare(Show(a), Show(b))
  }

  /** Values of the same kind. */
  predicate SameKind(a: Value, b: Value) {
    (a.Text? && b.Text?) || (a.Small? && b.Small?) || (a.Long? && b.Long?) || (a.Flag? && b.Flag?)
  }

  // ---------------------------------------------------------------- order

  lemma {:induction false} LexZero(a: seq<Byte>, b: seq<Byte>)
    ensures LexCompare(a, b) == 0 <==> a == b
  {
    if a != [] && b != [] && a[0] == b[0] {
      LexZero(a[1..], b[1..]);
      assert a == [a[0]] + a[1..] && b == [b[0]] + b[1..];
    }
  }

  lemma {:induction false} LexAntisymmetric(a: seq<Byte>, b: seq<Byte>)
    ensures LexCompare(a, b) == -LexCompare(b, a)
  {
    if a != [] && b != [] {
      LexAntisymmetric(a[1..], b[1..]);
    }
  }

  lemma {:induction false} LexTransitive(a: seq<Byte>, b: seq<Byte>, c: seq<Byte>)
    requires LexCompare(a, b) <= 0 && LexCompare(b, c) <= 0
    ensures LexCompare(a, c) <= 0
  {
    if a != [] && b != [] && c != [] && a[0] == b[0] == c[0] {
      LexTransitive(a[1..], b[1..], c[1..]);
    }
  }

  /** Within one kind `compareValues` is a total order, and zero only on equal values. */
  lemma {:induction false} KindOrder(a: Value, b: Value)
    requires SameKind(a, b)
    ensures CompareValues(a, b) == 0 <==> a == b
    ensures CompareValues(a, b) == -CompareValues(b, a)
  {
    if a.Text? {
      LexZero(a.bytes, b.bytes);
      LexAntisymmetric(a.bytes, b.bytes);
    }
  }

  lemma {:induction false} KindTransitive(a: Value, b: Value, c: Value)
    requires SameKind(a, b) && SameKind(b, c) && CompareValues(a, b) <= 0 && CompareValues(b, c) <= 0
    ensures CompareValues(a, c) <= 0
  {
    if a.Text? {
      LexTransitive(a.bytes, b.bytes, c.bytes);
    }
  }

  // ---------------------------------------------------------------- which order it is

  /** The integer that a value of either width stores. */
  predicate Stores(v: Value, n: int) {
    (v.Small? && v.i32 == n) || (v.Long? && v.i64 == n)
  }

  /** Integers are ordered as integers, across both widths. */
  lemma {:induction false} IntegersCompare(a: Value, m: int, b: Value, n: int)
    requires Stores(a, m) && Stores(b, n)
    ensures CompareValues(a, b) < 0 <==> m < n
    ensures CompareValues(a, b) == 0 <==> m == n
    ensures CompareValues(a, b) > 0 <==> m > n
  {
  }

  /** `a` comes before `b`: it is a proper prefix, or has the smaller byte where they first differ. */
  ghost predicate Precedes(a: seq<Byte>, b: seq<Byte>) {
    exists i :: PrecedesAt(a, b, i)
  }

  predicate PrecedesAt(a: seq<Byte>, b: seq<Byte>, i: int) {
    0 <= i <= |a| && i < |b| && a[..i] == b[..i] && (i == |a| || a[i] < b[i])
  }

  lemma {:induction false} PrecedesNot(a: seq<Byte>, b: seq<Byte>)
    requires Precedes(a, b)
    ensures a != b && !Precedes(b, a)
  {
    var i :| PrecedesAt(a, b, i);
    forall j
      ensures !PrecedesAt(b, a, j)
    {
      if i < j < |a| && j <= |b| {
        assert a[..j][i] == a[i] && b[..j][i] == b[i];
      } else if 0 <= j < i {
        assert a[..i][j] == a[j] && b[..i][j] == b[j];
      }
    }
  }

  lemma {:induction false} LexPrecedes(a: seq<Byte>, b: seq<Byte>)
    ensures LexCompare(a, b) < 0 ==> Precedes(a, b)
    ensures LexCompare(a, b) > 0 ==> Precedes(b, a)
  {
    if a == [] || b == [] || a[0] != b[0] {
      assert a[..0] == b[..0];
      assert LexCompare(a, b) < 0 ==> PrecedesAt(a, b, 0);
      assert LexCompare(a, b) > 0 ==> PrecedesAt(b, a, 0);
    } else {
      LexPrecedes(a[1..], b[1..]);
      if LexCompare(a, b) < 0 {
        PrecedesLonger(a, b);
      } else if LexCompare(a, b) > 0 {
        PrecedesLonger(b, a);
      }
    }
  }

  lemma {:induction false} PrecedesLonger(a: seq<Byte>, b: seq<Byte>)
    requires a != [] && b != [] && a[0] == b[0] && Precedes(a[1..], b[1..])
    ensures Precedes(a, b)
  {
    var i :| PrecedesAt(a[1..], b[1..], i);
    assert a[..i + 1] == [a[0]] + a[1..][..i] && b[..i + 1] == [b[0]] + b[1..][..i];
    assert PrecedesAt(a, b, i + 1);
  }

  /** Texts are ordered as in a dictionary, by their bytes. */
  lemma {:induction false} TextsCompare(a: seq<Byte>, b: seq<Byte>)
    ensures CompareValues(Text(a), Text(b)) < 0 <==> Precedes(a, b)
    ensures CompareValues(Text(a), Text(b)) == 0 <==> a == b
    ensures CompareValues(Text(a), Text(b)) > 0 <==> Precedes(b, a)
  {
    LexZero(a, b);
    LexPrecedes(a, b);
    if Precedes(a, b) {
      PrecedesNot(a, b);
    }
    if Precedes(b, a) {
      PrecedesNot(b, a);
    }
  }

  /** False comes before true, and nil before everything else. */
  lemma {:induction false} FlagsAndNil(a: bool, b: bool, v: Value)
    ensures CompareValues(Flag(a), Flag(b)) < 0 <==> !a && b
    ensures CompareValues(Flag(a), Flag(b)) == 0 <==> a == b
    ensures CompareValues(Flag(a), Flag(b)) > 0 <==> a && !b
    ensures CompareValues(Nil, v) < 0 <==> v != Nil
    ensures CompareValues(v, Nil) > 0 <==> v != Nil
    ensures CompareValues(Nil, Nil) == 0
  {
  }

  // ---------------------------------------------------------------- how integers are shown

  /** The number that decimal digits stand for. */
  function FromDigits(s: seq<Byte>): int {
    if s == [] then 0
    else
      var last: int := s[|s| - 1];
      FromDigits(s[..|s| - 1]) * 10 + last - 48
  }

  /** A natural number is shown by its decimal digits, without leading zeros. */
  lemma {:induction false} DigitsRead(n: nat)
    ensures var s := Digits(n);
            && FromDigits(s) == n && s != [] && (forall i :: 0 <= i < |s| ==> 48 <= s[i] <= 57)
            && (n > 0 ==> s[0] != 48)
  {
    if n >= 10 {
      DigitsRead(n / 10);
      var s := Digits(n);
      assert s[..|s| - 1] == Digits(n / 10);
    }
  }

  /** And a negative one with a minus sign before them. */
  lemma {:induction false} IntegerShown(v: Value, n: int)
    requires Stores(v, n)
    ensures n >= 0 ==> FromDigits(Show(v)) == n
    ensures n < 0 ==> Show(v)[0] == 45 && FromDigits(Show(v)[1..]) == -n
  {
    DigitsRead(if n < 0 then -n else n);
  }
}
