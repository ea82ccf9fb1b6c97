/**
 Scanning an index of integers from one number to another: what `RangeNamed` shows, in terms of the
 numbers and not of their keys.
 */
module ValueScan {
  import opened KeyOrder
  import opened BigEndian
  import opened PageFormat
  import opened Values
  import opened KeyCodec
  import opened KeyCompare
  import opened TreeRange
  import opened IndexFile
  import opened SourceOrder
  import opened PagedFile
  import opened IndexLookup

  /** A number of the width of the index. */
  predicate InWidth(k: Kind, n: int) {
    (k.Smalls? && -TWO31 <= n < TWO31) || (k.Longs? && -TWO63 <= n < TWO63)
  }

  function NumberValue(k: Kind, n: int): (v: Value)
    requires InWidth(k, n)
    ensures Stores(v, n) && OfKind(v, k)
  {
    if k.Smalls? then Small(n) else Long(n)
  }

  function NumberKey(k: Kind, n: int): Key
    requires InWidth(k, n)
  {
    SerializeKey(NumberValue(k, n))
  }

  /** The key is that of the number. */
  predicate IsNumber(k: Kind, key: Key, n: int) {
    InWidth(k, n) && key == NumberKey(k, n)
  }

  /** All keys of an index are numbers. */
  ghost predicate Numbered(k: Kind, held: map<Key, Pointer>) {
    forall key :: key in held ==> exists n :: IsNumber(k, key, n)
  }

  /** The comparator orders keys as their numbers. */
  lemma {:induction false} NumberOrder(cmp: Cmp, k: Kind, a: Key, m: int, b: Key, n: int)
    requires SourceLike(cmp, Single(k)) && IsNumber(k, a, m) && IsNumber(k, b, n)
    ensures (cmp(a, b) < 0 <==> m < n) && (cmp(a, b) == 0 <==> m == n) && (cmp(a, b) > 0 <==> m > n)
  {
    IntegerKeys(NumberValue(k, m), m, NumberValue(k, n), n);
    assert KeyOf(Single(k), a) && KeyOf(Single(k), b);
    assert a in KeysOfKind(Single(k)) && b in KeysOfKind(Single(k));
  }

  /** `ns` are the numbers of the entries. */
  ghost predicate Numbers(k: Kind, es: seq<Entry>, ns: seq<int>) {
    |ns| == |es| && forall i :: 0 <= i < |es| ==> IsNumber(k, es[i].0, ns[i])
  }

  /** The entries from `m` to `n`: all of them, no others, in rising order. */
  ghost predicate RangeOf(k: Kind, held: map<Key, Pointer>, m: int, n: int, seen: seq<Entry>, ns: seq<int>) {
    && Numbers(k, seen, ns)
    && (forall i :: 0 <= i < |seen| ==> m <= ns[i] <= n && seen[i].0 in held && held[seen[i].0] == seen[i].1)
    && (forall i, j :: 0 <= i < j < |ns| ==> ns[i] < ns[j])
    && (forall j, key :: IsNumber(k, key, j) && m <= j <= n && key in held ==> j in ns)
  }

  lemma {:induction false} NumberFor(k: Kind, held: map<Key, Pointer>, es: seq<Entry>, seen: seq<Entry>)
    returns (ns: seq<int>)
    requires Numbered(k, held) && Lists(es, held) && forall e :: e in seen ==> e in es
    ensures Numbers(k, seen, ns)
  {
    ns := [];
    for i := 0 to |seen|
      invariant |ns| == i && forall j :: 0 <= j < i ==> IsNumber(k, seen[j].0, ns[j])
    {
      assert seen[i] in es;
      assert (seen[i].0, seen[i].1) in es;
      var n :| IsNumber(k, seen[i].0, n);
      ns := ns + [n];
    }
  }

  lemma {:induction false} BetweenNumbers(cmp: Cmp, k: Kind, held: map<Key, Pointer>, es: seq<Entry>, m: int, n: int)
    returns (ns: seq<int>)
    requires SourceLike(cmp, Single(k)) && Numbered(k, held) && Lists(es, held) && Ascending(cmp, es)
    requires InWidth(k, m) && InWidth(k, n)
    ensures RangeOf(k, held, m, n, Between(cmp, es, NumberKey(k, m), NumberKey(k, n)), ns)
  {
    var start, end := NumberKey(k, m), NumberKey(k, n);
    var seen := Between(cmp, es, start, end);
    forall e
      ensures e in seen <==> e in es && InRange(cmp, e, start, end)
    {
      BetweenAre(cmp, es, start, end, e);
    }
    BetweenAscend(cmp, es, start, end);
    ns := NumberFor(k, held, es, seen);
    forall i | 0 <= i < |seen|
      ensures m <= ns[i] <= n && seen[i].0 in held && held[seen[i].0] == seen[i].1
    {
      assert seen[i] in es;
      assert (seen[i].0, seen[i].1) in es;
      NumberOrder(cmp, k, seen[i].0, ns[i], start, m);
      NumberOrder(cmp, k, seen[i].0, ns[i], end, n);
    }
    forall i, j | 0 <= i < j < |ns|
      ensures ns[i] < ns[j]
    {
      NumberOrder(cmp, k, seen[i].0, ns[i], seen[j].0, ns[j]);
    }
    forall j, key | IsNumber(k, key, j) && m <= j <= n && key in held
      ensures j in ns
    {
      NumberListed(cmp, k, held, es, m, n, ns, j, key);
    }
  }

  lemma {:induction false} NumberListed(cmp: Cmp, k: Kind, held: map<Key, Pointer>, es: seq<Entry>, m: int, n: int,
                                        ns: seq<int>, j: int, key: Key)
    requires SourceLike(cmp, Single(k)) && Lists(es, held) && InWidth(k, m) && InWidth(k, n)
    requires Numbers(k, Between(cmp, es, NumberKey(k, m), NumberKey(k, n)), ns)
    requires IsNumber(k, key, j) && m <= j <= n && key in held
    ensures j in ns
  {
    var start, end := NumberKey(k, m), NumberKey(k, n);
    var seen := Between(cmp, es, start, end);
    NumberOrder(cmp, k, key, j, start, m);
    NumberOrder(cmp, k, key, j, end, n);
    assert (key, held[key]) in es;
    BetweenAre(cmp, es, start, end, (key, held[key]));
    var i :| 0 <= i < |seen| && seen[i] == (key, held[key]);
    NumberOrder(cmp, k, key, ns[i], key, j);
  }

  lemma {:induction false} ShownAll(es: seq<Entry>, visit: Visitor, seen: seq<Entry>)
    requires forall seen', e :: visit(seen', e)
    ensures Shown(es, visit, seen) == seen + es
    decreases |es|
  {
    if es == [] {
      assert seen + es == seen;
    } else {
      ShownAll(es[1..], visit, seen + [es[0]]);
      assert seen + [es[0]] + es[1..] == seen + es;
    }
  }

  /** Scan an index of numbers from `m` to `n`, both included. */
  method ScanNumbers(file: DiskBPlusTree, name: string, k: Kind, m: int, n: int)
    returns (seen: seq<Entry>, ghost ns: seq<int>)
    requires file.Valid() && EmptyFirst(file.cmp) && WholeChain(file.trees, name)
    requires SourceLike(file.cmp, Single(k)) && Numbered(k, Held(MeaningOf(file.F()), name))
    requires InWidth(k, m) && InWidth(k, n)
    modifies file`nodes
    ensures file.Valid() && file.View() == old(file.View())
    ensures RangeOf(k, Held(MeaningOf(file.F()), name), m, n, seen, ns)
  {
    ghost var f, es, held := file.F(), EntriesIn(file.trees, name), Held(MeaningOf(file.F()), name);
    EntriesInAre(file.cmp, file.F(), name);
    ns := BetweenNumbers(file.cmp, k, held, es, m, n);
    var all: Visitor := (seen, e) => true;
    ShownAll(Between(file.cmp, es, NumberKey(k, m), NumberKey(k, n)), all, []);
    seen := file.RangeNamed(name, NumberKey(k, m), NumberKey(k, n), all);
    assert file.F() == f && seen == Between(file.cmp, es, NumberKey(k, m), NumberKey(k, n));
  }
}
