/**
 The catalog page: the roots of all named indexes, and as much of the free list as there is room for.
 */
module CatalogCodec {
  import opened Options
  import opened KeyOrder
  import opened PageFormat
  import opened BigEndian
  import opened PageLayout
  import opened NodeCodec
  import opened CommitCrash

  const CATALOG_MAGIC: nat := 0x4d4b4341

  datatype Root = Root(name: seq<Byte>, page: PageID, gen: nat, unique: bool, ordered: bool)

  predicate RootInRange(r: Root) {
    r.page < TWO64 && r.gen < TWO64 && |r.name| < 0x10000
  }

  function FlagByte(b: bool): Byte { if b then 1 else 0 }

  function RootBytes(r: Root): (s: seq<Byte>)
    ensures |s| == 20 + |r.name|
  {
    Put(2, |r.name|) + r.name + Put(8, r.page) + (Put(8, r.gen) + [FlagByte(r.unique), FlagByte(r.ordered)])
  }

  function RootsBytes(roots: seq<Root>): seq<Byte> {
    if roots == [] then [] else RootBytes(roots[0]) + RootsBytes(roots[1..])
  }

  function IdsBytes(ids: seq<PageID>): (s: seq<Byte>)
    ensures |s| == 8 * |ids|
  {
    if ids == [] then [] else Put(8, ids[0]) + IdsBytes(ids[1..])
  }

  /** Where the roots end on the page. */
  function RootsEnd(roots: seq<Root>): nat {
    HEADER_SIZE + |RootsBytes(roots)|
  }

  /** The part of the free list that is written. */
  function WrittenFree(roots: seq<Root>, free: seq<PageID>): seq<PageID> {
    if |free| > FreeRoom(RootsEnd(roots)) then free[..FreeRoom(RootsEnd(roots))] else free
  }

  /** What follows the header; `None` if the roots do not fit. */
  function CatalogBody(roots: seq<Root>, free: seq<PageID>): (r: Option<seq<Byte>>)
    ensures r.Some? <==> RootsEnd(roots) <= CATALOG_LIMIT
    ensures r.Some? ==> |r.value| == PAGE_SIZE - HEADER_SIZE
  {
    if RootsEnd(roots) > CATALOG_LIMIT then None
    else
      var kept := WrittenFree(roots, free);
      var used := RootsBytes(roots) + Put(4, |kept|) + IdsBytes(kept);
      Some(used + Zeros(PAGE_SIZE - HEADER_SIZE - |used|))
  }

  // ---------------------------------------------------------------- reading

  /** A root read off the front of `s`, with what is left. */
  function ReadRoot(s: seq<Byte>): Option<(Root, seq<Byte>)> {
    if |s| < 2 then None
    else
      var n := Get(s[..2]);
      if |s| < 20 + n then None
      else
        Some((Root(s[2..2 + n], Get(s[2 + n..10 + n]), Get(s[10 + n..18 + n]), s[18 + n] == 1, s[19 + n] == 1),
              s[20 + n..]))
  }

  function ReadRoots(s: seq<Byte>, count: nat): Option<(seq<Root>, seq<Byte>)> {
    if count == 0 then Some(([], s))
    else
      match ReadRoot(s)
      case None => None
      case Some((r, rest)) =>
        match ReadRoots(rest, count - 1)
        case None => None
        case Some((roots, rest')) => Some(([r] + roots, rest'))
  }

  function ReadIds(s: seq<Byte>, count: nat): (ids: seq<PageID>)
    requires 8 * count <= |s|
  {
    if count == 0 then [] else [Get(s[..8])] + ReadIds(s[8..], count - 1)
  }

  /** The free list after the roots; `s` is the rest of the page, and its last four bytes are never used. */
  function ReadFree(s: seq<Byte>): seq<PageID> {
    if |s| < 8 then []
    else
      var n := Get(s[..4]);
      if 8 * n + 8 > |s| then [] else ReadIds(s[4..], n)
  }

  function ReadCatalog(body: seq<Byte>, count: nat): Option<(seq<Root>, seq<PageID>)> {
    match ReadRoots(body, count)
    case None => None
    case Some((roots, rest)) => Some((roots, ReadFree(rest)))
  }

  // ---------------------------------------------------------------- round trip

  lemma {:induction false} RootReads(r: Root, rest: seq<Byte>)
    requires RootInRange(r)
    ensures ReadRoot(RootBytes(r) + rest) == Some((r, rest))
  {
    var n := |r.name|;
    var flags: seq<Byte> := [FlagByte(r.unique), FlagByte(r.ordered)];
    RootParts(Put(2, n), r.name, Put(8, r.page), Put(8, r.gen), flags, rest);
    Limits();
    SmallGet(2, n);
    SmallGet(8, r.page);
    SmallGet(8, r.gen);
  }

  lemma {:induction false} RootParts(a: seq<Byte>, b: seq<Byte>, c: seq<Byte>, d: seq<Byte>, e: seq<Byte>,
                                     rest: seq<Byte>)
    requires |a| == 2 && |c| == 8 && |d| == 8 && |e| == 2
    ensures var s, n := a + b + c + (d + e) + rest, |b|;
            && |s| == 20 + n + |rest| && s[..2] == a && s[2..2 + n] == b && s[2 + n..10 + n] == c
            && s[10 + n..18 + n] == d
            && s[18 + n] == e[0] && s[19 + n] == e[1] && s[20 + n..] == rest
  {
  }

  lemma {:induction false} RootsRead(roots: seq<Root>, rest: seq<Byte>)
    requires forall i :: 0 <= i < |roots| ==> RootInRange(roots[i])
    ensures ReadRoots(RootsBytes(roots) + rest, |roots|) == Some((roots, rest))
  {
    if roots == [] {
      assert RootsBytes(roots) + rest == rest;
    } else {
      var more := RootsBytes(roots[1..]) + rest;
      assert RootsBytes(roots) + rest == RootBytes(roots[0]) + more;
      RootReads(roots[0], more);
      RootsRead(roots[1..], rest);
      OneMoreRoot(RootBytes(roots[0]) + more, roots[0], more, roots[1..], rest);
      assert [roots[0]] + roots[1..] == roots;
    }
  }

  lemma {:induction false} OneMoreRoot(s: seq<Byte>, r: Root, more: seq<Byte>, roots: seq<Root>, rest: seq<Byte>)
    requires ReadRoot(s) == Some((r, more)) && ReadRoots(more, |roots|) == Some((roots, rest))
    ensures ReadRoots(s, |roots| + 1) == Some(([r] + roots, rest))
  {
  }

  lemma {:induction false} IdsRead(ids: seq<PageID>, rest: seq<Byte>)
    requires forall i :: 0 <= i < |ids| ==> ids[i] < TWO64
    ensures ReadIds(IdsBytes(ids) + rest, |ids|) == ids
  {
    if ids != [] {
      var s := IdsBytes(ids) + rest;
      assert s == Put(8, ids[0]) + (IdsBytes(ids[1..]) + rest);
      assert s[..8] == Put(8, ids[0]) && s[8..] == IdsBytes(ids[1..]) + rest;
      Limits();
      SmallGet(8, ids[0]);
      IdsRead(ids[1..], rest);
    }
  }

  lemma {:induction false} FreeReads(ids: seq<PageID>, pad: nat)
    requires (forall i :: 0 <= i < |ids| ==> ids[i] < TWO64) && |ids| < TWO32
    requires pad >= 4 || ids == []
    ensures ReadFree(Put(4, |ids|) + IdsBytes(ids) + Zeros(pad)) == ids
  {
    var s := Put(4, |ids|) + IdsBytes(ids) + Zeros(pad);
    assert s[..4] == Put(4, |ids|) && s[4..] == IdsBytes(ids) + Zeros(pad);
    Limits();
    SmallGet(4, |ids|);
    IdsRead(ids, Zeros(pad));
  }

  /** Reading a catalog gives all roots and the longest part of the free list that fits. */
  lemma {:induction false} CatalogRoundTrip(roots: seq<Root>, free: seq<PageID>)
    requires (forall i :: 0 <= i < |roots| ==> RootInRange(roots[i]))
    requires (forall i :: 0 <= i < |free| ==> free[i] < TWO64)
    requires RootsEnd(roots) <= CATALOG_LIMIT
    ensures ReadCatalog(CatalogBody(roots, free).value, |roots|) == Some((roots, WrittenFree(roots, free)))
  {
    var kept := WrittenFree(roots, free);
    FreeFits(roots, free);
    BodyIs(roots, free);
    RootsRead(roots, FreeBytes(roots, free));
    FreeReads(kept, PAGE_SIZE - RootsEnd(roots) - 4 - 8 * |kept|);
  }

  /** What follows the roots. */
  function FreeBytes(roots: seq<Root>, free: seq<PageID>): seq<Byte>
    requires RootsEnd(roots) + 4 + 8 * |WrittenFree(roots, free)| <= PAGE_SIZE
  {
    var kept := WrittenFree(roots, free);
    Put(4, |kept|) + IdsBytes(kept) + Zeros(PAGE_SIZE - RootsEnd(roots) - 4 - 8 * |kept|)
  }

  lemma {:induction false} BodyIs(roots: seq<Root>, free: seq<PageID>)
    requires RootsEnd(roots) <= CATALOG_LIMIT && RootsEnd(roots) + 4 + 8 * |WrittenFree(roots, free)| <= PAGE_SIZE
    ensures CatalogBody(roots, free).value == RootsBytes(roots) + FreeBytes(roots, free)
  {
    var kept := WrittenFree(roots, free);
    Regrouped(RootsBytes(roots), Put(4, |kept|), IdsBytes(kept), Zeros(PAGE_SIZE - RootsEnd(roots) - 4 - 8 * |kept|));
  }

  lemma {:induction false} Regrouped(a: seq<Byte>, b: seq<Byte>, c: seq<Byte>, d: seq<Byte>)
    ensures a + b + c + d == a + (b + c + d)
  {
  }

  /** The kept part of the free list leaves the last four bytes of the page alone. */
  lemma {:induction false} FreeFits(roots: seq<Root>, free: seq<PageID>)
    requires RootsEnd(roots) <= CATALOG_LIMIT
    ensures var kept := WrittenFree(roots, free);
            |kept| <= 2048 && (kept == [] || RootsEnd(roots) + 4 + 8 * |kept| <= CATALOG_LIMIT)
              && RootsEnd(roots) + 4 + 8 * |kept| <= PAGE_SIZE
  {
  }

  /** It is the longest part that does. */
  lemma {:induction false} FreeLongest(roots: seq<Root>, free: seq<PageID>)
    ensures var kept := WrittenFree(roots, free);
            && kept <= free && (kept == [] || RootsEnd(roots) + 4 + 8 * |kept| <= 16380)
            && (kept == free || RootsEnd(roots) + 4 + 8 * (|kept| + 1) > 16380)
  {
    var end, room := RootsEnd(roots), FreeRoom(RootsEnd(roots));
    assert end <= CATALOG_LIMIT - 4 ==> 8 * room <= CATALOG_LIMIT - 4 - end < 8 * (room + 1);
  }

  // ---------------------------------------------------------------- the whole page

  function CatalogHeader(count: nat, id: nat, gen: nat, checksum: Word): (s: seq<Byte>)
    ensures |s| == HEADER_SIZE
  {
    HeaderBytes(Put(4, CATALOG_MAGIC), Put(2, 1) + [4, 0], Put(8, id), Put(8, gen), Put(2, count),
                Put(2, 0) + Put(2, 0), Put(8, 0), Put(4, checksum))
  }

  /** A catalog page; `None` if the roots do not fit. */
  function SerializeCatalog(crc: Crc, roots: seq<Root>, free: seq<PageID>, id: nat, gen: nat): (r: Option<seq<Byte>>)
    ensures r.Some? <==> RootsEnd(roots) <= CATALOG_LIMIT
    ensures r.Some? ==> |r.value| == PAGE_SIZE
  {
    match CatalogBody(roots, free)
    case None => None
    case Some(body) => Some(CatalogHeader(|roots|, id, gen, crc(CatalogHeader(|roots|, id, gen, 0) + body)) + body)
  }

  /** The roots and the free list of a catalog page; `None` for a wrong checksum or magic number. */
  function DeserializeCatalog(crc: Crc, p: seq<Byte>): Option<(seq<Root>, seq<PageID>)>
    requires |p| == PAGE_SIZE
  {
    if crc(Splice(p, 38, Put(4, 0))) != Get(p[38..42]) || Get(p[..4]) != CATALOG_MAGIC then None
    else ReadCatalog(p[HEADER_SIZE..], Get(p[24..26]))
  }

  lemma {:induction false} CatalogHeaderReads(count: nat, id: nat, gen: nat, c: Word, body: seq<Byte>)
    ensures var p := CatalogHeader(count, id, gen, c) + body;
            && p[..4] == Put(4, CATALOG_MAGIC) && p[24..26] == Put(2, count) && p[38..42] == Put(4, c)
            && p[HEADER_SIZE..] == body
            && Splice(p, 38, Put(4, 0)) == CatalogHeader(count, id, gen, 0) + body
  {
    var kind: seq<Byte> := Put(2, 1) + [4, 0];
    HeaderFields(Put(4, CATALOG_MAGIC), kind, Put(8, id), Put(8, gen), Put(2, count), Put(2, 0) + Put(2, 0), Put(8, 0),
                 Put(4, c), body);
    HeaderChecksum(Put(4, CATALOG_MAGIC), kind, Put(8, id), Put(8, gen), Put(2, count), Put(2, 0) + Put(2, 0),
                   Put(8, 0), Put(4, c), Put(4, 0), body);
  }

  /** Each root takes at least 20 bytes, so their number fits its field. */
  lemma {:induction false} RootsAtLeast(roots: seq<Root>)
    ensures |RootsBytes(roots)| >= 20 * |roots|
  {
    if roots != [] {
      RootsAtLeast(roots[1..]);
    }
  }

  /** Reading a catalog page gives all roots and the longest part of the free list that fits. */
  lemma {:induction false} CatalogPageRoundTrip(crc: Crc, roots: seq<Root>, free: seq<PageID>, id: nat, gen: nat)
    requires (forall i :: 0 <= i < |roots| ==> RootInRange(roots[i]))
    requires (forall i :: 0 <= i < |free| ==> free[i] < TWO64)
    requires RootsEnd(roots) <= CATALOG_LIMIT
    ensures DeserializeCatalog(crc, SerializeCatalog(crc, roots, free, id, gen).value) ==
            Some((roots, WrittenFree(roots, free)))
  {
    var body := CatalogBody(roots, free).value;
    var c := crc(CatalogHeader(|roots|, id, gen, 0) + body);
    CatalogHeaderReads(|roots|, id, gen, c, body);
    RootsAtLeast(roots);
    Limits();
    SmallGet(2, |roots|);
    SmallGet(4, c);
    SmallGet(4, CATALOG_MAGIC);
    CatalogRoundTrip(roots, free);
  }

  /** A page is only read as a catalog if its checksum is that of all its other bytes. */
  lemma {:induction false} CatalogChecked(crc: Crc, p: seq<Byte>)
    requires |p| == PAGE_SIZE
    ensures DeserializeCatalog(crc, p).Some? ==>
              crc(p[..38] + [0, 0, 0, 0] + p[42..]) == Get(p[38..42]) && Get(p[..4]) == 0x4d4b4341
  {
    var zeros: seq<Byte> := [0, 0, 0, 0];
    assert Put(4, 0) == zeros;
    assert Splice(p, 38, Put(4, 0)) == p[..38] + zeros + p[42..];
  }
}
