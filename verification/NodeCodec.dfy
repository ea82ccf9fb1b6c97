/**
 Nodes as pages: the fields of the header, the cells of leaves and internal nodes, and the round trip.
 */
module NodeCodec {
  import opened Options
  import opened KeyOrder
  import opened PageFormat
  import opened BigEndian
  import opened SplitFits
  import opened PageLayout

  const NODE_MAGIC: nat := 0x4d4b4958
  const INTERNAL: Byte := 1
  const LEAF: Byte := 2

  /** The numbers of a node fit the fields of its page. */
  predicate InRange(n: Node) {
    && n.gen < TWO64
    && (forall i :: 0 <= i < |n.keys| ==> |n.keys[i]| < 0xFF00)
    && match n
       case LeafNode(_, keys, ptrs, right) =>
         && |ptrs| == |keys| && right < TWO64
         && (forall i :: 0 <= i < |ptrs| ==> -TWO63 <= ptrs[i].offset < TWO63 && -TWO31 <= ptrs[i].size < TWO31)
       case InternalNode(_, keys, children) =>
         |children| == |keys| + 1 && forall i :: 0 <= i < |children| ==> children[i] < TWO64
  }

  // ---------------------------------------------------------------- cells

  function LeafCell(key: Key, p: Pointer): (c: seq<Byte>)
    requires -TWO63 <= p.offset < TWO63 && -TWO31 <= p.size < TWO31
    ensures |c| == CellSize(true, key)
  {
    Put(2, |key|) + key + Put64(p.offset) + Put32(p.size)
  }

  function ChildCell(child: PageID, key: Key): (c: seq<Byte>)
    ensures |c| == CellSize(false, key)
  {
    Put(8, child) + Put(2, |key|) + key
  }

  function ReadLeafCell(p: seq<Byte>, off: nat): Option<(Key, Pointer)> {
    if off + 2 > |p| then None
    else
      var n := Get(p[off..off + 2]);
      if off + 2 + n + 12 > |p| then None
      else Some((p[off + 2..off + 2 + n],
                 Pointer(Get64(p[off + 2 + n..off + 10 + n]), Get32(p[off + 10 + n..off + 14 + n]))))
  }

  function ReadChildCell(p: seq<Byte>, off: nat): Option<(PageID, Key)> {
    if off + 10 > |p| then None
    else
      var n := Get(p[off + 8..off + 10]);
      if off + 10 + n > |p| then None
      else Some((Get(p[off..off + 8]), p[off + 10..off + 10 + n]))
  }

  /** Slices of a slice. */
  lemma {:induction false} SubSlice(p: seq<Byte>, off: nat, c: seq<Byte>, i: nat, j: nat)
    requires off + |c| <= |p| && p[off..off + |c|] == c && i <= j <= |c|
    ensures p[off + i..off + j] == c[i..j]
  {
    forall k | 0 <= k < j - i
      ensures p[off + i..off + j][k] == c[i..j][k]
    {
      assert p[off..off + |c|][i + k] == c[i + k];
    }
  }

  lemma {:induction false} SmallGet(width: nat, x: nat)
    requires x < Limit(width)
    ensures Get(Put(width, x)) == x
  {
    GetPut(width, x);
    ModUnique(x, Limit(width), 0, x);
  }

  lemma {:induction false} FourParts(a: seq<Byte>, b: seq<Byte>, c: seq<Byte>, d: seq<Byte>)
    ensures var s := a + b + c + d;
            && s[..|a|] == a && s[|a|..|a| + |b|] == b && s[|a| + |b|..|a| + |b| + |c|] == c
            && s[|a| + |b| + |c|..] == d
  {
  }

  lemma {:induction false} LeafCellReads(p: seq<Byte>, off: nat, key: Key, ptr: Pointer)
    requires -TWO63 <= ptr.offset < TWO63 && -TWO31 <= ptr.size < TWO31 && |key| < 0x10000
    requires var c := LeafCell(key, ptr); off + |c| <= |p| && p[off..off + |c|] == c
    ensures ReadLeafCell(p, off) == Some((key, ptr))
  {
    var c, n := LeafCell(key, ptr), |key|;
    FourParts(Put(2, n), key, Put64(ptr.offset), Put32(ptr.size));
    SubSlice(p, off, c, 0, 2);
    SubSlice(p, off, c, 2, 2 + n);
    SubSlice(p, off, c, 2 + n, 10 + n);
    SubSlice(p, off, c, 10 + n, 14 + n);
    Limits();
    SmallGet(2, n);
    GetPut64(ptr.offset);
    GetPut32(ptr.size);
  }

  lemma {:induction false} ChildCellReads(p: seq<Byte>, off: nat, child: PageID, key: Key)
    requires child < TWO64 && |key| < 0x10000
    requires var c := ChildCell(child, key); off + |c| <= |p| && p[off..off + |c|] == c
    ensures ReadChildCell(p, off) == Some((child, key))
  {
    ChildParts(p, off, Put(8, child), Put(2, |key|), key);
    Limits();
    SmallGet(8, child);
    SmallGet(2, |key|);
  }

  lemma {:induction false} ChildParts(p: seq<Byte>, off: nat, a: seq<Byte>, b: seq<Byte>, key: seq<Byte>)
    requires |a| == 8 && |b| == 2 && off + 10 + |key| <= |p| && p[off..off + 10 + |key|] == a + b + key
    ensures p[off..off + 8] == a && p[off + 8..off + 10] == b && p[off + 10..off + 10 + |key|] == key
  {
    var c := a + b + key;
    SubSlice(p, off, c, 0, 8);
    SubSlice(p, off, c, 8, 10);
    SubSlice(p, off, c, 10, 10 + |key|);
  }

  function CellsOf(n: Node): (cells: Cells)
    requires InRange(n)
    ensures |cells| == |n.keys| && forall i :: 0 <= i < |cells| ==> |cells[i]| == CellSize(n.LeafNode?, n.keys[i])
  {
    match n
    case LeafNode(_, keys, ptrs, _) => seq(|keys|, i requires 0 <= i < |keys| => LeafCell(keys[i], ptrs[i]))
    case InternalNode(_, keys, children) => seq(|keys|, i requires 0 <= i < |keys| => ChildCell(children[i], keys[i]))
  }

  // ---------------------------------------------------------------- sizes

  lemma {:induction false} TailSize(n: Node, k: nat)
    requires InRange(n) && k <= |n.keys|
    ensures |Tail(CellsOf(n), k)| == CellBytes(n.LeafNode?, n.keys[..k])
  {
    if k > 0 {
      TailSize(n, k - 1);
      CellsMore(n.LeafNode?, n.keys, k - 1);
    }
  }

  lemma {:induction false} CellsMore(leaf: bool, keys: seq<Key>, k: nat)
    requires k < |keys|
    ensures CellBytes(leaf, keys[..k + 1]) == CellBytes(leaf, keys[..k]) + CellSize(leaf, keys[k])
    decreases k
  {
    if k == 0 {
      var one: seq<Key> := [keys[0]];
      assert keys[..1] == one && keys[..0] == [] && one[1..] == [];
    } else {
      CellsMore(leaf, keys[1..], k - 1);
      assert keys[..k + 1][1..] == keys[1..][..k] && keys[..k][1..] == keys[1..][..k - 1];
    }
  }

  /**
   For nodes in range with at most 8168 keys, the serializer's 16-bit arithmetic succeeds exactly when there
   is room.
   */
  lemma {:induction false} RoomIff(n: Node)
    requires InRange(n) && |n.keys| <= 8168
    ensures Fits(n.LeafNode?, n.keys) <==> Room(CellsOf(n))
  {
    TailSize(n, |n.keys|);
    assert n.keys[..|n.keys|] == n.keys;
    TotalIs(n.LeafNode?, n.keys);
    FitsIff(n.LeafNode?, n.keys);
  }

  // ---------------------------------------------------------------- header

  /** The 48 bytes of a header: what precedes the checksum, the checksum, and padding. */
  function HeaderBytes(magic: seq<Byte>, kind: seq<Byte>, id: seq<Byte>, gen: seq<Byte>, count: seq<Byte>,
                       ends: seq<Byte>, right: seq<Byte>, checksum: seq<Byte>): seq<Byte> {
    magic + kind + id + gen + (count + ends + right) + (checksum + Zeros(6))
  }

  lemma {:induction false} HeaderFields(magic: seq<Byte>, kind: seq<Byte>, id: seq<Byte>, gen: seq<Byte>,
                                        count: seq<Byte>, ends: seq<Byte>, right: seq<Byte>, checksum: seq<Byte>,
                                        rest: seq<Byte>)
    requires |magic| == 4 && |kind| == 4 && |id| == 8 && |gen| == 8 && |count| == 2 && |ends| == 4 && |right| == 8
    requires |checksum| == 4
    ensures var p := HeaderBytes(magic, kind, id, gen, count, ends, right, checksum) + rest;
            && |p| == 48 + |rest| && p[..4] == magic && p[4..8] == kind && p[16..24] == gen && p[24..26] == count
            && p[30..38] == right && p[38..42] == checksum
  {
  }

  lemma {:induction false} HeaderChecksum(magic: seq<Byte>, kind: seq<Byte>, id: seq<Byte>, gen: seq<Byte>,
                                          count: seq<Byte>, ends: seq<Byte>, right: seq<Byte>, checksum: seq<Byte>,
                                          checksum': seq<Byte>, rest: seq<Byte>)
    requires |magic| == 4 && |kind| == 4 && |id| == 8 && |gen| == 8 && |count| == 2 && |ends| == 4 && |right| == 8
    requires |checksum| == 4 == |checksum'|
    ensures |HeaderBytes(magic, kind, id, gen, count, ends, right, checksum) + rest| >= 42
    ensures Splice(HeaderBytes(magic, kind, id, gen, count, ends, right, checksum) + rest, 38, checksum') ==
            HeaderBytes(magic, kind, id, gen, count, ends, right, checksum') + rest
  {
    var front := magic + kind + id + gen + (count + ends + right);
    assert HeaderBytes(magic, kind, id, gen, count, ends, right, checksum) + rest ==
      front + checksum + (Zeros(6) + rest);
    assert HeaderBytes(magic, kind, id, gen, count, ends, right, checksum') + rest ==
      front + checksum' + (Zeros(6) + rest);
    SpliceMiddle(front, checksum, Zeros(6) + rest, checksum');
  }

  function KindBytes(n: Node): (s: seq<Byte>)
    ensures |s| == 4 && s[2] == if n.LeafNode? then LEAF else INTERNAL
  {
    Put(2, 1) + [if n.LeafNode? then LEAF else INTERNAL] + [0]
  }

  /** The right sibling of a leaf; an internal node keeps its last child there. */
  function RightField(n: Node): nat
    requires InRange(n)
  {
    if n.LeafNode? then n.right else n.children[|n.children| - 1]
  }

  function HeaderOf(n: Node, id: nat, checksum: Word): seq<Byte>
    requires InRange(n) && Room(CellsOf(n))
  {
    HeaderBytes(Put(4, NODE_MAGIC), KindBytes(n), Put(8, id), Put(8, n.gen), Put(2, |n.keys|),
                Put(2, HEADER_SIZE + 2 * |n.keys|) +
                  Put(2, PAGE_SIZE - |Tail(CellsOf(n), |n.keys|)|), Put(8, RightField(n)), Put(4, checksum))
  }

  function SlotsOf(cells: Cells): (slots: Cells)
    requires Room(cells)
    ensures |slots| == |cells| && TwoBytes(slots)
    ensures forall i :: 0 <= i < |cells| ==> Offset(cells, i) >= 0 && slots[i] == Put(2, Offset(cells, i))
  {
    assert forall i :: 0 <= i < |cells| ==> Offset(cells, i) >= 0 by {
      forall i | 0 <= i < |cells|
        ensures Offset(cells, i) >= 0
      {
        OffsetInPage(cells, i);
      }
    }
    seq(|cells|, i requires 0 <= i < |cells| && Offset(cells, i) >= 0 => Put(2, Offset(cells, i)))
  }

  /** Everything after the header. */
  function Rest(cells: Cells): seq<Byte>
    requires Room(cells)
  {
    Row(SlotsOf(cells), |cells|) + Zeros(Gap(cells)) + Tail(cells, |cells|)
  }

  /** A serialized node: the checksum is that of the page with a zero in its place. */
  function NodePage(crc: Crc, n: Node, id: nat): seq<Byte>
    requires InRange(n) && Room(CellsOf(n))
  {
    var rest := Rest(CellsOf(n));
    HeaderOf(n, id, crc(HeaderOf(n, id, 0) + rest)) + rest
  }

  // ---------------------------------------------------------------- reading

  /** The cell that slot `i` leads to; `None` if it is outside the page. */
  function LeafEntry(p: seq<Byte>, i: nat): Option<(Key, Pointer)> {
    var at := HEADER_SIZE + 2 * i;
    if at + 2 > |p| then None else ReadLeafCell(p, Get(p[at..at + 2]))
  }

  function ChildEntry(p: seq<Byte>, i: nat): Option<(PageID, Key)> {
    var at := HEADER_SIZE + 2 * i;
    if at + 2 > |p| then None else ReadChildCell(p, Get(p[at..at + 2]))
  }

  function ReadLeafCells(p: seq<Byte>, count: nat): Option<(seq<Key>, seq<Pointer>)> {
    if forall i :: 0 <= i < count ==> LeafEntry(p, i).Some? then
      Some((seq(count, i requires 0 <= i < count => LeafEntry(p, i).value.0),
            seq(count, i requires 0 <= i < count => LeafEntry(p, i).value.1)))
    else None
  }

  function ReadChildCells(p: seq<Byte>, count: nat): Option<(seq<Key>, seq<PageID>)> {
    if forall i :: 0 <= i < count ==> ChildEntry(p, i).Some? then
      Some((seq(count, i requires 0 <= i < count => ChildEntry(p, i).value.1),
            seq(count, i requires 0 <= i < count => ChildEntry(p, i).value.0)))
    else None
  }

  /** A page as a node; `None` for a wrong checksum, a wrong magic number, or offsets outside the page. */
  function DeserializeNode(crc: Crc, p: seq<Byte>): Option<Node>
    requires |p| == PAGE_SIZE
  {
    if crc(Splice(p, 38, Put(4, 0))) != Get(p[38..42]) || Get(p[..4]) != NODE_MAGIC then None
    else
      var kind, gen, count, right := p[4..8][2], Get(p[16..24]), Get(p[24..26]), Get(p[30..38]);
      if kind == LEAF then
        match ReadLeafCells(p, count)
        case None => None
        case Some((keys, ptrs)) => Some(LeafNode(gen, keys, ptrs, right))
      else
        match ReadChildCells(p, count)
        case None => None
        case Some((keys, children)) => Some(InternalNode(gen, keys, children + [right]))
  }

  // ---------------------------------------------------------------- round trip

  /** The page, seen as a layout of slots and cells. */
  lemma {:induction false} PageIs(header: seq<Byte>, cells: Cells)
    requires Room(cells)
    ensures header + Rest(cells) == Page(header, SlotsOf(cells), cells)
  {
  }

  lemma {:induction false} SlotReads(header: seq<Byte>, cells: Cells, i: nat)
    requires |header| == HEADER_SIZE && Room(cells) && i < |cells|
    ensures var p, at := header + Rest(cells), HEADER_SIZE + 2 * i;
            && at + 2 <= |p| == PAGE_SIZE && Get(p[at..at + 2]) == Offset(cells, i)
            && 0 <= Offset(cells, i) && Offset(cells, i) + |cells[i]| <= |p|
            && p[Offset(cells, i)..Offset(cells, i) + |cells[i]|] == cells[i]
  {
    PageIs(header, cells);
    SlotAt(header, SlotsOf(cells), cells, i);
    CellAt(header, SlotsOf(cells), cells, i);
    OffsetInPage(cells, i);
    Limits();
    SmallGet(2, Offset(cells, i));
  }

  lemma {:induction false} LeafCellsRead(p: seq<Byte>, keys: seq<Key>, ptrs: seq<Pointer>)
    requires |keys| == |ptrs| && forall i :: 0 <= i < |keys| ==> LeafEntry(p, i) == Some((keys[i], ptrs[i]))
    ensures ReadLeafCells(p, |keys|) == Some((keys, ptrs))
  {
    var r := ReadLeafCells(p, |keys|);
    assert r.value.0 == keys && r.value.1 == ptrs;
  }

  lemma {:induction false} ChildCellsRead(p: seq<Byte>, keys: seq<Key>, children: seq<PageID>)
    requires |keys| == |children| && forall i :: 0 <= i < |keys| ==> ChildEntry(p, i) == Some((children[i], keys[i]))
    ensures ReadChildCells(p, |keys|) == Some((keys, children))
  {
    var r := ReadChildCells(p, |keys|);
    assert r.value.0 == keys && r.value.1 == children;
  }

  lemma {:induction false} LeafEntryReads(header: seq<Byte>, n: Node, i: nat)
    requires |header| == HEADER_SIZE && InRange(n) && n.LeafNode? && Room(CellsOf(n)) && i < |n.keys|
    ensures LeafEntry(header + Rest(CellsOf(n)), i) == Some((n.keys[i], n.ptrs[i]))
  {
    var cells := CellsOf(n);
    SlotReads(header, cells, i);
    assert cells[i] == LeafCell(n.keys[i], n.ptrs[i]);
    LeafCellReads(header + Rest(cells), Offset(cells, i), n.keys[i], n.ptrs[i]);
  }

  lemma {:induction false} ChildEntryReads(header: seq<Byte>, n: Node, i: nat)
    requires |header| == HEADER_SIZE && InRange(n) && n.InternalNode? && Room(CellsOf(n)) && i < |n.keys|
    ensures ChildEntry(header + Rest(CellsOf(n)), i) == Some((n.children[i], n.keys[i]))
  {
    var cells := CellsOf(n);
    SlotReads(header, cells, i);
    assert cells[i] == ChildCell(n.children[i], n.keys[i]);
    ChildCellReads(header + Rest(cells), Offset(cells, i), n.children[i], n.keys[i]);
  }

  lemma {:induction false} RestSize(cells: Cells)
    requires Room(cells)
    ensures |Rest(cells)| == PAGE_SIZE - HEADER_SIZE
  {
    RowSize(SlotsOf(cells), |cells|);
  }

  /** What the header of a serialized node says. */
  lemma {:induction false} NodePageHeader(n: Node, id: nat, c: Word, rest: seq<Byte>)
    requires InRange(n) && Room(CellsOf(n))
    ensures var p := HeaderOf(n, id, c) + rest;
            && |p| == 48 + |rest| && p[..4] == Put(4, NODE_MAGIC) && p[4..8] == KindBytes(n)
            && p[16..24] == Put(8, n.gen)
            && p[24..26] == Put(2, |n.keys|) && p[30..38] == Put(8, RightField(n)) && p[38..42] == Put(4, c)
  {
    var ends := Put(2, HEADER_SIZE + 2 * |n.keys|) + Put(2, PAGE_SIZE - |Tail(CellsOf(n), |n.keys|)|);
    HeaderFields(Put(4, NODE_MAGIC), KindBytes(n), Put(8, id), Put(8, n.gen), Put(2, |n.keys|), ends,
                 Put(8, RightField(n)), Put(4, c), rest);
  }

  lemma {:induction false} ChecksumSpliced(n: Node, id: nat, c: Word, c': Word, rest: seq<Byte>)
    requires InRange(n) && Room(CellsOf(n))
    ensures |HeaderOf(n, id, c) + rest| >= 42
    ensures Splice(HeaderOf(n, id, c) + rest, 38, Put(4, c')) == HeaderOf(n, id, c') + rest
  {
    var ends := Put(2, HEADER_SIZE + 2 * |n.keys|) + Put(2, PAGE_SIZE - |Tail(CellsOf(n), |n.keys|)|);
    HeaderChecksum(Put(4, NODE_MAGIC), KindBytes(n), Put(8, id), Put(8, n.gen), Put(2, |n.keys|), ends,
                   Put(8, RightField(n)), Put(4, c), Put(4, c'), rest);
  }

  /** The values in the header of page `p` are those of node `n`, and its checksum is right. */
  ghost predicate HeaderSays(crc: Crc, p: seq<Byte>, n: Node)
    requires InRange(n)
  {
    && |p| == PAGE_SIZE && crc(Splice(p, 38, Put(4, 0))) == Get(p[38..42]) && Get(p[..4]) == NODE_MAGIC
    && p[4..8][2] == (if n.LeafNode? then LEAF else INTERNAL) && Get(p[16..24]) == n.gen && Get(p[24..26]) == |n.keys|
    && Get(p[30..38]) == RightField(n)
  }

  lemma {:induction false} HeaderValues(crc: Crc, n: Node, id: nat)
    requires InRange(n) && Room(CellsOf(n))
    ensures HeaderSays(crc, NodePage(crc, n, id), n)
  {
    var rest := Rest(CellsOf(n));
    var c := crc(HeaderOf(n, id, 0) + rest);
    RestSize(CellsOf(n));
    NodePageHeader(n, id, c, rest);
    ChecksumSpliced(n, id, c, 0, rest);
    Limits();
    SmallGet(4, c);
    SmallGet(4, NODE_MAGIC);
    SmallGet(8, n.gen);
    SmallGet(2, |n.keys|);
    SmallGet(8, RightField(n));
  }

  lemma {:induction false} ReadsBack(crc: Crc, p: seq<Byte>, n: Node)
    requires InRange(n) && HeaderSays(crc, p, n)
    requires n.LeafNode? ==> ReadLeafCells(p, |n.keys|) == Some((n.keys, n.ptrs))
    requires n.InternalNode? ==> ReadChildCells(p, |n.keys|) == Some((n.keys, n.children[..|n.keys|]))
    ensures DeserializeNode(crc, p) == Some(n)
  {
    if n.InternalNode? {
      assert n.children == n.children[..|n.keys|] + [n.children[|n.keys|]];
    }
  }

  /** Reading a serialized node gives the node back. */
  lemma {:induction false} NodeRoundTrip(crc: Crc, n: Node, id: nat)
    requires InRange(n) && Room(CellsOf(n))
    ensures |NodePage(crc, n, id)| == PAGE_SIZE && DeserializeNode(crc, NodePage(crc, n, id)) == Some(n)
  {
    var p := NodePage(crc, n, id);
    HeaderValues(crc, n, id);
    CellValues(crc, n, id);
    ReadsBack(crc, p, n);
  }

  lemma {:induction false} CellValues(crc: Crc, n: Node, id: nat)
    requires InRange(n) && Room(CellsOf(n))
    ensures n.LeafNode? ==> ReadLeafCells(NodePage(crc, n, id), |n.keys|) == Some((n.keys, n.ptrs))
    ensures n.InternalNode? ==> ReadChildCells(NodePage(crc, n, id), |n.keys|) == Some((n.keys, n.children[..|n.keys|]))
  {
    var c := crc(HeaderOf(n, id, 0) + Rest(CellsOf(n)));
    HeaderSize(n, id, c);
    if n.LeafNode? {
      LeafValues(HeaderOf(n, id, c), n);
    } else {
      ChildValues(HeaderOf(n, id, c), n);
    }
  }

  lemma {:induction false} LeafValues(header: seq<Byte>, n: Node)
    requires |header| == HEADER_SIZE && InRange(n) && n.LeafNode? && Room(CellsOf(n))
    ensures ReadLeafCells(header + Rest(CellsOf(n)), |n.keys|) == Some((n.keys, n.ptrs))
  {
    var p := header + Rest(CellsOf(n));
    forall i | 0 <= i < |n.keys|
      ensures LeafEntry(p, i) == Some((n.keys[i], n.ptrs[i]))
    {
      LeafEntryReads(header, n, i);
    }
    LeafCellsRead(p, n.keys, n.ptrs);
  }

  lemma {:induction false} ChildValues(header: seq<Byte>, n: Node)
    requires |header| == HEADER_SIZE && InRange(n) && n.InternalNode? && Room(CellsOf(n))
    ensures ReadChildCells(header + Rest(CellsOf(n)), |n.keys|) == Some((n.keys, n.children[..|n.keys|]))
  {
    var p := header + Rest(CellsOf(n));
    forall i | 0 <= i < |n.keys|
      ensures ChildEntry(p, i) == Some((n.children[i], n.keys[i]))
    {
      ChildEntryReads(header, n, i);
    }
    ChildCellsRead(p, n.keys, n.children[..|n.keys|]);
  }

  // ---------------------------------------------------------------- writing

  /** Fill a page with a node; fails exactly when cells and slots do not fit. */
  method Serialize(crc: Crc, n: Node, id: nat) returns (ok: bool, page: array<Byte>)
    requires InRange(n) && |n.keys| <= 8168
    ensures fresh(page) && page.Length == PAGE_SIZE && ok == Fits(n.LeafNode?, n.keys)
    ensures ok ==> Room(CellsOf(n)) && page[..] == NodePage(crc, n, id)
  {
    var cells := CellsOf(n);
    RoomIff(n);
    page := new Byte[PAGE_SIZE](_ => 0);
    assert page[..] == Zeros(PAGE_SIZE);
    var freeEnd, offsets;
    ok, freeEnd, offsets := WriteCells(page, cells);
    if ok {
      Finish(crc, page, n, id, cells, freeEnd);
    }
  }

  /** Header, slots and checksum, once the cells are in place. */
  method Finish(crc: Crc, page: array<Byte>, n: Node, id: nat, cells: Cells, ghost freeEnd: nat)
    requires InRange(n) && cells == CellsOf(n) && Room(cells) && page.Length == PAGE_SIZE
    requires freeEnd == PAGE_SIZE - |Tail(cells, |cells|)| && page[..] == Zeros(freeEnd) + Tail(cells, |cells|)
    modifies page
    ensures page[..] == NodePage(crc, n, id)
  {
    HeaderSize(n, id, 0);
    WriteHeaderAndSlots(page, HeaderOf(n, id, 0), cells, SlotsOf(cells));
    var checksum := crc(page[..]);
    ChecksumSpliced(n, id, 0, checksum, Rest(cells));
    CopyInto(page, 38, Put(4, checksum));
  }

  method WriteHeaderAndSlots(page: array<Byte>, header: seq<Byte>, ghost cells: Cells, slots: Cells)
    requires |header| == HEADER_SIZE && Room(cells) && slots == SlotsOf(cells) && page.Length == PAGE_SIZE
    requires page[..] == Zeros(PAGE_SIZE - |Tail(cells, |cells|)|) + Tail(cells, |cells|)
    modifies page
    ensures page[..] == header + Rest(cells)
  {
    ghost var after := Zeros(Gap(cells)) + Tail(cells, |cells|);
    SplitZeros(PAGE_SIZE - |Tail(cells, |cells|)|, 2 * |cells|, Tail(cells, |cells|));
    SpliceFront(Zeros(HEADER_SIZE), Zeros(2 * |cells|) + after, header);
    CopyInto(page, 0, header);
    assert header + (Zeros(2 * |cells|) + after) == header + Zeros(2 * |cells|) + after;
    WriteSlots(page, slots, header, after);
    RestIs(header, cells);
  }

  lemma {:induction false} RestIs(header: seq<Byte>, cells: Cells)
    requires Room(cells)
    ensures header + Row(SlotsOf(cells), |cells|) + (Zeros(Gap(cells)) + Tail(cells, |cells|)) == header + Rest(cells)
  {
  }

  lemma {:induction false} HeaderSize(n: Node, id: nat, c: Word)
    requires InRange(n) && Room(CellsOf(n))
    ensures |HeaderOf(n, id, c)| == HEADER_SIZE
  {
  }

  lemma {:induction false} SplitZeros(freeEnd: nat, slots: nat, tail: seq<Byte>)
    requires HEADER_SIZE + slots <= freeEnd
    ensures Zeros(freeEnd) + tail == Zeros(HEADER_SIZE) + (Zeros(slots) + (Zeros(freeEnd - HEADER_SIZE - slots) + tail))
  {
  }

  lemma {:induction false} SpliceFront(a: seq<Byte>, rest: seq<Byte>, b: seq<Byte>)
    requires |a| == |b|
    ensures Splice(a + rest, 0, b) == b + rest
  {
  }

  /** A page is only read as a node if its checksum is that of all its other bytes. */
  lemma {:induction false} PageChecked(crc: Crc, p: seq<Byte>)
    requires |p| == PAGE_SIZE
    ensures DeserializeNode(crc, p).Some? ==>
              crc(p[..38] + [0, 0, 0, 0] + p[42..]) == Get(p[38..42]) && Get(p[..4]) == 0x4d4b4958
  {
    var zeros: seq<Byte> := [0, 0, 0, 0];
    assert Put(4, 0) == zeros;
    assert Splice(p, 38, Put(4, 0)) == p[..38] + zeros + p[42..];
  }
}
