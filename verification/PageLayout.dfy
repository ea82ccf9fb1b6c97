/**
 Cells on a page of 16 KiB: a header of 48 bytes, slots of two bytes that grow upwards after it, and cells
 that grow downwards from the end of the page. The serializer fills a buffer in place.
 */
module PageLayout {
  import opened KeyOrder
  import opened PageFormat

  type Cells = seq<seq<Byte>>

  /** The first `k` cells as they lie at the end of the page, the last one first. */
  function Tail(cells: Cells, k: nat): seq<Byte>
    requires k <= |cells|
  {
    if k == 0 then [] else cells[k - 1] + Tail(cells, k - 1)
  }

  /** The first `k` slots, one after the other. */
  function Row(slots: Cells, k: nat): seq<Byte>
    requires k <= |slots|
  {
    if k == 0 then [] else Row(slots, k - 1) + slots[k - 1]
  }

  predicate TwoBytes(slots: Cells) {
    forall i :: 0 <= i < |slots| ==> |slots[i]| == 2
  }

  lemma {:induction false} RowSize(slots: Cells, k: nat)
    requires TwoBytes(slots) && k <= |slots|
    ensures |Row(slots, k)| == 2 * k
  {
    if k > 0 {
      RowSize(slots, k - 1);
    }
  }

  /** The cells and their slots fit in a page. */
  predicate Room(cells: Cells) {
    HEADER_SIZE + 2 * |cells| + |Tail(cells, |cells|)| <= PAGE_SIZE
  }

  /** Where cell `i` begins. */
  function Offset(cells: Cells, i: nat): int
    requires i < |cells|
  {
    PAGE_SIZE - |Tail(cells, i + 1)|
  }

  function Zeros(k: nat): (s: seq<Byte>)
    ensures |s| == k && forall i :: 0 <= i < k ==> s[i] == 0
  {
    seq(k, _ => 0)
  }

  /** The unused part of the page. */
  function Gap(cells: Cells): nat
    requires Room(cells)
  {
    PAGE_SIZE - HEADER_SIZE - 2 * |cells| - |Tail(cells, |cells|)|
  }

  /** A page with the given header and slots. */
  function Page(header: seq<Byte>, slots: Cells, cells: Cells): seq<Byte>
    requires Room(cells)
  {
    header + Row(slots, |slots|) + Zeros(Gap(cells)) + Tail(cells, |cells|)
  }

  lemma {:induction false} TailGrows(cells: Cells, j: nat, k: nat)
    requires j <= k <= |cells|
    ensures |Tail(cells, j)| <= |Tail(cells, k)|
    decreases k
  {
    if j < k {
      TailGrows(cells, j, k - 1);
    }
  }

  // ---------------------------------------------------------------- reading

  lemma {:induction false} Middle(a: seq<Byte>, b: seq<Byte>, c: seq<Byte>)
    ensures (a + b + c)[|a|..|a| + |b|] == b
  {
  }

  /** Where cell `i` ends. */
  lemma {:induction false} OffsetEnd(cells: Cells, i: nat)
    requires i < |cells|
    ensures Offset(cells, i) + |cells[i]| == PAGE_SIZE - |Tail(cells, i)|
  {
    assert |Tail(cells, i + 1)| == |cells[i]| + |Tail(cells, i)|;
  }

  lemma {:induction false} OffsetInPage(cells: Cells, i: nat)
    requires Room(cells) && i < |cells|
    ensures HEADER_SIZE + 2 * |cells| <= Offset(cells, i) && Offset(cells, i) + |cells[i]| <= PAGE_SIZE
  {
    OffsetEnd(cells, i);
    TailGrows(cells, i + 1, |cells|);
    var below, all := |Tail(cells, i + 1)|, |Tail(cells, |cells|)|;
    assert Offset(cells, i) == PAGE_SIZE - below && below <= all <= PAGE_SIZE - HEADER_SIZE - 2 * |cells|;
  }

  lemma {:induction false} RowSplit(slots: Cells, k: nat, i: nat) returns (post: seq<Byte>)
    requires i < k <= |slots|
    ensures Row(slots, k) == Row(slots, i) + slots[i] + post
    decreases k
  {
    if i == k - 1 {
      post := [];
    } else {
      var p := RowSplit(slots, k - 1, i);
      post := p + slots[k - 1];
    }
  }

  lemma {:induction false} TailSplit(cells: Cells, k: nat, i: nat) returns (pre: seq<Byte>)
    requires i < k <= |cells|
    ensures Tail(cells, k) == pre + cells[i] + Tail(cells, i)
    decreases k
  {
    if i == k - 1 {
      pre := [];
    } else {
      var p := TailSplit(cells, k - 1, i);
      pre := cells[k - 1] + p;
    }
  }

  /** Slot `i` is where readers look for it. */
  lemma {:induction false} SlotAt(header: seq<Byte>, slots: Cells, cells: Cells, i: nat)
    requires |header| == HEADER_SIZE && TwoBytes(slots) && Room(cells) && i < |slots|
    ensures HEADER_SIZE + 2 * i + 2 <= |Page(header, slots, cells)|
    ensures Page(header, slots, cells)[HEADER_SIZE + 2 * i..HEADER_SIZE + 2 * i + 2] == slots[i]
  {
    var rest := Zeros(Gap(cells)) + Tail(cells, |cells|);
    var post := RowSplit(slots, |slots|, i);
    RowSize(slots, i);
    assert Page(header, slots, cells) == (header + Row(slots, i)) + slots[i] + (post + rest);
    Middle(header + Row(slots, i), slots[i], post + rest);
  }

  /** Cell `i` is at its offset. */
  lemma {:induction false} CellAt(header: seq<Byte>, slots: Cells, cells: Cells, i: nat)
    requires |header| == HEADER_SIZE && TwoBytes(slots) && |slots| == |cells| && Room(cells) && i < |cells|
    ensures 0 <= Offset(cells, i) && Offset(cells, i) + |cells[i]| <= |Page(header, slots, cells)| == PAGE_SIZE
    ensures Page(header, slots, cells)[Offset(cells, i)..Offset(cells, i) + |cells[i]|] == cells[i]
  {
    var pre := TailSplit(cells, |cells|, i);
    var front := header + Row(slots, |slots|) + Zeros(Gap(cells)) + pre;
    RowSize(slots, |slots|);
    OffsetInPage(cells, i);
    assert Page(header, slots, cells) == front + cells[i] + Tail(cells, i);
    Middle(front, cells[i], Tail(cells, i));
    assert |front| == Offset(cells, i);
  }

  /** No two cells overlap, and none reaches into the slots. */
  lemma {:induction false} CellsApart(cells: Cells, i: nat, j: nat)
    requires Room(cells) && i < j < |cells|
    ensures HEADER_SIZE + 2 * |cells| <= Offset(cells, j) && Offset(cells, j) + |cells[j]| <= Offset(cells, i)
  {
    OffsetInPage(cells, j);
    OffsetEnd(cells, j);
    TailGrows(cells, i + 1, j);
    Apart(Offset(cells, j) + |cells[j]|, Offset(cells, i), |Tail(cells, j)|, |Tail(cells, i + 1)|);
  }

  lemma {:induction false} Apart(end: int, start: int, before: nat, after: nat)
    requires end == PAGE_SIZE - before && start == PAGE_SIZE - after && after <= before
    ensures end <= start
  {
  }

  // ---------------------------------------------------------------- writing

  function Splice(p: seq<Byte>, at: nat, bytes: seq<Byte>): (r: seq<Byte>)
    requires at + |bytes| <= |p|
    ensures |r| == |p|
  {
    p[..at] + bytes + p[at + |bytes|..]
  }

  method CopyInto(page: array<Byte>, at: nat, bytes: seq<Byte>)
    requires at + |bytes| <= page.Length
    modifies page
    ensures page[..] == Splice(old(page[..]), at, bytes)
  {
    for i := 0 to |bytes|
      invariant page[..] == Splice(old(page[..]), at, bytes[..i])
    {
      page[at + i] := bytes[i];
      SpliceMore(old(page[..]), at, bytes, i, page[..]);
    }
    assert bytes[..|bytes|] == bytes;
  }

  lemma {:induction false} SpliceMore(p: seq<Byte>, at: nat, bytes: seq<Byte>, i: nat, q: seq<Byte>)
    requires at + |bytes| <= |p| && i < |bytes| && q == Splice(p, at, bytes[..i])[at + i := bytes[i]]
    ensures q == Splice(p, at, bytes[..i + 1])
  {
  }

  /** Overwriting the middle of three parts. */
  lemma {:induction false} SpliceMiddle(a: seq<Byte>, b: seq<Byte>, c: seq<Byte>, b': seq<Byte>)
    requires |b'| == |b|
    ensures Splice(a + b + c, |a|, b') == a + b' + c
  {
  }

  /** The cells, from the end of the page downwards, as long as there is room. */
  method WriteCells(page: array<Byte>, cells: Cells) returns (ok: bool, freeEnd: nat, offsets: seq<nat>)
    requires page.Length == PAGE_SIZE && page[..] == Zeros(PAGE_SIZE) && HEADER_SIZE + 2 * |cells| <= PAGE_SIZE
    modifies page
    ensures ok == Room(cells)
    ensures ok ==> freeEnd == PAGE_SIZE - |Tail(cells, |cells|)| && page[..] == Zeros(freeEnd) + Tail(cells, |cells|)
    ensures ok ==> |offsets| == |cells| && forall i :: 0 <= i < |offsets| ==> offsets[i] == Offset(cells, i)
  {
    var freeStart := HEADER_SIZE + 2 * |cells|;
    freeEnd, offsets, ok := PAGE_SIZE, [], true;
    for i := 0 to |cells|
      invariant ok && freeStart <= freeEnd == PAGE_SIZE - |Tail(cells, i)|
      invariant page[..] == Zeros(freeEnd) + Tail(cells, i)
      invariant |offsets| == i && forall j :: 0 <= j < i ==> offsets[j] == Offset(cells, j)
    {
      if freeEnd - freeStart < |cells[i]| {
        TailGrows(cells, i + 1, |cells|);
        return false, freeEnd, offsets;
      }
      var at := freeEnd - |cells[i]|;
      SpliceCell(freeEnd, Tail(cells, i), cells[i]);
      CopyInto(page, at, cells[i]);
      freeEnd, offsets := at, offsets + [at];
    }
  }

  lemma {:induction false} SpliceCell(z: nat, tail: seq<Byte>, cell: seq<Byte>)
    requires |cell| <= z
    ensures Splice(Zeros(z) + tail, z - |cell|, cell) == Zeros(z - |cell|) + (cell + tail)
  {
    assert Zeros(z) + tail == Zeros(z - |cell|) + Zeros(|cell|) + tail;
    SpliceMiddle(Zeros(z - |cell|), Zeros(|cell|), tail, cell);
  }

  /** The slots, upwards from the end of the header. */
  method WriteSlots(page: array<Byte>, slots: Cells, ghost header: seq<Byte>, ghost rest: seq<Byte>)
    requires page.Length == PAGE_SIZE && |header| == HEADER_SIZE && TwoBytes(slots)
    requires page[..] == header + Zeros(2 * |slots|) + rest
    modifies page
    ensures page[..] == header + Row(slots, |slots|) + rest
  {
    assert header + Row(slots, 0) == header;
    for i := 0 to |slots|
      invariant page[..] == header + Row(slots, i) + (Zeros(2 * (|slots| - i)) + rest)
    {
      SlotStep(header, slots, i, rest);
      CopyInto(page, HEADER_SIZE + 2 * i, slots[i]);
    }
    assert Zeros(0) + rest == rest;
  }

  lemma {:induction false} SlotStep(header: seq<Byte>, slots: Cells, i: nat, rest: seq<Byte>)
    requires |header| == HEADER_SIZE && TwoBytes(slots) && i < |slots|
    ensures var p, n := header + Row(slots, i) + (Zeros(2 * (|slots| - i)) + rest), |slots| - (i + 1);
            && HEADER_SIZE + 2 * i + 2 <= |p|
            && Splice(p, HEADER_SIZE + 2 * i, slots[i]) == header + Row(slots, i + 1) + (Zeros(2 * n) + rest)
  {
    RowSize(slots, i);
    SpliceSlot(header + Row(slots, i), |slots| - i, rest, slots[i]);
    assert header + Row(slots, i) + slots[i] == header + (Row(slots, i) + slots[i]);
  }

  lemma {:induction false} SpliceSlot(front: seq<Byte>, n: nat, rest: seq<Byte>, slot: seq<Byte>)
    requires |slot| == 2 && n > 0
    ensures |front| + 2 <= |front + (Zeros(2 * n) + rest)|
    ensures Splice(front + (Zeros(2 * n) + rest), |front|, slot) == front + slot + (Zeros(2 * (n - 1)) + rest)
  {
    var z := Zeros(2 * (n - 1)) + rest;
    assert Zeros(2 * n) == Zeros(2) + Zeros(2 * (n - 1));
    assert front + (Zeros(2 * n) + rest) == front + Zeros(2) + z;
    SpliceMiddle(front, Zeros(2), z, slot);
  }
}
