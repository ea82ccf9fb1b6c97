/**
 What a page of the index file holds, and when a node fits in one.
 */
module PageFormat {
  import opened KeyOrder

  type PageID = nat

  datatype Pointer = Pointer(offset: int, size: int)

  /** A node as the page cache holds it. */
  datatype Node =
    | LeafNode(gen: nat, keys: seq<Key>, ptrs: seq<Pointer>, right: PageID)
    | InternalNode(gen: nat, keys: seq<Key>, children: seq<PageID>)

  const PAGE_SIZE: nat := 16384
  const HEADER_SIZE: nat := 48

  /** Truncation to the 16-bit offsets of the slot directory. */
  function U16(x: int): (r: nat)
    ensures r < 0x10000
  {
    x % 0x10000
  }

  /** Bytes of one cell: a length-prefixed key with a record pointer, or with a child page. */
  function CellSize(leaf: bool, key: Key): nat {
    if leaf then 2 + |key| + 12 else 8 + 2 + |key|
  }

  /** The packing loop of the serializer: cells grow downwards from the end of the page. */
  predicate Pack(leaf: bool, keys: seq<Key>, freeStart: nat, freeEnd: nat) {
    keys == [] ||
    (U16(freeEnd - freeStart) >= U16(CellSize(leaf, keys[0])) &&
     Pack(leaf, keys[1..], freeStart, U16(freeEnd - U16(CellSize(leaf, keys[0])))))
  }

  /** Whether the serializer accepts a node with these keys, in its own 16-bit arithmetic. */
  predicate Fits(leaf: bool, keys: seq<Key>) {
    Pack(leaf, keys, U16(HEADER_SIZE + 2 * U16(|keys|)), U16(PAGE_SIZE))
  }
}
