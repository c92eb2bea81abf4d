/**
 * `BTreeNode`: a B-tree node's header, cell pointers and page bytes, and its
 * free-space accounting. Sizes of Rust types are those of a 64-bit target:
 * a `CellPointer` (two `usize`) takes 16 bytes and a `NodeHeader` 40.
 * `usize` underflow and `u16` overflow are debug-build panics, modelled as
 * errors.
 */
module Node {
  import opened Wrappers
  import opened Bytes

  const SIZE_OF_CELL_POINTER: nat := 16
  const SIZE_OF_NODE_HEADER: nat := 40
  /** The bytes `insert_key` counts per cell on top of its key and value. */
  const CELL_OVERHEAD: nat := 8

  datatype NodeType = Internal | Leaf | Overflow | FreeList

  datatype NodeError = NotLeaf | NotEnoughSpace | Underflow

  datatype CellPointer = CellPointer(offset: nat, size: nat)

  datatype NodeHeader = NodeHeader(
    nodeType: NodeType,
    cellCount: U16,
    freeBlockOffset: U16,
    rightChild: Option<nat>,
    parentPage: Option<nat>,
    depth: Byte)

  /** The header of a new node: no cells, and the free-block offset at the
      page size cut to 16 bits (`page_size as u16`). */
  function NewHeader(nodeType: NodeType, pageSize: nat): NodeHeader
  {
    NodeHeader(nodeType, 0, pageSize % TWO_16, None, None, 0)
  }

  /** `free_space`: the free-block offset less the cell pointers and the
      header, or the underflow panic when they do not fit below it. */
  function FreeSpaceOf(h: NodeHeader): (r: Result<nat, NodeError>)
    ensures r.Err? <==> h.freeBlockOffset < h.cellCount * SIZE_OF_CELL_POINTER + SIZE_OF_NODE_HEADER
    ensures r.Err? ==> r.error == Underflow
    ensures r.Ok? ==> h.cellCount * SIZE_OF_CELL_POINTER + SIZE_OF_NODE_HEADER + r.value == h.freeBlockOffset
  {
    var used := h.cellCount * SIZE_OF_CELL_POINTER + SIZE_OF_NODE_HEADER;
    if h.freeBlockOffset < used then Err(Underflow) else Ok(h.freeBlockOffset - used)
  }

  /** `is_full(n)`: fewer than `n` bytes free, that is, the cell pointers,
      the header and the new cell do not all fit below the free-block
      offset; it panics where `free_space` does. */
  function IsFullOf(h: NodeHeader, newCellSize: nat): (r: Result<bool, NodeError>)
    ensures r.Err? <==> FreeSpaceOf(h).Err?
    ensures r == Ok(true) <==>
      h.cellCount * SIZE_OF_CELL_POINTER + SIZE_OF_NODE_HEADER <= h.freeBlockOffset
      < h.cellCount * SIZE_OF_CELL_POINTER + SIZE_OF_NODE_HEADER + newCellSize
    ensures r == Ok(false) <==>
      h.cellCount * SIZE_OF_CELL_POINTER + SIZE_OF_NODE_HEADER + newCellSize <= h.freeBlockOffset
  {
    match FreeSpaceOf(h)
    case Err(e) => Err(e)
    case Ok(free) => Ok(free < newCellSize)
  }

  /** `insert_key` on the header as written: only a leaf takes a cell, and
      only when at least `key.len + value.len + 8` bytes are free; then one
      more cell is counted and the free-block offset falls by that size,
      with neither field wrapping around, and the other fields stay. */
  function InsertHeader(h: NodeHeader, keyLen: nat, valueLen: nat): (r: Result<NodeHeader, NodeError>)
    ensures h.nodeType != Leaf ==> r == Err(NotLeaf)
    ensures h.nodeType == Leaf ==> (r.Ok? <==> IsFullOf(h, keyLen + valueLen + CELL_OVERHEAD) == Ok(false))
    ensures r.Ok? ==>
      r.value.cellCount == h.cellCount + 1
      && r.value.freeBlockOffset + keyLen + valueLen + CELL_OVERHEAD == h.freeBlockOffset
      && r.value.nodeType == h.nodeType && r.value.rightChild == h.rightChild
      && r.value.parentPage == h.parentPage && r.value.depth == h.depth
  {
    var encodedSize := keyLen + valueLen + CELL_OVERHEAD;
    if h.nodeType != Leaf then Err(NotLeaf)
    else match FreeSpaceOf(h)
      case Err(e) => Err(e)
      case Ok(free) =>
        if free < encodedSize then Err(NotEnoughSpace)
        else Ok(h.(cellCount := h.cellCount + 1, freeBlockOffset := h.freeBlockOffset - encodedSize))
  }

  class BTreeNode {
    const pageId: nat
    var header: NodeHeader
    var cells: seq<CellPointer>
    var data: seq<Byte>

    /** `BTreeNode::new`: an empty node over `page_size` zero bytes. */
    constructor (pageId: nat, nodeType: NodeType, pageSize: nat)
      ensures this.pageId == pageId && header == NewHeader(nodeType, pageSize)
      ensures cells == [] && |data| == pageSize && forall i :: 0 <= i < |data| ==> data[i] == 0
    {
      this.pageId := pageId;
      header := NodeHeader(nodeType, 0, pageSize % TWO_16, None, None, 0);
      cells := [];
      data := seq(pageSize, _ => 0);
    }

    function FreeSpace(): Result<nat, NodeError>
      reads this
    {
      FreeSpaceOf(header)
    }

    function IsFull(newCellSize: nat): Result<bool, NodeError>
      reads this
    {
      IsFullOf(header, newCellSize)
    }

    /** `insert_key`: the header changes as `InsertHeader` says, or not at all
        on an error; the cells and the page bytes are never touched. */
    method InsertKey(key: seq<Byte>, value: seq<Byte>) returns (r: Result<(), NodeError>)
      modifies this
      ensures cells == old(cells) && data == old(data)
      ensures match InsertHeader(old(header), |key|, |value|)
        case Err(e) => r == Err(e) && header == old(header)
        case Ok(h) => r == Ok(()) && header == h
    {
      if header.nodeType != Leaf {
        return Err(NotLeaf);
      }
      var encodedSize := |key| + |value| + CELL_OVERHEAD;
      var free := FreeSpace();
      if free.Err? {
        return Err(free.error);
      }
      if free.value < encodedSize {
        return Err(NotEnoughSpace);
      }
      header := header.(cellCount := header.cellCount + 1);
      header := header.(freeBlockOffset := header.freeBlockOffset - encodedSize);
      return Ok(());
    }
  }

  /** A new node's free space is the page size (cut to 16 bits) less the
      node header, and it underflows on a page smaller than the header. */
  lemma NewNodeFreeSpace(nodeType: NodeType, pageSize: nat)
    ensures FreeSpaceOf(NewHeader(nodeType, pageSize)).Ok? <==> pageSize % TWO_16 >= SIZE_OF_NODE_HEADER
    ensures FreeSpaceOf(NewHeader(nodeType, pageSize)).Ok? ==>
      FreeSpaceOf(NewHeader(nodeType, pageSize)).value == pageSize % TWO_16 - SIZE_OF_NODE_HEADER
  {
  }

  // ---------------------------------------------------------------------
  // The free-space check leaves out the 16-byte cell pointer the new cell
  // adds, so an insert can leave a node whose free space underflows.

  /** The insert with the new cell pointer counted in the space it needs. */
  function CorrectedInsertHeader(h: NodeHeader, keyLen: nat, valueLen: nat): Result<NodeHeader, NodeError>
  {
    var encodedSize := keyLen + valueLen + CELL_OVERHEAD;
    if h.nodeType != Leaf then Err(NotLeaf)
    else match FreeSpaceOf(h)
      case Err(e) => Err(e)
      case Ok(free) =>
        if free < encodedSize + SIZE_OF_CELL_POINTER then Err(NotEnoughSpace)
        else Ok(h.(cellCount := h.cellCount + 1, freeBlockOffset := h.freeBlockOffset - encodedSize))
  }

  /** On an empty 4096-byte leaf, a 4048-byte key with an empty value fits
      the check exactly, and afterwards `free_space` underflows. */
  lemma InsertBreaksFreeSpace()
    ensures InsertHeader(NewHeader(Leaf, 4096), 4048, 0).Ok?
    ensures FreeSpaceOf(InsertHeader(NewHeader(Leaf, 4096), 4048, 0).value) == Err(Underflow)
    ensures CorrectedInsertHeader(NewHeader(Leaf, 4096), 4048, 0) == Err(NotEnoughSpace)
  {
  }

  /** The corrected insert keeps `free_space` defined and takes from it
      exactly the cell and its pointer. */
  lemma CorrectedInsertKeepsFreeSpace(h: NodeHeader, keyLen: nat, valueLen: nat)
    requires CorrectedInsertHeader(h, keyLen, valueLen).Ok?
    ensures FreeSpaceOf(CorrectedInsertHeader(h, keyLen, valueLen).value).Ok?
    ensures FreeSpaceOf(CorrectedInsertHeader(h, keyLen, valueLen).value).value
      == FreeSpaceOf(h).value - (keyLen + valueLen + CELL_OVERHEAD) - SIZE_OF_CELL_POINTER
  {
  }
}
