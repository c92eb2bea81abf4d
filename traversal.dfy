/**
 * B-tree traversal helpers: byte-key comparison, the fan-out estimate, the
 * traversal context and the leaf iterator. The page collection's `get_node`
 * is not part of this model: the node it hands out is a parameter.
 */
module Traversal {
  import opened Wrappers
  import opened Bytes
  import Node

  /** `BTREE_HEADER_SIZE` of the B-tree module. */
  const BTREE_HEADER_SIZE: nat := 12
  /** `size_of::<PageId>()`, a `usize` on a 64-bit target. */
  const SIZE_OF_PAGE_ID: nat := 8
  const TYPICAL_KEY_SIZE: nat := 8
  const TYPICAL_PAIR_SIZE: nat := 32
  /** The page size of the leaf `find_leftmost_leaf` makes up. */
  const DEFAULT_LEAF_PAGE_SIZE: nat := 4096

  datatype Ordering = Less | Equal | Greater

  datatype TraversalError = UnexpectedNodeType | Underflow

  function Reverse(o: Ordering): Ordering
  {
    match o
    case Less => Greater
    case Equal => Equal
    case Greater => Less
  }

  function CompareInts(x: int, y: int): Ordering
  {
    if x < y then Less else if x == y then Equal else Greater
  }

  // ---------------------------------------------------------------------
  // Key comparison.

  /** Lexicographic order of byte strings: the first differing byte decides,
      and a proper prefix comes first. Keys compare Equal exactly when they
      are the same key. */
  function LexCompare(a: seq<Byte>, b: seq<Byte>): (r: Ordering)
    ensures r == Equal <==> a == b
  {
    if a == [] || b == [] then CompareInts(|a|, |b|)
    else if a[0] != b[0] then CompareInts(a[0], b[0])
    else
      assert a == [a[0]] + a[1..] && b == [b[0]] + b[1..];
      LexCompare(a[1..], b[1..])
  }

  /** `compare_keys`: walks the two keys side by side and returns at the
      first pair of bytes that differ, else compares the lengths. */
  method CompareKeys(a: seq<Byte>, b: seq<Byte>) returns (r: Ordering)
    ensures r == LexCompare(a, b)
  {
    var i := 0;
    while i < |a| && i < |b|
      invariant 0 <= i <= |a| && 0 <= i <= |b|
      invariant LexCompare(a, b) == LexCompare(a[i..], b[i..])
    {
      if a[i] != b[i] {
        return CompareInts(a[i], b[i]);
      }
      assert a[i..][1..] == a[i + 1..] && b[i..][1..] == b[i + 1..];
      i := i + 1;
    }
    return CompareInts(|a|, |b|);
  }

  /** With equal prefixes of length `i`, the comparison is decided by what
      follows. */
  lemma {:induction false} LexCompareSkipsPrefix(a: seq<Byte>, b: seq<Byte>, i: nat)
    requires i <= |a| && i <= |b| && a[..i] == b[..i]
    ensures LexCompare(a, b) == LexCompare(a[i..], b[i..])
  {
    if i > 0 {
      assert a[0] == a[..i][0] && b[0] == b[..i][0];
      assert a[1..][..i - 1] == a[..i][1..] && b[1..][..i - 1] == b[..i][1..];
      LexCompareSkipsPrefix(a[1..], b[1..], i - 1);
      assert a[1..][i - 1..] == a[i..] && b[1..][i - 1..] == b[i..];
    }
  }

  /** The first differing byte within the common length decides. */
  lemma FirstDifferenceDecides(a: seq<Byte>, b: seq<Byte>, i: nat)
    requires i < |a| && i < |b| && a[..i] == b[..i] && a[i] != b[i]
    ensures LexCompare(a, b) == CompareInts(a[i], b[i])
  {
    LexCompareSkipsPrefix(a, b, i);
  }

  /** A proper prefix is Less than the longer key. */
  lemma PrefixIsLess(a: seq<Byte>, b: seq<Byte>)
    requires |a| < |b| && a == b[..|a|]
    ensures LexCompare(a, b) == Less
  {
    LexCompareSkipsPrefix(a, b, |a|);
  }

  /** Swapping the keys reverses the outcome. */
  lemma {:induction false} CompareAntisymmetric(a: seq<Byte>, b: seq<Byte>)
    ensures LexCompare(b, a) == Reverse(LexCompare(a, b))
  {
    if a != [] && b != [] && a[0] == b[0] {
      CompareAntisymmetric(a[1..], b[1..]);
    }
  }

  /** Less is transitive, so the comparison is a total order on keys. */
  lemma {:induction false} LessTransitive(a: seq<Byte>, b: seq<Byte>, c: seq<Byte>)
    requires LexCompare(a, b) == Less && LexCompare(b, c) == Less
    ensures LexCompare(a, c) == Less
  {
    if a != [] && b != [] && c != [] && a[0] == b[0] && b[0] == c[0] {
      LessTransitive(a[1..], b[1..], c[1..]);
    }
  }

  // ---------------------------------------------------------------------
  // Fan-out.

  /** `calculate_fan_out`: how many entries of the assumed size fit after the
      12-byte B-tree header; `data.len() - 12` underflows on a shorter page.
      For internal nodes and leaves it is the largest number of entries that
      fit in the usable space; other node types have none. */
  function FanOut(nodeType: Node.NodeType, dataLength: nat): (r: Result<nat, TraversalError>)
    ensures r.Err? <==> (nodeType == Node.Internal || nodeType == Node.Leaf) && dataLength < BTREE_HEADER_SIZE
    ensures r.Err? ==> r.error == Underflow
    ensures nodeType != Node.Internal && nodeType != Node.Leaf ==> r == Ok(0)
    ensures (nodeType == Node.Internal || nodeType == Node.Leaf) && r.Ok? ==>
      r.value * EntrySize(nodeType) <= dataLength - BTREE_HEADER_SIZE
      < (r.value + 1) * EntrySize(nodeType)
  {
    match nodeType
    case Internal =>
      if dataLength < BTREE_HEADER_SIZE then Err(Underflow)
      else
        DivMod(dataLength - BTREE_HEADER_SIZE, EntrySize(nodeType));
        Ok((dataLength - BTREE_HEADER_SIZE) / (TYPICAL_KEY_SIZE + SIZE_OF_PAGE_ID))
    case Leaf =>
      if dataLength < BTREE_HEADER_SIZE then Err(Underflow)
      else
        DivMod(dataLength - BTREE_HEADER_SIZE, EntrySize(nodeType));
        Ok((dataLength - BTREE_HEADER_SIZE) / TYPICAL_PAIR_SIZE)
    case _ => Ok(0)
  }

  /** The entry size each node type is estimated with. */
  function EntrySize(nodeType: Node.NodeType): nat
  {
    if nodeType == Node.Internal then TYPICAL_KEY_SIZE + SIZE_OF_PAGE_ID else TYPICAL_PAIR_SIZE
  }

  /** `calculate_fan_out` on a node. */
  method CalculateFanOut(node: Node.BTreeNode) returns (r: Result<nat, TraversalError>)
    ensures r == FanOut(node.header.nodeType, |node.data|)
  {
    match node.header.nodeType {
      case Internal =>
        if |node.data| < BTREE_HEADER_SIZE {
          return Err(Underflow);
        }
        var usableSpace := |node.data| - BTREE_HEADER_SIZE;
        return Ok(usableSpace / (TYPICAL_KEY_SIZE + SIZE_OF_PAGE_ID));
      case Leaf =>
        if |node.data| < BTREE_HEADER_SIZE {
          return Err(Underflow);
        }
        var usableSpace := |node.data| - BTREE_HEADER_SIZE;
        return Ok(usableSpace / TYPICAL_PAIR_SIZE);
      case _ =>
        return Ok(0);
    }
  }

  // ---------------------------------------------------------------------
  // The traversal context.

  datatype TraversalContext = TraversalContext(
    currentPage: nat,
    depth: nat,
    path: seq<nat>,
    comparisons: nat,
    nodesVisited: nat)

  /** The path runs from the root down to the current page, one entry per
      level. */
  predicate PathConsistent(c: TraversalContext)
  {
    |c.path| == c.depth + 1 && c.path[|c.path| - 1] == c.currentPage
  }

  /** `TraversalContext::new`: at the root, which is the whole path. */
  function NewContext(rootPage: nat): (c: TraversalContext)
    ensures PathConsistent(c) && c.path[0] == rootPage
    ensures c.comparisons == 0 && c.nodesVisited == 1
  {
    TraversalContext(rootPage, 0, [rootPage], 0, 1)
  }

  // ---------------------------------------------------------------------
  // The leaf iterator.

  /** `find_leftmost_leaf` on the node `get_node` returned for `startPage`: a
      leaf is returned as it is, an internal node is replaced by a new empty
      4096-byte leaf with the same page id, anything else is an error. */
  method FindLeftmostLeaf(startPage: nat, node: Node.BTreeNode) returns (r: Result<Node.BTreeNode, TraversalError>)
    ensures node.header.nodeType == Node.Leaf ==> r == Ok(node)
    ensures node.header.nodeType == Node.Internal ==>
      r.Ok? && fresh(r.value) && r.value.pageId == startPage
      && r.value.header == Node.NewHeader(Node.Leaf, DEFAULT_LEAF_PAGE_SIZE)
      && r.value.cells == [] && |r.value.data| == DEFAULT_LEAF_PAGE_SIZE
    ensures node.header.nodeType != Node.Leaf && node.header.nodeType != Node.Internal ==> r == Err(UnexpectedNodeType)
  {
    match node.header.nodeType {
      case Leaf =>
        return Ok(node);
      case Internal =>
        var leaf := new Node.BTreeNode(startPage, Node.Leaf, DEFAULT_LEAF_PAGE_SIZE);
        return Ok(leaf);
      case _ =>
        return Err(UnexpectedNodeType);
    }
  }

  /** The made-up key and value of cell `i`: the key is the index cut to a
      byte followed by three zero bytes, the value four bytes of 42. */
  function Item(i: nat): (seq<Byte>, seq<Byte>)
  {
    ([i % TWO_8, 0, 0, 0], [42, 42, 42, 42])
  }

  /** The first `n` items, in order. */
  function Items(n: nat): (r: seq<(seq<Byte>, seq<Byte>)>)
    ensures |r| == n
  {
    if n == 0 then [] else Items(n - 1) + [Item(n - 1)]
  }

  class BTreeIterator {
    var currentLeaf: Option<Node.BTreeNode>
    var currentCellIndex: nat
    var traversal: TraversalContext
    /** The items handed out so far. */
    ghost var yielded: seq<(seq<Byte>, seq<Byte>)>
    /** The cell count of the leaf the iteration started on. */
    ghost var total: nat

    /** While a leaf is held, the items handed out are the first
        `current_cell_index` of its cells; once it is dropped, all of them
        have been handed out. */
    ghost predicate Valid()
      reads this, if currentLeaf.Some? then {currentLeaf.value} else {}
    {
      (currentLeaf.Some? ==>
        currentLeaf.value.header.cellCount == total
        && currentCellIndex <= total && yielded == Items(currentCellIndex))
      && (currentLeaf.None? ==> yielded == Items(total))
    }

    /** `BTreeIterator::new`, given the node `get_node` returns for the root. */
    constructor (rootPage: nat, leaf: Node.BTreeNode)
      requires leaf.header.nodeType == Node.Leaf
      ensures Valid() && fresh(this) && yielded == []
      ensures currentLeaf == Some(leaf) && currentCellIndex == 0 && traversal == NewContext(rootPage)
      ensures total == leaf.header.cellCount
    {
      currentLeaf := Some(leaf);
      currentCellIndex := 0;
      traversal := NewContext(rootPage);
      yielded := [];
      total := leaf.header.cellCount;
    }

    /** `BTreeIterator::new`: the iteration starts on the leftmost leaf found
        from the root node `get_node` returned, at its first cell. */
    static method New(rootPage: nat, rootNode: Node.BTreeNode) returns (r: Result<BTreeIterator, TraversalError>)
      ensures r.Ok? <==> rootNode.header.nodeType == Node.Leaf || rootNode.header.nodeType == Node.Internal
      ensures r.Ok? ==> fresh(r.value) && r.value.Valid() && r.value.yielded == []
      ensures r.Ok? ==> r.value.currentCellIndex == 0 && r.value.traversal == NewContext(rootPage)
      ensures r.Ok? && rootNode.header.nodeType == Node.Leaf ==>
        r.value.currentLeaf == Some(rootNode) && r.value.total == rootNode.header.cellCount
      ensures r.Ok? && rootNode.header.nodeType == Node.Internal ==> r.value.total == 0
    {
      var leaf := FindLeftmostLeaf(rootPage, rootNode);
      if leaf.Err? {
        return Err(leaf.error);
      }
      var it := new BTreeIterator(rootPage, leaf.value);
      return Ok(it);
    }

    /** `next`: the next cell's item while the leaf has cells left; then the
        leaf is dropped and nothing more is ever returned. */
    method Next() returns (r: Option<(seq<Byte>, seq<Byte>)>)
      requires Valid()
      modifies this
      ensures Valid() && total == old(total) && traversal == old(traversal)
      ensures old(currentLeaf).Some? && old(currentCellIndex) < total ==>
        r == Some(Item(old(currentCellIndex))) && yielded == old(yielded) + [r.value]
        && currentLeaf == old(currentLeaf) && currentCellIndex == old(currentCellIndex) + 1
      ensures (old(currentLeaf).None? || old(currentCellIndex) >= total) ==>
        r == None && currentLeaf == None && yielded == old(yielded) && yielded == Items(total)
    {
      if currentLeaf.Some? {
        var leaf := currentLeaf.value;
        if currentCellIndex < leaf.header.cellCount {
          var key := [currentCellIndex % TWO_8, 0, 0, 0];
          var value := [42, 42, 42, 42];
          currentCellIndex := currentCellIndex + 1;
          yielded := yielded + [(key, value)];
          return Some((key, value));
        } else {
          currentLeaf := None;
        }
      }
      return None;
    }
  }
}
