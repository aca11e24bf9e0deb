/** The node as the index file stores it (RStarNode): a leaf flag and two
    parallel lists, one bounding box and one pointer per child.  A pointer
    is a block of the index file for an inner node and a block of the data
    file for a leaf.  The box type is a parameter, so the same node serves
    exact boxes and the bit patterns the codec reads and writes. */
module RStarNodes {

  /** A Java `long`. */
  type Long = x: int | -0x8000_0000_0000_0000 <= x < 0x8000_0000_0000_0000

  datatype RStarNode<B> = RStarNode(isLeaf: bool, mbrs: seq<B>, childrenPointers: seq<Long>)

  /** One pointer per box. */
  predicate Parallel<B>(n: RStarNode<B>) {
    |n.mbrs| == |n.childrenPointers|
  }

  /** A node without entries. */
  function NewNode<B>(isLeaf: bool): (n: RStarNode<B>)
    ensures n.isLeaf == isLeaf && |n.mbrs| == 0 && |n.childrenPointers| == 0
    ensures Parallel(n)
  {
    RStarNode(isLeaf, [], [])
  }

  /** Append a box and its pointer, one to each list. */
  function AddEntry<B>(n: RStarNode<B>, box: B, pointer: Long): (r: RStarNode<B>)
    ensures r.isLeaf == n.isLeaf
    ensures |r.mbrs| == |n.mbrs| + 1 && |r.childrenPointers| == |n.childrenPointers| + 1
    ensures r.mbrs[..|n.mbrs|] == n.mbrs && r.mbrs[|n.mbrs|] == box
    ensures r.childrenPointers[..|n.childrenPointers|] == n.childrenPointers
    ensures r.childrenPointers[|n.childrenPointers|] == pointer
    ensures Parallel(r) <==> Parallel(n)
  {
    RStarNode(n.isLeaf, n.mbrs + [box], n.childrenPointers + [pointer])
  }

  /** The number of boxes, which is also the number of pointers of a node
      built by NewNode and AddEntry. */
  function MbrSize<B>(n: RStarNode<B>): (r: nat)
    ensures Parallel(n) ==> r == |n.childrenPointers|
    ensures r == 0 <==> n.mbrs == []
  {
    |n.mbrs|
  }

  /** Add the entries of two parallel lists in order. */
  function AddEntries<B>(n: RStarNode<B>, boxes: seq<B>, pointers: seq<Long>): (r: RStarNode<B>)
    requires |boxes| == |pointers|
    ensures r.isLeaf == n.isLeaf
    ensures r.mbrs == n.mbrs + boxes && r.childrenPointers == n.childrenPointers + pointers
    ensures MbrSize(r) == MbrSize(n) + |boxes|
    ensures Parallel(r) <==> Parallel(n)
    decreases |boxes|
  {
    if |boxes| == 0 then n
    else AddEntries(AddEntry(n, boxes[0], pointers[0]), boxes[1..], pointers[1..])
  }
}
