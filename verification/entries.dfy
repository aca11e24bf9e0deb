/** Entries and nodes of the tree (Entry, LeafEntry, and the Node value the
    index reads from and writes to its block store). */
module Entries {
  import opened Wrappers
  import opened Geometry

  /** An index entry.  `Branch` is a plain entry: a bounding box and the
      block id of a child node, which may be unset.  `Leaf` is a leaf entry:
      it also names the record it indexes and the data-file block holding it.
      Both variants share the box and the child id, as the leaf entry in the
      implementation inherits them. */
  datatype Entry =
    | Branch(box: Box, child: Option<nat>)
    | Leaf(box: Box, child: Option<nat>, recordId: int, dataBlockId: int)

  /** A node: its level (1 is the leaf level, the root has the highest), the
      block it is stored in, and its entries in order. */
  datatype Node = Node(level: nat, blockId: nat, entries: seq<Entry>)

  function Boxes(es: seq<Entry>): (r: seq<Box>)
    ensures |r| == |es|
    ensures forall i | 0 <= i < |es| :: r[i] == es[i].box
  {
    seq(|es|, i requires 0 <= i < |es| => es[i].box)
  }

  /** Every entry's box has `dims` dimensions. */
  predicate Fits(es: seq<Entry>, dims: nat) {
    forall i | 0 <= i < |es| :: |es[i].box| == dims
  }

  /** Two entries agree on everything but their boxes. */
  predicate SameReference(a: Entry, b: Entry) {
    && a.child == b.child
    && a.Leaf? == b.Leaf?
    && (a.Leaf? ==> a.recordId == b.recordId && a.dataBlockId == b.dataBlockId)
  }

  /** The minimum bounding box of a non-empty list of entries. */
  function Cover(es: seq<Entry>): (r: Box)
    requires |es| > 0 && Fits(es, |es[0].box|)
    ensures |r| == |es[0].box|
    ensures forall k | 0 <= k < |es| :: Encloses(r, es[k].box)
    ensures Tight(r, Boxes(es))
  {
    var bs := Boxes(es);
    var r := UnionAll(bs);
    assert forall k | 0 <= k < |es| :: Encloses(r, bs[k]);
    r
  }

  /** The entry built from a box: the box is kept and no child is set. */
  function FromBox(box: Box): (e: Entry)
    ensures e.Branch? && e.box == box && e.child.None?
  {
    Branch(box, None)
  }

  /** The entry built from a node: it points at the node's block and its box
      is the tight cover of the node's entries. */
  function FromNode(n: Node): (e: Entry)
    requires |n.entries| > 0 && Fits(n.entries, |n.entries[0].box|)
    ensures e.Branch? && e.child == Some(n.blockId)
    ensures |e.box| == |n.entries[0].box|
    ensures forall k | 0 <= k < |n.entries| :: Encloses(e.box, n.entries[k].box)
    ensures Tight(e.box, Boxes(n.entries))
  {
    Branch(Cover(n.entries), Some(n.blockId))
  }

  /** A leaf entry for one record. */
  function MakeLeafEntry(recordId: int, dataBlockId: int, bounds: Box): (e: Entry)
    ensures e.Leaf? && e.box == bounds && e.child.None?
    ensures e.recordId == recordId && e.dataBlockId == dataBlockId
  {
    Leaf(bounds, None, recordId, dataBlockId)
  }

  /** Set the child block id; nothing else changes. */
  function SetChild(e: Entry, id: nat): (r: Entry)
    ensures r.child == Some(id) && r.box == e.box
    ensures r.Leaf? == e.Leaf?
    ensures e.Leaf? ==> r.recordId == e.recordId && r.dataBlockId == e.dataBlockId
  {
    e.(child := Some(id))
  }

  /** Grow the entry's box so that it also covers `other`'s box. */
  function RefitToEntry(e: Entry, other: Entry): (r: Entry)
    requires |e.box| == |other.box|
    ensures |r.box| == |e.box|
    ensures Encloses(r.box, e.box) && Encloses(r.box, other.box)
    ensures forall c: Box | Encloses(c, e.box) && Encloses(c, other.box) :: Encloses(c, r.box)
    ensures SameReference(r, e)
  {
    var u := Union(e.box, other.box);
    forall c: Box | Encloses(c, e.box) && Encloses(c, other.box) ensures Encloses(c, u) {
      UnionIsLeast(e.box, other.box, c);
    }
    e.(box := u)
  }

  /** Refitting with a box the entry already covers leaves the entry as it is. */
  lemma RefitToContainedEntry(e: Entry, other: Entry)
    requires Encloses(e.box, other.box)
    ensures RefitToEntry(e, other) == e
  {
    UnionWithEnclosed(e.box, other.box);
  }

  /** Replace the entry's box by the cover of a list of entries. */
  function RefitToEntries(e: Entry, es: seq<Entry>): (r: Entry)
    requires |es| > 0 && Fits(es, |es[0].box|)
    ensures |r.box| == |es[0].box|
    ensures forall k | 0 <= k < |es| :: Encloses(r.box, es[k].box)
    ensures Tight(r.box, Boxes(es))
    ensures SameReference(r, e)
  {
    e.(box := Cover(es))
  }

  /** Append an entry to a node; level, block and earlier entries are kept. */
  function AddEntry(n: Node, e: Entry): (r: Node)
    ensures r.level == n.level && r.blockId == n.blockId
    ensures |r.entries| == |n.entries| + 1
    ensures r.entries[..|n.entries|] == n.entries && r.entries[|n.entries|] == e
  {
    n.(entries := n.entries + [e])
  }
}
