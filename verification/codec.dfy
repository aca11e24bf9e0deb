/** The index file codec (IndexManager).  Block 0 holds the metadata; block
    N holds one node, starting at byte N * 32768.  A block is written as a
    buffer of at most 32768 bytes: a node as its leaf flag (1 byte), its entry
    count (4 bytes), and per entry its box, dimension by dimension as the
    lower then the upper double, followed by its pointer (8 bytes); the
    metadata as the root block id (8 bytes) and the height, capacity, minimum
    capacity and dimension (4 bytes each).  The file is a byte string. */
module Codec {
  import opened Wrappers
  import opened RStarNodes
  import opened Bytes
  import opened Doubles

  const BlockSize: nat := 32 * 1024

  /** One dimension of a box as stored: two raw doubles. */
  datatype RawBounds = RawBounds(lower: Bits64, upper: Bits64)

  type RawBox = seq<RawBounds>

  /** The node as the codec sees it. */
  type DiskNode = RStarNode<RawBox>

  /** The Bounds constructor refuses `lower <= upper` failing. */
  predicate ValidBounds(b: RawBounds) {
    JavaLe(b.lower, b.upper)
  }

  /** The index metadata of block 0. */
  datatype IndexMetadata = IndexMetadata(
    rootBlockId: Long,
    treeHeight: Int32,
    maxCapacity: Int32,
    minCapacity: Int32,
    dimension: Int32)

  /** The loops over the dimensions run `dimension` times, none when it is
      negative. */
  function Dims(dimension: Int32): nat {
    if dimension < 0 then 0 else dimension
  }

  /** The bytes one entry occupies. */
  function EntrySize(dims: nat): nat {
    16 * dims + 8
  }

  /** The bytes `count` entries occupy. */
  function EntriesSize(count: nat, dims: nat): (r: nat)
    ensures r == count * EntrySize(dims)
  {
    if count == 0 then 0 else EntrySize(dims) + EntriesSize(count - 1, dims)
  }

  /** The bytes a node of `count` entries occupies. */
  function NodeSize(count: nat, dims: nat): nat {
    5 + EntriesSize(count, dims)
  }

  // ---------------------------------------------------------------------
  // The write buffer
  // ---------------------------------------------------------------------

  /** A put on a buffer of BlockSize bytes: it fails, writing nothing, when
      the bytes do not fit. */
  function Put(buf: seq<Byte>, bs: seq<Byte>): (r: Result<seq<Byte>>)
    ensures r.Ok? <==> |buf| + |bs| <= BlockSize
    ensures r.Ok? ==> r.value == buf + bs
    ensures r.Err? ==> r.error == BufferOverflow
  {
    if |buf| + |bs| <= BlockSize then Ok(buf + bs) else Err(BufferOverflow)
  }

  /** Entries `i` and above read without failing: each box has at least
      `dims` dimensions and has a pointer. */
  predicate WritableFrom(n: DiskNode, i: nat, dims: nat) {
    && (forall j | i <= j < |n.mbrs| :: dims <= |n.mbrs[j]|)
    && (i < |n.mbrs| ==> |n.mbrs| <= |n.childrenPointers|)
  }

  /** Every box has at least `dims` dimensions and a pointer: what writing
      a node reads without failing. */
  predicate Writable(n: DiskNode, dims: nat) {
    WritableFrom(n, 0, dims)
  }

  /** What the rest of entry `i`, from dimension `d` on, and the entries
      after it read without failing. */
  predicate BoundsWritable(n: DiskNode, i: nat, d: nat, dims: nat)
    requires i < |n.mbrs|
  {
    (d < dims ==> dims <= |n.mbrs[i]|) && WritableFrom(n, i + 1, dims) && i < |n.childrenPointers|
  }

  /** The loop over the entries from entry `i` on.  Each entry is the loop
      over its dimensions (PutBounds), which then puts the pointer and
      comes back here. */
  function PutEntries(buf: seq<Byte>, n: DiskNode, i: nat, dims: nat): (r: Result<seq<Byte>>)
    requires i <= |n.mbrs| && |buf| <= BlockSize
    ensures r.Ok? <==> WritableFrom(n, i, dims) && |buf| + EntriesSize(|n.mbrs| - i, dims) <= BlockSize
    ensures r.Ok? ==> |r.value| == |buf| + EntriesSize(|n.mbrs| - i, dims) && r.value[..|buf|] == buf
    ensures r.Err? && WritableFrom(n, i, dims) ==> r.error == BufferOverflow
    decreases |n.mbrs| - i, dims + 1
  {
    if i == |n.mbrs| then Ok(buf) else PutBounds(buf, n, i, 0, dims)
  }

  /** Dimensions `d` and above of entry `i`: each reads the box's bounds
      (which fails past its end) and puts the lower, then the upper double;
      then the pointer (which fails past the end of the pointers). */
  function PutBounds(buf: seq<Byte>, n: DiskNode, i: nat, d: nat, dims: nat): (r: Result<seq<Byte>>)
    requires i < |n.mbrs| && d <= dims && |buf| <= BlockSize
    ensures r.Ok? <==> BoundsWritable(n, i, d, dims)
                       && |buf| + 16 * (dims - d) + 8 + EntriesSize(|n.mbrs| - i - 1, dims) <= BlockSize
    ensures r.Ok? ==> |r.value| == |buf| + 16 * (dims - d) + 8 + EntriesSize(|n.mbrs| - i - 1, dims)
    ensures r.Ok? ==> r.value[..|buf|] == buf
    ensures r.Err? && BoundsWritable(n, i, d, dims) ==> r.error == BufferOverflow
    decreases |n.mbrs| - i, dims - d
  {
    if d < dims then
      if d >= |n.mbrs[i]| then Err(OutOfRange)
      else
        var b1 :- Put(buf, EncodeDouble(n.mbrs[i][d].lower));
        var b2 :- Put(b1, EncodeDouble(n.mbrs[i][d].upper));
        var r := PutBounds(b2, n, i, d + 1, dims);
        assert r.Ok? ==> r.value[..|buf|] == r.value[..|b2|][..|buf|];
        r
    else if i >= |n.childrenPointers| then Err(OutOfRange)
    else
      var b1 :- Put(buf, EncodeLong(n.childrenPointers[i]));
      var r := PutEntries(b1, n, i + 1, dims);
      assert r.Ok? ==> r.value[..|buf|] == r.value[..|b1|][..|buf|];
      r
  }

  /** writeNode's buffer: the flag, the count, then the entries. */
  function EncodeNode(n: DiskNode, dimension: Int32): (r: Result<seq<Byte>>)
    requires |n.mbrs| < 0x8000_0000
    ensures r.Ok? <==> Writable(n, Dims(dimension)) && NodeSize(|n.mbrs|, Dims(dimension)) <= BlockSize
    ensures r.Ok? ==> |r.value| == NodeSize(|n.mbrs|, Dims(dimension))
    ensures r.Ok? ==> r.value[0] == (if n.isLeaf then 1 else 0) && r.value[1..5] == EncodeInt(|n.mbrs|)
    ensures r.Err? && Writable(n, Dims(dimension)) ==> r.error == BufferOverflow
  {
    // The flag and the count always fit.
    var b1 := [if n.isLeaf then 1 else 0] + EncodeInt(|n.mbrs|);
    var r := PutEntries(b1, n, 0, Dims(dimension));
    assert r.Ok? ==> r.value[1..5] == r.value[..5][1..5];
    r
  }

  // ---------------------------------------------------------------------
  // The read buffer
  // ---------------------------------------------------------------------

  /** A get of `k` bytes at `pos`: it fails past the end of what was read. */
  function Get(bs: seq<Byte>, pos: nat, k: nat): (r: Result<seq<Byte>>)
    ensures r.Ok? <==> pos + k <= |bs|
    ensures r.Ok? ==> |r.value| == k && r.value == bs[pos..pos + k]
    ensures r.Err? ==> r.error == BufferUnderflow
  {
    if pos + k <= |bs| then Ok(bs[pos..pos + k]) else Err(BufferUnderflow)
  }

  /** The loop over the `left` entries still to read. */
  function GetEntries(bs: seq<Byte>, pos: nat, left: nat, dims: nat, n: DiskNode): (r: Result<DiskNode>)
    requires Parallel(n)
    ensures r.Ok? ==> Parallel(r.value) && r.value.isLeaf == n.isLeaf && |r.value.mbrs| == |n.mbrs| + left
    ensures r.Ok? && left > 0 ==> pos + left * EntrySize(dims) <= |bs|
    ensures r.Err? ==> r.error == BufferUnderflow || r.error == InvalidBounds
    decreases left, dims + 1
  {
    if left == 0 then Ok(n) else GetBounds(bs, pos, 0, dims, [], left, n)
  }

  /** Dimensions `d` and above of the entry being read: the lower, then the
      upper double, then the Bounds constructor's check; then the pointer,
      which adds the entry to the node.  `box` holds the dimensions read so
      far. */
  function GetBounds(bs: seq<Byte>, pos: nat, d: nat, dims: nat, box: RawBox, left: nat, n: DiskNode): (r: Result<DiskNode>)
    requires Parallel(n) && 0 < left && d <= dims
    ensures r.Ok? ==> Parallel(r.value) && r.value.isLeaf == n.isLeaf && |r.value.mbrs| == |n.mbrs| + left
    ensures r.Ok? ==> pos + 16 * (dims - d) + 8 + (left - 1) * EntrySize(dims) <= |bs|
    ensures r.Err? ==> r.error == BufferUnderflow || r.error == InvalidBounds
    decreases left, dims - d
  {
    if d < dims then
      var lo :- Get(bs, pos, 8);
      var hi :- Get(bs, pos + 8, 8);
      var b := RawBounds(DecodeDouble(lo), DecodeDouble(hi));
      if !ValidBounds(b) then Err(InvalidBounds)
      else GetBounds(bs, pos + 16, d + 1, dims, box + [b], left, n)
    else
      var ptr :- Get(bs, pos, 8);
      GetEntries(bs, pos + 8, left - 1, dims, AddEntry(n, box, DecodeLong(ptr)))
  }

  /** The loop runs `count` times, none when the count is negative. */
  function Left(count: Int32): nat {
    if count < 0 then 0 else count
  }

  /** readNode's decoding: the flag is a leaf exactly when its byte is 1. */
  function DecodeNode(bs: seq<Byte>, dimension: Int32): (r: Result<DiskNode>)
    ensures r.Ok? ==> |bs| >= 5 && r.value.isLeaf == (bs[0] == 1)
    ensures r.Ok? ==> Parallel(r.value) && |r.value.mbrs| == Left(DecodeInt(bs[1..5]))
    ensures r.Ok? ==> Storable(r.value, Dims(dimension))
    ensures r.Err? ==> r.error == BufferUnderflow || r.error == InvalidBounds
  {
    var flag :- Get(bs, 0, 1);
    var count :- Get(bs, 1, 4);
    var r := GetEntries(bs, 5, Left(DecodeInt(count)), Dims(dimension), NewNode(flag[0] == 1));
    if r.Ok? then GetEntriesStorable(bs, 5, Left(DecodeInt(count)), Dims(dimension), NewNode(flag[0] == 1)); r
    else r
  }

  // ---------------------------------------------------------------------
  // Round trips
  // ---------------------------------------------------------------------

  /** What a node must be for reading it back to give it again: the lists
      are parallel, every box has exactly `dims` dimensions, and every stored
      bound passes the Bounds constructor's check. */
  predicate Storable(n: DiskNode, dims: nat) {
    Parallel(n) && forall j | 0 <= j < |n.mbrs| :: StorableBox(n.mbrs[j], dims)
  }

  predicate StorableBox(box: RawBox, dims: nat) {
    |box| == dims && forall k | 0 <= k < |box| :: ValidBounds(box[k])
  }

  lemma AddStorable(n: DiskNode, box: RawBox, pointer: Long, dims: nat)
    requires Storable(n, dims) && StorableBox(box, dims)
    ensures Storable(AddEntry(n, box, pointer), dims)
  {
    var n1 := AddEntry(n, box, pointer);
    assert forall j | 0 <= j < |n.mbrs| :: n1.mbrs[j] == n.mbrs[j];
  }

  /** Every box a read adds is `dims` wide and passed the Bounds check, so
      a node that held only such boxes still does after the read. */
  lemma {:induction false} GetEntriesStorable(bs: seq<Byte>, pos: nat, left: nat, dims: nat, n: DiskNode)
    requires Storable(n, dims) && GetEntries(bs, pos, left, dims, n).Ok?
    ensures Storable(GetEntries(bs, pos, left, dims, n).value, dims)
    decreases left, dims + 1
  {
    if left > 0 {
      GetBoundsStorable(bs, pos, 0, dims, [], left, n);
    }
  }

  lemma {:induction false} GetBoundsStorable(bs: seq<Byte>, pos: nat, d: nat, dims: nat, box: RawBox, left: nat, n: DiskNode)
    requires Storable(n, dims) && 0 < left && d <= dims && StorableBox(box, d)
    requires GetBounds(bs, pos, d, dims, box, left, n).Ok?
    ensures Storable(GetBounds(bs, pos, d, dims, box, left, n).value, dims)
    decreases left, dims - d
  {
    if d < dims {
      var b := RawBounds(DecodeDouble(bs[pos..pos + 8]), DecodeDouble(bs[pos + 8..pos + 16]));
      assert (box + [b])[d] == b;
      assert forall k | 0 <= k < d :: (box + [b])[k] == box[k];
      GetBoundsStorable(bs, pos + 16, d + 1, dims, box + [b], left, n);
    } else {
      var ptr := DecodeLong(bs[pos..pos + 8]);
      AddStorable(n, box, ptr, dims);
      GetEntriesStorable(bs, pos + 8, left - 1, dims, AddEntry(n, box, ptr));
    }
  }

  /** `a` is where `b` starts. */
  predicate IsPrefix(a: seq<Byte>, b: seq<Byte>) {
    |a| <= |b| && b[..|a|] == a
  }

  lemma SliceOfPrefix(a: seq<Byte>, b: seq<Byte>, c: seq<Byte>, lo: nat, hi: nat)
    requires IsPrefix(a, b) && IsPrefix(b, c) && lo <= hi <= |a|
    ensures IsPrefix(a, c) && c[lo..hi] == a[lo..hi]
  {
    forall k | 0 <= k < |a| ensures c[k] == a[k] {
      assert c[..|b|][k] == c[k];
      assert b[..|a|][k] == b[k];
    }
    assert c[..|a|] == a;
  }

  lemma ConcatPrefix(a: seq<Byte>, tail: seq<Byte>)
    ensures IsPrefix(a, a + tail)
  {
    assert (a + tail)[..|a|] == a;
  }

  lemma PrefixSlice(bs: seq<Byte>, more: seq<Byte>, lo: nat, hi: nat)
    requires IsPrefix(bs, more) && lo <= hi <= |bs|
    ensures more[lo..hi] == bs[lo..hi]
  {
    forall k | lo <= k < hi ensures more[k] == bs[k] {
      assert more[..|bs|][k] == more[k];
    }
  }

  /** The node of the first `i` entries of `n`. */
  function Front(n: DiskNode, i: nat): (r: DiskNode)
    requires i <= |n.mbrs| && Parallel(n)
    ensures Parallel(r) && r.isLeaf == n.isLeaf && |r.mbrs| == i
  {
    RStarNode(n.isLeaf, n.mbrs[..i], n.childrenPointers[..i])
  }

  /** Adding entry `i` to the node of the first `i` entries gives the node
      of the first `i + 1`. */
  lemma FrontStep(n: DiskNode, i: nat)
    requires i < |n.mbrs| && Parallel(n)
    ensures AddEntry(Front(n, i), n.mbrs[i], n.childrenPointers[i]) == Front(n, i + 1)
  {
    assert n.mbrs[..i + 1] == n.mbrs[..i] + [n.mbrs[i]];
    assert n.childrenPointers[..i + 1] == n.childrenPointers[..i] + [n.childrenPointers[i]];
  }

  /** Dimension `d` of entry `i` is read back from where it was put; the
      result is the buffer after it. */
  lemma BoundsStep(buf: seq<Byte>, n: DiskNode, i: nat, d: nat, dims: nat, out: seq<Byte>, bs: seq<Byte>) returns (b2: seq<Byte>)
    requires i < |n.mbrs| && d < dims && Storable(n, dims) && |buf| <= BlockSize
    requires PutBounds(buf, n, i, d, dims) == Ok(out) && IsPrefix(out, bs)
    ensures |b2| == |buf| + 16 && |b2| <= BlockSize && PutBounds(b2, n, i, d + 1, dims) == Ok(out)
    ensures Get(bs, |buf|, 8) == Ok(EncodeDouble(n.mbrs[i][d].lower))
    ensures Get(bs, |buf| + 8, 8) == Ok(EncodeDouble(n.mbrs[i][d].upper))
  {
    var box := n.mbrs[i];
    assert StorableBox(box, dims);
    var lo := EncodeDouble(box[d].lower);
    var hi := EncodeDouble(box[d].upper);
    b2 := buf + lo + hi;
    SliceOfPrefix(b2, out, bs, |buf|, |buf| + 8);
    SliceOfPrefix(b2, out, bs, |buf| + 8, |buf| + 16);
    assert b2[|buf|..|buf| + 8] == lo && b2[|buf| + 8..|buf| + 16] == hi;
  }

  /** The pointer of entry `i` is read back from where it was put; the
      result is the buffer after it. */
  lemma PointerStep(buf: seq<Byte>, n: DiskNode, i: nat, dims: nat, out: seq<Byte>, bs: seq<Byte>) returns (b2: seq<Byte>)
    requires i < |n.mbrs| && |buf| <= BlockSize
    requires PutBounds(buf, n, i, dims, dims) == Ok(out) && IsPrefix(out, bs)
    ensures |b2| == |buf| + 8 && |b2| <= BlockSize && i < |n.childrenPointers|
    ensures PutEntries(b2, n, i + 1, dims) == Ok(out)
    ensures Get(bs, |buf|, 8) == Ok(EncodeLong(n.childrenPointers[i]))
  {
    var ptr := EncodeLong(n.childrenPointers[i]);
    b2 := buf + ptr;
    SliceOfPrefix(b2, out, bs, |buf|, |buf| + 8);
    assert b2[|buf|..|buf| + 8] == ptr;
  }

  /** Entries `i` and above are read back from where they were put, after
      the first `i` entries. */
  lemma {:induction false} EntriesRoundTrip(buf: seq<Byte>, n: DiskNode, i: nat, dims: nat, out: seq<Byte>, bs: seq<Byte>)
    requires i <= |n.mbrs| && Storable(n, dims) && |buf| <= BlockSize
    requires PutEntries(buf, n, i, dims) == Ok(out) && IsPrefix(out, bs)
    ensures GetEntries(bs, |buf|, |n.mbrs| - i, dims, Front(n, i)) == Ok(n)
    decreases |n.mbrs| - i, dims + 1
  {
    if i == |n.mbrs| {
      assert n.mbrs[..i] == n.mbrs && n.childrenPointers[..i] == n.childrenPointers;
    } else {
      assert n.mbrs[i][..0] == [];
      BoundsRoundTrip(buf, n, i, 0, dims, out, bs);
    }
  }

  /** Dimensions `d` and above of entry `i`, and the entries after it, are
      read back from where they were put. */
  lemma {:induction false} BoundsRoundTrip(buf: seq<Byte>, n: DiskNode, i: nat, d: nat, dims: nat, out: seq<Byte>, bs: seq<Byte>)
    requires i < |n.mbrs| && d <= dims && Storable(n, dims) && |buf| <= BlockSize
    requires PutBounds(buf, n, i, d, dims) == Ok(out) && IsPrefix(out, bs)
    ensures d <= |n.mbrs[i]|
    ensures GetBounds(bs, |buf|, d, dims, n.mbrs[i][..d], |n.mbrs| - i, Front(n, i)) == Ok(n)
    decreases |n.mbrs| - i, dims - d
  {
    var box := n.mbrs[i];
    assert StorableBox(box, dims);
    if d < dims {
      var b2 := BoundsStep(buf, n, i, d, dims, out, bs);
      DecodeEncodeDouble(box[d].lower);
      DecodeEncodeDouble(box[d].upper);
      assert box[..d] + [box[d]] == box[..d + 1];
      BoundsRoundTrip(b2, n, i, d + 1, dims, out, bs);
    } else {
      var b2 := PointerStep(buf, n, i, dims, out, bs);
      DecodeEncodeLong(n.childrenPointers[i]);
      assert box[..d] == box;
      FrontStep(n, i);
      EntriesRoundTrip(b2, n, i + 1, dims, out, bs);
    }
  }

  /** After the header, DecodeNode is the read of the entries. */
  lemma DecodeNodeHeader(bs: seq<Byte>, dimension: Int32)
    requires |bs| >= 5
    ensures DecodeNode(bs, dimension) == GetEntries(bs, 5, Left(DecodeInt(bs[1..5])), Dims(dimension), NewNode(bs[0] == 1))
  {
  }

  /** Reading back what writing a node put in the buffer gives the node
      again, whatever follows it in the block. */
  lemma NodeRoundTrip(n: DiskNode, dimension: Int32, tail: seq<Byte>)
    requires |n.mbrs| < 0x8000_0000 && Storable(n, Dims(dimension))
    requires EncodeNode(n, dimension).Ok?
    ensures DecodeNode(EncodeNode(n, dimension).value + tail, dimension) == Ok(n)
  {
    var out := EncodeNode(n, dimension).value;
    var bs := out + tail;
    var b1 := [if n.isLeaf then 1 else 0] + EncodeInt(|n.mbrs|);
    assert PutEntries(b1, n, 0, Dims(dimension)) == Ok(out);
    ConcatPrefix(out, tail);
    EntriesRoundTrip(b1, n, 0, Dims(dimension), out, bs);
    PrefixSlice(out, bs, 0, 1);
    PrefixSlice(out, bs, 1, 5);
    assert bs[0] == bs[0..1][0];
    DecodeEncodeInt(|n.mbrs|);
    assert Front(n, 0) == NewNode(bs[0] == 1);
    DecodeNodeHeader(bs, dimension);
  }

  // ---------------------------------------------------------------------
  // Reading more bytes
  // ---------------------------------------------------------------------

  lemma {:induction false} GetEntriesExtends(bs: seq<Byte>, more: seq<Byte>, pos: nat, left: nat, dims: nat, n: DiskNode)
    requires Parallel(n) && IsPrefix(bs, more) && GetEntries(bs, pos, left, dims, n).Ok?
    ensures GetEntries(more, pos, left, dims, n) == GetEntries(bs, pos, left, dims, n)
    decreases left, dims + 1
  {
    if left > 0 {
      GetBoundsExtends(bs, more, pos, 0, dims, [], left, n);
    }
  }

  lemma {:induction false} GetBoundsExtends(bs: seq<Byte>, more: seq<Byte>, pos: nat, d: nat, dims: nat, box: RawBox, left: nat, n: DiskNode)
    requires Parallel(n) && 0 < left && d <= dims && IsPrefix(bs, more)
    requires GetBounds(bs, pos, d, dims, box, left, n).Ok?
    ensures GetBounds(more, pos, d, dims, box, left, n) == GetBounds(bs, pos, d, dims, box, left, n)
    decreases left, dims - d
  {
    if d < dims {
      PrefixSlice(bs, more, pos, pos + 8);
      PrefixSlice(bs, more, pos + 8, pos + 16);
      var b := RawBounds(DecodeDouble(bs[pos..pos + 8]), DecodeDouble(bs[pos + 8..pos + 16]));
      GetBoundsExtends(bs, more, pos + 16, d + 1, dims, box + [b], left, n);
    } else {
      PrefixSlice(bs, more, pos, pos + 8);
      GetEntriesExtends(bs, more, pos + 8, left - 1, dims, AddEntry(n, box, DecodeLong(bs[pos..pos + 8])));
    }
  }

  /** A node decoded from a block decodes the same from any longer block
      that starts with it. */
  lemma DecodeNodeExtends(bs: seq<Byte>, more: seq<Byte>, dimension: Int32)
    requires IsPrefix(bs, more) && DecodeNode(bs, dimension).Ok?
    ensures DecodeNode(more, dimension) == DecodeNode(bs, dimension)
  {
    PrefixSlice(bs, more, 0, 1);
    PrefixSlice(bs, more, 1, 5);
    DecodeNodeHeader(bs, dimension);
    DecodeNodeHeader(more, dimension);
    GetEntriesExtends(bs, more, 5, Left(DecodeInt(bs[1..5])), Dims(dimension), NewNode(bs[0] == 1));
  }

  // ---------------------------------------------------------------------
  // Metadata
  // ---------------------------------------------------------------------

  /** writeIndexMetadata's buffer: root id, height, capacity, minimum
      capacity, dimension. */
  function EncodeMetadata(m: IndexMetadata): (r: seq<Byte>)
    ensures |r| == 24 <= BlockSize
  {
    EncodeLong(m.rootBlockId) + EncodeInt(m.treeHeight) + EncodeInt(m.maxCapacity)
      + EncodeInt(m.minCapacity) + EncodeInt(m.dimension)
  }

  /** readIndexMetadata's decoding, field by field in the same order. */
  function DecodeMetadata(bs: seq<Byte>): (r: Result<IndexMetadata>)
    ensures r.Ok? <==> |bs| >= 24
    ensures r.Err? ==> r.error == BufferUnderflow
  {
    var root :- Get(bs, 0, 8);
    var height :- Get(bs, 8, 4);
    var maxCapacity :- Get(bs, 12, 4);
    var minCapacity :- Get(bs, 16, 4);
    var dimension :- Get(bs, 20, 4);
    Ok(IndexMetadata(DecodeLong(root), DecodeInt(height), DecodeInt(maxCapacity), DecodeInt(minCapacity), DecodeInt(dimension)))
  }

  /** Reading the metadata back from a block that starts with its encoding
      gives the same five fields. */
  lemma MetadataRoundTrip(m: IndexMetadata, bs: seq<Byte>)
    requires IsPrefix(EncodeMetadata(m), bs)
    ensures DecodeMetadata(bs) == Ok(m)
  {
    var e := EncodeMetadata(m);
    assert bs[0..8] == e[0..8] == EncodeLong(m.rootBlockId);
    assert bs[8..12] == e[8..12] == EncodeInt(m.treeHeight);
    assert bs[12..16] == e[12..16] == EncodeInt(m.maxCapacity);
    assert bs[16..20] == e[16..20] == EncodeInt(m.minCapacity);
    assert bs[20..24] == e[20..24] == EncodeInt(m.dimension);
    DecodeEncodeLong(m.rootBlockId);
    DecodeEncodeInt(m.treeHeight);
    DecodeEncodeInt(m.maxCapacity);
    DecodeEncodeInt(m.minCapacity);
    DecodeEncodeInt(m.dimension);
  }

  // ---------------------------------------------------------------------
  // The index file
  // ---------------------------------------------------------------------

  function Zeros(k: nat): (r: seq<Byte>)
    ensures |r| == k && forall i | 0 <= i < k :: r[i] == 0
  {
    seq(k, i => 0)
  }

  /** The byte where block `blockId` starts. */
  function BlockOffset(blockId: nat): nat {
    blockId * BlockSize
  }

  /** A write of `bs` at `offset`: the file grows as needed (a gap before
      the offset reads as zeros) and no other byte changes. */
  function WriteAt(file: seq<Byte>, offset: nat, bs: seq<Byte>): (r: seq<Byte>)
    ensures |r| == if offset + |bs| > |file| then offset + |bs| else |file|
    ensures r[offset..offset + |bs|] == bs
    ensures forall k | 0 <= k < |file| && !(offset <= k < offset + |bs|) :: r[k] == file[k]
    ensures forall k | |file| <= k < offset :: r[k] == 0
  {
    var padded := if offset > |file| then file + Zeros(offset - |file|) else file;
    var after := if offset + |bs| < |padded| then padded[offset + |bs|..] else [];
    var r := padded[..offset] + bs + after;
    assert forall k | offset + |bs| <= k < |r| :: r[k] == padded[k];
    r
  }

  /** A read of one block at `offset`: up to BlockSize bytes, fewer at the
      end of the file, none past it. */
  function ReadAt(file: seq<Byte>, offset: nat): (r: seq<Byte>)
    ensures |r| <= BlockSize
    ensures offset < |file| ==> |r| > 0
    ensures forall k | 0 <= k < |r| :: offset + k < |file| && r[k] == file[offset + k]
    ensures offset + BlockSize <= |file| ==> |r| == BlockSize
  {
    if offset >= |file| then []
    else if offset + BlockSize <= |file| then file[offset..offset + BlockSize]
    else file[offset..]
  }

  /** writeNode: the node's buffer goes to the start of its block. */
  function WriteNode(file: seq<Byte>, n: DiskNode, blockId: Int32, dimension: Int32): (r: Result<seq<Byte>>)
    requires |n.mbrs| < 0x8000_0000
    ensures r.Ok? <==> EncodeNode(n, dimension).Ok? && blockId >= 0
    ensures r.Ok? ==> |r.value| >= BlockOffset(blockId) + NodeSize(|n.mbrs|, Dims(dimension))
  {
    var e :- EncodeNode(n, dimension);
    if blockId < 0 then Err(OutOfRange)
    else Ok(WriteAt(file, BlockOffset(blockId), e))
  }

  /** readNode: the node decoded from the block. */
  function ReadNode(file: seq<Byte>, blockId: Int32, dimension: Int32): (r: Result<DiskNode>)
    ensures r.Ok? ==> blockId >= 0 && Storable(r.value, Dims(dimension))
  {
    if blockId < 0 then Err(OutOfRange)
    else DecodeNode(ReadAt(file, BlockOffset(blockId)), dimension)
  }

  /** writeIndexMetadata: the metadata goes to the start of block 0. */
  function WriteMetadata(file: seq<Byte>, m: IndexMetadata): (r: seq<Byte>)
    ensures |r| >= 24
  {
    WriteAt(file, BlockOffset(0), EncodeMetadata(m))
  }

  /** readIndexMetadata: the metadata decoded from block 0. */
  function ReadMetadata(file: seq<Byte>): (r: Result<IndexMetadata>)
    ensures r.Ok? <==> |file| >= 24
  {
    DecodeMetadata(ReadAt(file, BlockOffset(0)))
  }

  /** After a write of at most one block at a block boundary, the block
      written starts with the bytes written, and every other block starts
      with what it held before. */
  lemma WriteAtBlock(file: seq<Byte>, j: nat, bs: seq<Byte>, k: nat)
    requires |bs| <= BlockSize
    ensures IsPrefix(bs, ReadAt(WriteAt(file, BlockOffset(j), bs), BlockOffset(j)))
    ensures k != j ==> IsPrefix(ReadAt(file, BlockOffset(k)), ReadAt(WriteAt(file, BlockOffset(j), bs), BlockOffset(k)))
  {
    var f2 := WriteAt(file, BlockOffset(j), bs);
    var written := ReadAt(f2, BlockOffset(j));
    assert |written| >= |bs|;
    assert written[..|bs|] == bs;
    if k != j {
      var before := ReadAt(file, BlockOffset(k));
      var after := ReadAt(f2, BlockOffset(k));
      if k < j {
        assert BlockOffset(k) + BlockSize <= BlockOffset(j);
      } else {
        assert BlockOffset(j) + BlockSize <= BlockOffset(k);
      }
      assert |before| <= |after|;
      assert after[..|before|] == before;
    }
  }

  /** Reading a node back after writing it gives the node again. */
  lemma WriteThenReadNode(file: seq<Byte>, n: DiskNode, blockId: Int32, dimension: Int32)
    requires |n.mbrs| < 0x8000_0000 && Storable(n, Dims(dimension))
    requires WriteNode(file, n, blockId, dimension).Ok?
    ensures ReadNode(WriteNode(file, n, blockId, dimension).value, blockId, dimension) == Ok(n)
  {
    var e := EncodeNode(n, dimension).value;
    var block := ReadAt(WriteAt(file, BlockOffset(blockId), e), BlockOffset(blockId));
    WriteAtBlock(file, blockId, e, blockId);
    NodeRoundTrip(n, dimension, block[|e|..]);
    assert block == e + block[|e|..];
  }

  /** Reading the metadata back after writing it gives the same metadata. */
  lemma WriteThenReadMetadata(file: seq<Byte>, m: IndexMetadata)
    ensures ReadMetadata(WriteMetadata(file, m)) == Ok(m)
  {
    WriteAtBlock(file, 0, EncodeMetadata(m), 0);
    MetadataRoundTrip(m, ReadAt(WriteMetadata(file, m), BlockOffset(0)));
  }

  /** The metadata decoded from a block decodes the same from any longer
      block that starts with it. */
  lemma DecodeMetadataExtends(bs: seq<Byte>, more: seq<Byte>)
    requires IsPrefix(bs, more) && DecodeMetadata(bs).Ok?
    ensures DecodeMetadata(more) == DecodeMetadata(bs)
  {
    PrefixSlice(bs, more, 0, 8);
    PrefixSlice(bs, more, 8, 12);
    PrefixSlice(bs, more, 12, 16);
    PrefixSlice(bs, more, 16, 20);
    PrefixSlice(bs, more, 20, 24);
  }

  /** Writing a node leaves every node of another block as it reads. */
  lemma WriteNodeKeepsOtherNodes(file: seq<Byte>, n: DiskNode, blockId: Int32, dimension: Int32, other: Int32, otherDimension: Int32)
    requires |n.mbrs| < 0x8000_0000 && WriteNode(file, n, blockId, dimension).Ok?
    requires other != blockId && ReadNode(file, other, otherDimension).Ok?
    ensures ReadNode(WriteNode(file, n, blockId, dimension).value, other, otherDimension) == ReadNode(file, other, otherDimension)
  {
    var e := EncodeNode(n, dimension).value;
    var f2 := WriteAt(file, BlockOffset(blockId), e);
    WriteAtBlock(file, blockId, e, other);
    DecodeNodeExtends(ReadAt(file, BlockOffset(other)), ReadAt(f2, BlockOffset(other)), otherDimension);
  }

  /** Writing a node to a block other than 0 leaves the metadata as it
      reads. */
  lemma WriteNodeKeepsMetadata(file: seq<Byte>, n: DiskNode, blockId: Int32, dimension: Int32)
    requires |n.mbrs| < 0x8000_0000 && WriteNode(file, n, blockId, dimension).Ok?
    requires blockId != 0 && ReadMetadata(file).Ok?
    ensures ReadMetadata(WriteNode(file, n, blockId, dimension).value) == ReadMetadata(file)
  {
    var e := EncodeNode(n, dimension).value;
    var f2 := WriteAt(file, BlockOffset(blockId), e);
    WriteAtBlock(file, blockId, e, 0);
    DecodeMetadataExtends(ReadAt(file, BlockOffset(0)), ReadAt(f2, BlockOffset(0)));
  }

  /** Writing the metadata leaves every node in a block other than 0 as it
      reads. */
  lemma WriteMetadataKeepsNodes(file: seq<Byte>, m: IndexMetadata, blockId: Int32, dimension: Int32)
    requires blockId != 0 && ReadNode(file, blockId, dimension).Ok?
    ensures ReadNode(WriteMetadata(file, m), blockId, dimension) == ReadNode(file, blockId, dimension)
  {
    WriteAtBlock(file, 0, EncodeMetadata(m), blockId);
    DecodeNodeExtends(ReadAt(file, BlockOffset(blockId)), ReadAt(WriteMetadata(file, m), BlockOffset(blockId)), dimension);
  }
}
