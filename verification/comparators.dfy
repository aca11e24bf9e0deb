/** The ranking rules of the index (ComparatorsForEntries and the
    entry/enlargement pair used by ChooseSubtree).

    Each comparator is written in the shape of the implementation — a key, a
    nested test for ties, a `Double.compare` — and each one is shown to agree
    with `CompareRanks` on a `Rank` of the entry, which is what `SortBy` and
    `FirstMin` order by.  Entries are told apart by their position in the node
    rather than by object identity. */
module Comparators {
  import opened Geometry
  import opened Ordering
  import opened Entries

  const NoRank := Rank(0.0, 0.0, 0.0)

  // ---------------------------------------------------------------------
  // Bounds
  // ---------------------------------------------------------------------

  /** The bound of axis `dim` an entry is ordered by: its upper bound when
      `upper` holds, its lower bound otherwise. */
  function BoundKey(e: Entry, dim: nat, upper: bool): real
    requires dim < |e.box|
  {
    if upper then e.box[dim].upper else e.box[dim].lower
  }

  function BoundRank(dim: nat, upper: bool): Entry -> Rank {
    (e: Entry) => if dim < |e.box| then Rank(BoundKey(e, dim, upper), 0.0, 0.0) else NoRank
  }

  /** CompareOnBounds: the entry with the smaller chosen bound comes first. */
  function CompareOnBounds(a: Entry, b: Entry, dim: nat, upper: bool): (r: int)
    requires dim < |a.box| && dim < |b.box|
    ensures r < 0 <==> BoundKey(a, dim, upper) < BoundKey(b, dim, upper)
    ensures r > 0 <==> BoundKey(b, dim, upper) < BoundKey(a, dim, upper)
    ensures r == CompareRanks(BoundRank(dim, upper)(a), BoundRank(dim, upper)(b))
  {
    CompareReal(BoundKey(a, dim, upper), BoundKey(b, dim, upper))
  }

  /** The entries sorted on one bound of one axis: a permutation of the input
      whose chosen bounds ascend. */
  function SortOnBound(es: seq<Entry>, dim: nat, upper: bool): (r: seq<Entry>)
    requires forall k | 0 <= k < |es| :: dim < |es[k].box|
    ensures |r| == |es| && multiset(r) == multiset(es)
    ensures forall k | 0 <= k < |r| :: dim < |r[k].box|
    ensures forall i, j | 0 <= i < j < |r| :: BoundKey(r[i], dim, upper) <= BoundKey(r[j], dim, upper)
  {
    var r := SortBy(es, BoundRank(dim, upper));
    forall k | 0 <= k < |r| ensures dim < |r[k].box| {
      assert r[k] in multiset(es);
    }
    r
  }

  // ---------------------------------------------------------------------
  // Volume enlargement
  // ---------------------------------------------------------------------

  /** How much the box's volume grows when it is widened to cover `newBox`. */
  function Enlargement(box: Box, newBox: Box): (r: real)
    requires |box| == |newBox|
    ensures r >= 0.0
    ensures Encloses(box, newBox) ==> r == 0.0
  {
    var grown := Union(box, newBox);
    VolumeMonotone(box, grown);
    assert Encloses(box, newBox) ==> grown == box by {
      if Encloses(box, newBox) {
        UnionWithEnclosed(box, newBox);
      }
    }
    Volume(grown) - Volume(box)
  }

  /** Least enlargement first, then smallest volume. */
  function EnlargementRank(newBox: Box): Entry -> Rank {
    (e: Entry) => if |e.box| == |newBox| then Rank(Enlargement(e.box, newBox), Volume(e.box), 0.0) else NoRank
  }

  /** CompareOnVolumeEnlargement: by enlargement; on equal enlargement, by
      the entry's own volume. */
  function CompareOnVolumeEnlargement(a: Entry, b: Entry, newBox: Box): (r: int)
    requires |a.box| == |newBox| && |b.box| == |newBox|
    ensures Enlargement(a.box, newBox) < Enlargement(b.box, newBox) ==> r < 0
    ensures Enlargement(a.box, newBox) == Enlargement(b.box, newBox) ==>
              (r < 0 <==> Volume(a.box) < Volume(b.box))
    ensures r == CompareRanks(EnlargementRank(newBox)(a), EnlargementRank(newBox)(b))
  {
    var e1 := Enlargement(a.box, newBox);
    var e2 := Enlargement(b.box, newBox);
    if e1 == e2 then CompareReal(Volume(a.box), Volume(b.box)) else CompareReal(e1, e2)
  }

  // ---------------------------------------------------------------------
  // Overlap increase
  // ---------------------------------------------------------------------

  /** The overlap of `box` with each entry of the node, with the entry at
      position `self` counted as 0. */
  function OverlapTerms(es: seq<Entry>, self: nat, box: Box): (r: seq<real>)
    requires Fits(es, |box|)
    ensures |r| == |es| && AllNonNegative(r)
    ensures forall k | 0 <= k < |es| :: r[k] == if k == self then 0.0 else Overlap(box, es[k].box)
  {
    seq(|es|, k requires 0 <= k < |es| => if k == self then 0.0 else Overlap(box, es[k].box))
  }

  /** findEntryOverlap: the total overlap of `box` with the other entries of
      the node. */
  function EntryOverlap(es: seq<Entry>, self: nat, box: Box): (r: real)
    requires Fits(es, |box|)
    ensures r >= 0.0
  {
    SumNonNegative(OverlapTerms(es, self, box));
    Sum(OverlapTerms(es, self, box))
  }

  /** The entry itself never contributes: replacing it changes nothing. */
  lemma EntryOverlapExcludesSelf(es: seq<Entry>, self: nat, box: Box, other: Entry)
    requires Fits(es, |box|) && self < |es| && |other.box| == |box|
    ensures EntryOverlap(es[self := other], self, box) == EntryOverlap(es, self, box)
  {
    assert OverlapTerms(es[self := other], self, box) == OverlapTerms(es, self, box);
  }

  /** A larger box overlaps the other entries at least as much. */
  lemma EntryOverlapMonotone(es: seq<Entry>, self: nat, box: Box, grown: Box)
    requires Fits(es, |box|) && Encloses(grown, box)
    ensures EntryOverlap(es, self, box) <= EntryOverlap(es, self, grown)
  {
    var xs := OverlapTerms(es, self, box);
    var ys := OverlapTerms(es, self, grown);
    forall k | 0 <= k < |es| ensures xs[k] <= ys[k] {
      if k != self {
        OverlapMonotone(box, grown, es[k].box);
      }
    }
    SumMonotone(xs, ys);
  }

  /** How much the overlap of entry `i` with the rest of the node grows when
      its box is widened to cover `newBox`. */
  function OverlapIncrease(es: seq<Entry>, i: nat, newBox: Box): (r: real)
    requires i < |es| && Fits(es, |newBox|)
    ensures r >= 0.0
  {
    var grown := Union(es[i].box, newBox);
    EntryOverlapMonotone(es, i, es[i].box, grown);
    EntryOverlap(es, i, grown) - EntryOverlap(es, i, es[i].box)
  }

  /** Least overlap increase, then least enlargement, then smallest volume,
      for the entry at position `i` of the node. */
  function OverlapKey(es: seq<Entry>, newBox: Box, i: nat): Rank {
    if i < |es| && Fits(es, |newBox|) then
      Rank(OverlapIncrease(es, i, newBox), Enlargement(es[i].box, newBox), Volume(es[i].box))
    else NoRank
  }

  function OverlapRank(es: seq<Entry>, newBox: Box): nat -> Rank {
    (i: nat) => OverlapKey(es, newBox, i)
  }

  /** CompareOnOverlapIncrease on the entries at positions `i` and `j`: by
      overlap increase, and on a tie by CompareOnVolumeEnlargement. */
  function CompareOnOverlapIncrease(es: seq<Entry>, i: nat, j: nat, newBox: Box): (r: int)
    requires i < |es| && j < |es| && Fits(es, |newBox|)
    ensures OverlapIncrease(es, i, newBox) < OverlapIncrease(es, j, newBox) ==> r < 0
    ensures OverlapIncrease(es, i, newBox) == OverlapIncrease(es, j, newBox) ==>
              r == CompareOnVolumeEnlargement(es[i], es[j], newBox)
    ensures r == CompareRanks(OverlapRank(es, newBox)(i), OverlapRank(es, newBox)(j))
  {
    var o1 := OverlapIncrease(es, i, newBox);
    var o2 := OverlapIncrease(es, j, newBox);
    if o1 == o2 then CompareOnVolumeEnlargement(es[i], es[j], newBox) else CompareReal(o1, o2)
  }

  // ---------------------------------------------------------------------
  // Distances
  // ---------------------------------------------------------------------

  /** Comparing squared distances orders exactly as comparing distances. */
  lemma SquaredOrder(d1: real, d2: real)
    ensures forall s1, s2 | IsSqrt(d1, s1) && IsSqrt(d2, s2) :: (d1 < d2 <==> s1 < s2)
  {
    forall s1, s2 | IsSqrt(d1, s1) && IsSqrt(d2, s2) ensures d1 < d2 <==> s1 < s2 {
      SqMonotone(s2, s1);
    }
  }

  /** CompareOnDistanceFromPoint: by the distance from the point to the
      entry's box; the comparison is made on squared distances. */
  function CompareOnDistanceFromPoint(a: Entry, b: Entry, p: Point): (r: int)
    requires |a.box| == |p| && |b.box| == |p|
    ensures forall sa, sb | IsSqrt(MinDistanceSq(a.box, p), sa) && IsSqrt(MinDistanceSq(b.box, p), sb) ::
              (r < 0 <==> sa < sb) && (r > 0 <==> sb < sa)
  {
    SquaredOrder(MinDistanceSq(a.box, p), MinDistanceSq(b.box, p));
    SquaredOrder(MinDistanceSq(b.box, p), MinDistanceSq(a.box, p));
    CompareReal(MinDistanceSq(a.box, p), MinDistanceSq(b.box, p))
  }

  /** An entry whose box contains the point is never ordered after another. */
  lemma ContainingEntryComesFirst(a: Entry, b: Entry, p: Point)
    requires |a.box| == |p| && |b.box| == |p| && ContainsPoint(a.box, p)
    ensures CompareOnDistanceFromPoint(a, b, p) <= 0
  {
    MinDistanceZeroIffInside(a.box, p);
  }

  /** The key of the close-reinsert order: the squared distance between the
      entry's center and the center of `box`. */
  function CenterRank(box: Box): Entry -> Rank {
    (e: Entry) => if |e.box| == |box| then Rank(CenterDistanceSq(e.box, box), 0.0, 0.0) else NoRank
  }

  /** CompareOnDistanceFromCenter: by the distance between the entry's center
      and the center of `box`; the comparison is made on squared distances. */
  function CompareOnDistanceFromCenter(a: Entry, b: Entry, box: Box): (r: int)
    requires |a.box| == |box| && |b.box| == |box|
    ensures forall sa, sb | IsSqrt(CenterDistanceSq(a.box, box), sa) && IsSqrt(CenterDistanceSq(b.box, box), sb) ::
              (r < 0 <==> sa < sb) && (r > 0 <==> sb < sa)
    ensures r == CompareRanks(CenterRank(box)(a), CenterRank(box)(b))
  {
    SquaredOrder(CenterDistanceSq(a.box, box), CenterDistanceSq(b.box, box));
    SquaredOrder(CenterDistanceSq(b.box, box), CenterDistanceSq(a.box, box));
    CompareReal(CenterDistanceSq(a.box, box), CenterDistanceSq(b.box, box))
  }

  // ---------------------------------------------------------------------
  // Entry / enlargement pairs
  // ---------------------------------------------------------------------

  /** EntryAreaEnlargementPair: an entry with the enlargement computed for it. */
  datatype Pair = Pair(entry: Entry, enlargement: real)

  function PairRank(p: Pair): Rank {
    Rank(p.enlargement, Volume(p.entry.box), 0.0)
  }

  /** compareTo: by enlargement; equal enlargements by the entry's volume. */
  function PairCompareTo(a: Pair, b: Pair): (r: int)
    ensures a.enlargement != b.enlargement ==> (r < 0 <==> a.enlargement < b.enlargement)
    ensures a.enlargement == b.enlargement ==>
              (r < 0 <==> Volume(a.entry.box) < Volume(b.entry.box)) &&
              (r > 0 <==> Volume(b.entry.box) < Volume(a.entry.box))
    ensures r == CompareRanks(PairRank(a), PairRank(b))
  {
    if a.enlargement == b.enlargement then
      CompareReal(Volume(a.entry.box), Volume(b.entry.box))
    else
      CompareReal(a.enlargement, b.enlargement)
  }

  /** compareTo is antisymmetric. */
  lemma PairCompareToAntisymmetric(a: Pair, b: Pair)
    ensures PairCompareTo(a, b) == -PairCompareTo(b, a)
  {
    CompareRanksAntisymmetric(PairRank(a), PairRank(b));
  }

  /** The pair built for ChooseSubtree holds the entry's enlargement. */
  function MakePair(e: Entry, newBox: Box): (p: Pair)
    requires |e.box| == |newBox|
    ensures p.entry == e && p.enlargement >= 0.0
    ensures PairRank(p) == EnlargementRank(newBox)(e)
  {
    Pair(e, Enlargement(e.box, newBox))
  }

  /** Comparing pairs built for the same new box is comparing their entries
      with CompareOnVolumeEnlargement. */
  lemma PairsCompareAsEntries(a: Entry, b: Entry, newBox: Box)
    requires |a.box| == |newBox| && |b.box| == |newBox|
    ensures PairCompareTo(MakePair(a, newBox), MakePair(b, newBox)) == CompareOnVolumeEnlargement(a, b, newBox)
  {
  }
}
