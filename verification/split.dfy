/** The split of an overflowing node (Node.split): ChooseSplitAxis, then
    ChooseSplitIndex, as in section 4.2 of the R*-tree paper by Beckmann,
    Kriegel, Schneider and Seeger (SIGMOD 1990). */
module Split {
  import opened Wrappers
  import opened Geometry
  import opened Ordering
  import opened Entries
  import opened Comparators

  /** MIN_ENTRIES: 40 per cent of the node capacity, rounded down. */
  function MinEntries(maxEntries: nat): (m: nat)
    ensures 5 * m <= 2 * maxEntries < 5 * m + 5
    ensures 2 * m <= maxEntries
  {
    (2 * maxEntries) / 5
  }

  /** EntryBoundingGroup: a group of entries with its bounding box. */
  datatype Group = Group(entries: seq<Entry>, box: Box)

  /** EntryBoundingSplit: a candidate distribution into two groups. */
  datatype Distribution = Distribution(a: Group, b: Group)

  /** The group is non-empty, of `dims` dimensions, and carries the cover of
      its entries. */
  predicate Covered(g: Group, dims: nat) {
    && |g.entries| > 0
    && Fits(g.entries, dims)
    && g.box == Cover(g.entries)
  }

  function MakeGroup(es: seq<Entry>, dims: nat): (g: Group)
    requires |es| > 0 && Fits(es, dims)
    ensures Covered(g, dims) && g.entries == es && |g.box| == dims
  {
    Group(es, Cover(es))
  }

  /** The number of distributions taken from one ordering. */
  function DistributionCount(maxEntries: nat): nat {
    maxEntries - 2 * MinEntries(maxEntries) + 2
  }

  /** A node of `size` entries can be split: both groups of every candidate
      are non-empty.  A capacity below 3 gives a minimum of 0 and an empty
      first group. */
  predicate Splittable(size: nat, maxEntries: nat) {
    MinEntries(maxEntries) >= 1 && size >= maxEntries - MinEntries(maxEntries) + 2
  }

  lemma PermutationFits(xs: seq<Entry>, ys: seq<Entry>, dims: nat)
    requires multiset(xs) == multiset(ys) && Fits(xs, dims)
    ensures Fits(ys, dims)
  {
    forall k | 0 <= k < |ys| ensures |ys[k].box| == dims {
      assert ys[k] in multiset(xs);
    }
  }

  /** The candidate that puts the first `k` entries of the ordering into the
      first group and the rest into the second. */
  function Candidate(ordering: seq<Entry>, k: nat, dims: nat): (d: Distribution)
    requires 0 < k < |ordering| && Fits(ordering, dims)
    ensures |d.a.entries| == k
    ensures d.a.entries + d.b.entries == ordering
    ensures Covered(d.a, dims) && Covered(d.b, dims)
  {
    assert ordering == ordering[..k] + ordering[k..];
    Distribution(MakeGroup(ordering[..k], dims), MakeGroup(ordering[k..], dims))
  }

  /** The candidates of one ordering: the j-th puts the first m + j entries
      into the first group and the rest into the second. */
  function Distributions(ordering: seq<Entry>, maxEntries: nat, dims: nat): (r: seq<Distribution>)
    requires Splittable(|ordering|, maxEntries) && Fits(ordering, dims)
    ensures |r| == DistributionCount(maxEntries)
    ensures forall j | 0 <= j < |r| ::
              && |r[j].a.entries| == MinEntries(maxEntries) + j
              && r[j].a.entries + r[j].b.entries == ordering
              && Covered(r[j].a, dims) && Covered(r[j].b, dims)
    ensures |ordering| > maxEntries ==>
              forall j | 0 <= j < |r| :: |r[j].b.entries| >= MinEntries(maxEntries)
  {
    var m := MinEntries(maxEntries);
    var r := seq(DistributionCount(maxEntries), j requires 0 <= j < DistributionCount(maxEntries) =>
      Candidate(ordering, m + j, dims));
    forall j | 0 <= j < |r|
      ensures && |r[j].a.entries| == m + j
              && r[j].a.entries + r[j].b.entries == ordering
              && Covered(r[j].a, dims) && Covered(r[j].b, dims)
              && |r[j].b.entries| == |ordering| - (m + j)
    {
      var d := Candidate(ordering, m + j, dims);
      assert r[j] == d;
      assert |d.a.entries + d.b.entries| == |ordering|;
    }
    r
  }

  /** The margin of a distribution: the perimeters of both groups. */
  function Margin(d: Distribution): real {
    Perimeter(d.a.box) + Perimeter(d.b.box)
  }

  function Margins(ds: seq<Distribution>): (r: seq<real>)
    ensures |r| == |ds| && AllNonNegative(r)
    ensures forall k | 0 <= k < |ds| :: r[k] == Margin(ds[k])
  {
    seq(|ds|, k requires 0 <= k < |ds| => Margin(ds[k]))
  }

  /** The sum of the margins of all distributions of one ordering. */
  function MarginSum(ds: seq<Distribution>): (r: real)
    ensures r >= 0.0
  {
    SumNonNegative(Margins(ds));
    Sum(Margins(ds))
  }

  /** The two orderings of one axis: by upper bound, then by lower bound. */
  function AxisOrderings(es: seq<Entry>, axis: nat, dims: nat): (r: (seq<Entry>, seq<Entry>))
    requires Fits(es, dims) && axis < dims
    ensures multiset(r.0) == multiset(es) && multiset(r.1) == multiset(es)
    ensures |r.0| == |es| && |r.1| == |es|
    ensures Fits(r.0, dims) && Fits(r.1, dims)
    ensures forall i, j | 0 <= i < j < |es| :: r.0[i].box[axis].upper <= r.0[j].box[axis].upper
    ensures forall i, j | 0 <= i < j < |es| :: r.1[i].box[axis].lower <= r.1[j].box[axis].lower
  {
    var byUpper := SortOnBound(es, axis, true);
    var byLower := SortOnBound(es, axis, false);
    PermutationFits(es, byUpper, dims);
    PermutationFits(es, byLower, dims);
    assert forall i, j | 0 <= i < j < |es| :: BoundKey(byUpper[i], axis, true) <= BoundKey(byUpper[j], axis, true);
    assert forall i, j | 0 <= i < j < |es| :: BoundKey(byLower[i], axis, false) <= BoundKey(byLower[j], axis, false);
    (byUpper, byLower)
  }

  /** The orderings as written: both lists are sorted by the lower bound. */
  function AxisOrderingsAsWritten(es: seq<Entry>, axis: nat, dims: nat): (r: (seq<Entry>, seq<Entry>))
    requires Fits(es, dims) && axis < dims
    ensures r.0 == r.1
    ensures multiset(r.0) == multiset(es) && |r.0| == |es| && Fits(r.0, dims)
    ensures forall i, j | 0 <= i < j < |es| :: r.0[i].box[axis].lower <= r.0[j].box[axis].lower
  {
    var byLower := SortOnBound(es, axis, false);
    PermutationFits(es, byLower, dims);
    assert forall i, j | 0 <= i < j < |es| :: BoundKey(byLower[i], axis, false) <= BoundKey(byLower[j], axis, false);
    (byLower, byLower)
  }

  /** The only orderings of two entries are the two sequences of them. */
  lemma TwoOrderings(s: seq<Entry>, x: Entry, y: Entry)
    requires multiset(s) == multiset{x, y}
    ensures s == [x, y] || s == [y, x]
  {
    assert |s| == 2;
    assert s == [s[0], s[1]];
    assert multiset{s[0], s[1]} == multiset{x, y};
    assert s[0] in multiset{x, y};
  }

  /** An entry that starts lower on the axis but ends higher than another:
      the first ordering as written puts it first, the intended one last. */
  lemma AxisOrderingsDiscrepancy(wide: Entry, narrow: Entry, axis: nat, dims: nat)
    requires |wide.box| == dims && |narrow.box| == dims && axis < dims
    requires wide.box[axis].lower < narrow.box[axis].lower
    requires narrow.box[axis].upper < wide.box[axis].upper
    ensures AxisOrderingsAsWritten([wide, narrow], axis, dims).0 == [wide, narrow]
    ensures AxisOrderings([wide, narrow], axis, dims).0 == [narrow, wide]
  {
    WrittenOrderingOfCrossing(wide, narrow, axis, dims);
    IntendedOrderingOfCrossing(wide, narrow, axis, dims);
  }

  lemma WrittenOrderingOfCrossing(wide: Entry, narrow: Entry, axis: nat, dims: nat)
    requires |wide.box| == dims && |narrow.box| == dims && axis < dims
    requires wide.box[axis].lower < narrow.box[axis].lower
    ensures AxisOrderingsAsWritten([wide, narrow], axis, dims).0 == [wide, narrow]
  {
    var es := [wide, narrow];
    assert Fits(es, dims);
    assert multiset(es) == multiset{wide, narrow};
    TwoOrderings(AxisOrderingsAsWritten(es, axis, dims).0, wide, narrow);
  }

  lemma IntendedOrderingOfCrossing(wide: Entry, narrow: Entry, axis: nat, dims: nat)
    requires |wide.box| == dims && |narrow.box| == dims && axis < dims
    requires narrow.box[axis].upper < wide.box[axis].upper
    ensures AxisOrderings([wide, narrow], axis, dims).0 == [narrow, wide]
  {
    var es := [wide, narrow];
    assert Fits(es, dims);
    assert multiset(es) == multiset{wide, narrow};
    TwoOrderings(AxisOrderings(es, axis, dims).0, wide, narrow);
  }

  /** A candidate that splits `es` exactly, with at least the minimum in
      its first group and both groups' boxes covering their entries. */
  predicate SplitsInto(d: Distribution, es: seq<Entry>, maxEntries: nat, dims: nat) {
    && multiset(d.a.entries) + multiset(d.b.entries) == multiset(es)
    && |d.a.entries| >= MinEntries(maxEntries)
    && Covered(d.a, dims) && Covered(d.b, dims)
  }

  /** The candidates of an ordering of `es` split `es` exactly. */
  lemma OrderingSplits(ordering: seq<Entry>, es: seq<Entry>, maxEntries: nat, dims: nat)
    requires Splittable(|ordering|, maxEntries) && Fits(ordering, dims)
    requires multiset(ordering) == multiset(es)
    ensures forall k | 0 <= k < DistributionCount(maxEntries) ::
              SplitsInto(Distributions(ordering, maxEntries, dims)[k], es, maxEntries, dims)
  {
    var ds := Distributions(ordering, maxEntries, dims);
    forall k | 0 <= k < |ds|
      ensures SplitsInto(ds[k], es, maxEntries, dims)
    {
      assert multiset(ds[k].a.entries + ds[k].b.entries) == multiset(ordering);
    }
  }

  /** All candidates of one axis: those of the upper-bound ordering, then
      those of the lower-bound ordering.  Each one splits the node's entries
      exactly. */
  function AxisCandidates(es: seq<Entry>, axis: nat, maxEntries: nat, dims: nat): (r: seq<Distribution>)
    requires Splittable(|es|, maxEntries) && Fits(es, dims) && axis < dims
    ensures |r| == 2 * DistributionCount(maxEntries)
    ensures forall k | 0 <= k < |r| :: SplitsInto(r[k], es, maxEntries, dims)
    ensures |es| > maxEntries ==>
              forall k | 0 <= k < |r| :: |r[k].b.entries| >= MinEntries(maxEntries)
  {
    var orderings := AxisOrderings(es, axis, dims);
    OrderingSplits(orderings.0, es, maxEntries, dims);
    OrderingSplits(orderings.1, es, maxEntries, dims);
    Distributions(orderings.0, maxEntries, dims) + Distributions(orderings.1, maxEntries, dims)
  }

  /** The margin sums of one axis, for the first and the second ordering. */
  function AxisMargins(es: seq<Entry>, axis: nat, maxEntries: nat, dims: nat): (r: (real, real))
    requires Splittable(|es|, maxEntries) && Fits(es, dims) && axis < dims
    ensures r.0 >= 0.0 && r.1 >= 0.0
  {
    var orderings := AxisOrderings(es, axis, dims);
    (MarginSum(Distributions(orderings.0, maxEntries, dims)),
     MarginSum(Distributions(orderings.1, maxEntries, dims)))
  }

  /** The margin sums of every axis, in axis order. */
  function AllAxisMargins(es: seq<Entry>, maxEntries: nat, dims: nat): (r: seq<(real, real)>)
    requires Splittable(|es|, maxEntries) && Fits(es, dims)
    ensures |r| == dims
    ensures forall k | 0 <= k < dims :: r[k] == AxisMargins(es, k, maxEntries, dims)
  {
    seq(dims, k requires 0 <= k < dims => AxisMargins(es, k, maxEntries, dims))
  }

  // ---------------------------------------------------------------------
  // The axis scan
  // ---------------------------------------------------------------------

  /** The state of the scan over the axes: the least margin sum met so far
      (None before the first comparison, which any sum beats) and its axis. */
  datatype AxisScan = AxisScan(best: Option<real>, axis: nat)

  /** `if (axisMarginSum > sum)`: keep the new axis only when its sum is
      strictly smaller. */
  function ScanStep(s: AxisScan, axis: nat, sum: real): AxisScan {
    if s.best.None? || sum < s.best.value then AxisScan(Some(sum), axis) else s
  }

  predicate NonNegativeSums(margins: seq<(real, real)>) {
    forall k | 0 <= k < |margins| :: margins[k].0 >= 0.0 && margins[k].1 >= 0.0
  }

  /** The scan as the implementation writes it: the comparison sits inside
      the loop over the two orderings, so it is made once with the first
      ordering's sum and once with the running total of both. */
  function ScanAsWritten(margins: seq<(real, real)>): AxisScan {
    if |margins| == 0 then AxisScan(None, 0)
    else
      var last := |margins| - 1;
      var afterFirst := ScanStep(ScanAsWritten(margins[..last]), last, margins[last].0);
      ScanStep(afterFirst, last, margins[last].0 + margins[last].1)
  }

  /** The scan as intended: one comparison per axis, with the total margin of
      both orderings. */
  function ScanCorrected(margins: seq<(real, real)>): AxisScan {
    if |margins| == 0 then AxisScan(None, 0)
    else
      var last := |margins| - 1;
      ScanStep(ScanCorrected(margins[..last]), last, margins[last].0 + margins[last].1)
  }

  function Total(p: (real, real)): real {
    p.0 + p.1
  }

  /** The corrected scan picks the first axis of least total margin. */
  lemma {:induction false} ScanCorrectedPicksLeastTotal(margins: seq<(real, real)>)
    requires |margins| > 0
    ensures ScanCorrected(margins).axis < |margins|
    ensures ScanCorrected(margins).best == Some(Total(margins[ScanCorrected(margins).axis]))
    ensures forall k | 0 <= k < |margins| :: Total(margins[ScanCorrected(margins).axis]) <= Total(margins[k])
    ensures forall k | 0 <= k < ScanCorrected(margins).axis :: Total(margins[ScanCorrected(margins).axis]) < Total(margins[k])
  {
    var last := |margins| - 1;
    var init := margins[..last];
    assert forall k | 0 <= k < last :: init[k] == margins[k];
    if last > 0 {
      ScanCorrectedPicksLeastTotal(init);
    }
  }

  /** The scan as written picks the first axis of least FIRST-ordering margin:
      the running total never beats the partial sum that was just kept. */
  lemma {:induction false} ScanAsWrittenPicksLeastFirstSum(margins: seq<(real, real)>)
    requires |margins| > 0 && NonNegativeSums(margins)
    ensures ScanAsWritten(margins).axis < |margins|
    ensures ScanAsWritten(margins).best == Some(margins[ScanAsWritten(margins).axis].0)
    ensures forall k | 0 <= k < |margins| :: margins[ScanAsWritten(margins).axis].0 <= margins[k].0
    ensures forall k | 0 <= k < ScanAsWritten(margins).axis :: margins[ScanAsWritten(margins).axis].0 < margins[k].0
  {
    var last := |margins| - 1;
    var init := margins[..last];
    assert forall k | 0 <= k < last :: init[k] == margins[k];
    if last > 0 {
      ScanAsWrittenPicksLeastFirstSum(init);
    }
  }

  /** Two axes whose margin sums tell the scans apart: axis 0 has the smaller
      first-ordering sum, axis 1 the smaller total. */
  lemma AxisScanDiscrepancy()
    ensures ScanAsWritten([(1.0, 10.0), (2.0, 2.0)]).axis == 0
    ensures ScanCorrected([(1.0, 10.0), (2.0, 2.0)]).axis == 1
  {
    var ms := [(1.0, 10.0), (2.0, 2.0)];
    assert ms[..1] == [(1.0, 10.0)];
    var none: seq<(real, real)> := [];
    assert ms[..1][..0] == none;
  }

  /** The margin sums of one axis as the implementation computes them: both
      orderings sort by the lower bound, so the two sums are equal. */
  function AxisMarginsAsWritten(es: seq<Entry>, axis: nat, maxEntries: nat, dims: nat): (r: (real, real))
    requires Splittable(|es|, maxEntries) && Fits(es, dims) && axis < dims
    ensures r.0 >= 0.0 && r.0 == r.1
  {
    var orderings := AxisOrderingsAsWritten(es, axis, dims);
    (MarginSum(Distributions(orderings.0, maxEntries, dims)),
     MarginSum(Distributions(orderings.1, maxEntries, dims)))
  }

  function AllAxisMarginsAsWritten(es: seq<Entry>, maxEntries: nat, dims: nat): (r: seq<(real, real)>)
    requires Splittable(|es|, maxEntries) && Fits(es, dims)
    ensures |r| == dims && NonNegativeSums(r)
    ensures forall k | 0 <= k < dims :: r[k] == AxisMarginsAsWritten(es, k, maxEntries, dims) && r[k].0 == r[k].1
  {
    var r := seq(dims, k requires 0 <= k < dims => AxisMarginsAsWritten(es, k, maxEntries, dims));
    forall k | 0 <= k < dims ensures r[k] == AxisMarginsAsWritten(es, k, maxEntries, dims) && r[k].0 == r[k].1 {
      assert r[k] == AxisMarginsAsWritten(es, k, maxEntries, dims);
    }
    r
  }

  /** `axis` has the least first-ordering margin sum. */
  predicate LeastFirstSum(ms: seq<(real, real)>, axis: nat) {
    axis < |ms| && forall k | 0 <= k < |ms| :: ms[axis].0 <= ms[k].0
  }

  /** When the two sums of every axis are equal, the scan as written and the
      corrected scan choose the same axis: the first sum then orders the axes
      as the total does. */
  lemma ScanMasked(margins: seq<(real, real)>)
    requires |margins| > 0 && NonNegativeSums(margins)
    requires forall k | 0 <= k < |margins| :: margins[k].0 == margins[k].1
    ensures ScanAsWritten(margins).axis == ScanCorrected(margins).axis
    ensures ScanAsWritten(margins).axis < |margins|
    ensures forall k | 0 <= k < |margins| :: margins[ScanAsWritten(margins).axis].0 <= margins[k].0
    ensures forall k | 0 <= k < |margins| :: Total(margins[ScanAsWritten(margins).axis]) <= Total(margins[k])
    ensures forall k | 0 <= k < ScanAsWritten(margins).axis :: Total(margins[ScanAsWritten(margins).axis]) < Total(margins[k])
    ensures LeastFirstSum(margins, ScanAsWritten(margins).axis) && FirstLeastTotal(margins, ScanAsWritten(margins).axis)
  {
    ScanAsWrittenPicksLeastFirstSum(margins);
    ScanCorrectedPicksLeastTotal(margins);
  }

  /** getSplitAxis as written: the scan as written over the margin sums of
      the orderings as written.  It picks the first axis of least first sum,
      and because both sums of an axis are equal, that is also the first
      axis of least total, the axis the corrected scan picks. */
  function SplitAxisAsWritten(es: seq<Entry>, maxEntries: nat, dims: nat): (axis: nat)
    requires Splittable(|es|, maxEntries) && Fits(es, dims) && dims > 0
    ensures axis < dims
    ensures var ms := AllAxisMarginsAsWritten(es, maxEntries, dims);
            && LeastFirstSum(ms, axis)
            && axis == ScanCorrected(ms).axis
            && FirstLeastTotal(ms, axis)
  {
    var ms := AllAxisMarginsAsWritten(es, maxEntries, dims);
    ScanMasked(ms);
    ScanAsWritten(ms).axis
  }

  /** `axis` is the first axis of least total margin. */
  predicate FirstLeastTotal(ms: seq<(real, real)>, axis: nat) {
    && axis < |ms|
    && (forall k | 0 <= k < |ms| :: Total(ms[axis]) <= Total(ms[k]))
    && (forall k | 0 <= k < axis :: Total(ms[axis]) < Total(ms[k]))
  }

  /** At most one axis is the first of least total. */
  lemma FirstLeastTotalUnique(ms: seq<(real, real)>, a: nat, b: nat)
    requires FirstLeastTotal(ms, a) && FirstLeastTotal(ms, b)
    ensures a == b
  {
    assert Total(ms[a]) <= Total(ms[b]) && Total(ms[b]) <= Total(ms[a]);
  }

  /** ChooseSplitAxis: the first axis whose candidates have the least total
      margin over both orderings. */
  function ChooseSplitAxis(es: seq<Entry>, maxEntries: nat, dims: nat): (axis: nat)
    requires Splittable(|es|, maxEntries) && Fits(es, dims) && dims > 0
    ensures axis < dims
    ensures var ms := AllAxisMargins(es, maxEntries, dims);
            && (forall k | 0 <= k < dims :: Total(ms[axis]) <= Total(ms[k]))
            && (forall k | 0 <= k < axis :: Total(ms[axis]) < Total(ms[k]))
    ensures FirstLeastTotal(AllAxisMargins(es, maxEntries, dims), axis)
  {
    var ms := AllAxisMargins(es, maxEntries, dims);
    ScanCorrectedPicksLeastTotal(ms);
    ScanCorrected(ms).axis
  }

  // ---------------------------------------------------------------------
  // The index choice
  // ---------------------------------------------------------------------

  /** The overlap of the two groups' boxes (0 for boxes of different
      dimension, which a covered distribution never has). */
  function GroupOverlap(d: Distribution): (r: real)
    ensures r >= 0.0
  {
    if |d.a.box| == |d.b.box| then Overlap(d.a.box, d.b.box) else 0.0
  }

  /** Least overlap first, then least margin. */
  function SplitRank(d: Distribution): Rank {
    Rank(GroupOverlap(d), Margin(d), 0.0)
  }

  /** ChooseSplitIndex: the first candidate of least overlap, ties broken by
      least margin; an empty candidate list is rejected. */
  function ChooseSplitIndex(ds: seq<Distribution>): (r: Result<nat>)
    ensures r.Ok? <==> |ds| > 0
    ensures r.Err? ==> r.error == InvalidSplit
    ensures r.Ok? ==> r.value < |ds|
    ensures r.Ok? ==> forall k | 0 <= k < |ds| ::
              GroupOverlap(ds[r.value]) < GroupOverlap(ds[k]) ||
              (GroupOverlap(ds[r.value]) == GroupOverlap(ds[k]) && Margin(ds[r.value]) <= Margin(ds[k]))
    ensures r.Ok? ==> forall k | 0 <= k < r.value ::
              GroupOverlap(ds[r.value]) < GroupOverlap(ds[k]) ||
              (GroupOverlap(ds[r.value]) == GroupOverlap(ds[k]) && Margin(ds[r.value]) < Margin(ds[k]))
  {
    if |ds| == 0 then Err(InvalidSplit)
    else Ok(FirstMin(ds, SplitRank))
  }

  /** `d` has no more overlap than `e`, and no more margin on equal overlap. */
  predicate NoWorseSplit(d: Distribution, e: Distribution) {
    GroupOverlap(d) < GroupOverlap(e) || (GroupOverlap(d) == GroupOverlap(e) && Margin(d) <= Margin(e))
  }

  /** `d` has less overlap than `e`, or less margin on equal overlap. */
  predicate BetterSplit(d: Distribution, e: Distribution) {
    GroupOverlap(d) < GroupOverlap(e) || (GroupOverlap(d) == GroupOverlap(e) && Margin(d) < Margin(e))
  }

  /** Position `i` holds the first candidate of least overlap, ties broken
      by least margin. */
  predicate FirstBestAt(cs: seq<Distribution>, i: nat) {
    && i < |cs|
    && (forall k | 0 <= k < |cs| :: NoWorseSplit(cs[i], cs[k]))
    && (forall k | 0 <= k < i :: BetterSplit(cs[i], cs[k]))
  }

  /** At most one position holds the first best candidate. */
  lemma FirstBestUnique(cs: seq<Distribution>, i: nat, j: nat)
    requires FirstBestAt(cs, i) && FirstBestAt(cs, j)
    ensures i == j
  {
    NotBothBetter(cs[i], cs[j]);
    NotBothBetter(cs[j], cs[i]);
  }

  lemma NotBothBetter(d: Distribution, e: Distribution)
    ensures !(BetterSplit(d, e) && NoWorseSplit(e, d))
  {
  }

  /** ChooseSplitIndex picks the first best candidate. */
  lemma ChooseSplitIndexIsFirstBest(cs: seq<Distribution>)
    requires |cs| > 0
    ensures ChooseSplitIndex(cs).Ok? && FirstBestAt(cs, ChooseSplitIndex(cs).value)
  {
  }

  /** `d` is the first best candidate of the axis. */
  predicate BestOnAxis(es: seq<Entry>, axis: nat, maxEntries: nat, dims: nat, d: Distribution)
    requires Splittable(|es|, maxEntries) && Fits(es, dims) && axis < dims
  {
    var cs := AxisCandidates(es, axis, maxEntries, dims);
    exists i | 0 <= i < |cs| && FirstBestAt(cs, i) :: cs[i] == d
  }

  /** The candidate ChooseSplitIndex picks among those of one axis: the first
      of least overlap, ties by least margin. */
  function SplitOnAxis(es: seq<Entry>, axis: nat, maxEntries: nat, dims: nat): (d: Distribution)
    requires Splittable(|es|, maxEntries) && Fits(es, dims) && axis < dims
    ensures SplitsInto(d, es, maxEntries, dims)
    ensures |es| > maxEntries ==> |d.b.entries| >= MinEntries(maxEntries)
    ensures BestOnAxis(es, axis, maxEntries, dims, d)
  {
    var cs := AxisCandidates(es, axis, maxEntries, dims);
    ChooseSplitIndexIsFirstBest(cs);
    var k := ChooseSplitIndex(cs).value;
    cs[k]
  }

  /** The distribution the split should take: the first best candidate of
      the first axis of least total margin. */
  predicate IsChosenSplit(es: seq<Entry>, maxEntries: nat, dims: nat, d: Distribution)
    requires dims > 0 && Splittable(|es|, maxEntries) && Fits(es, dims)
  {
    exists axis | 0 <= axis < dims && FirstLeastTotal(AllAxisMargins(es, maxEntries, dims), axis) ::
      BestOnAxis(es, axis, maxEntries, dims, d)
  }

  /** One axis has one first best candidate. */
  lemma BestOnAxisUnique(es: seq<Entry>, axis: nat, maxEntries: nat, dims: nat, d: Distribution, e: Distribution)
    requires Splittable(|es|, maxEntries) && Fits(es, dims) && axis < dims
    requires BestOnAxis(es, axis, maxEntries, dims, d) && BestOnAxis(es, axis, maxEntries, dims, e)
    ensures d == e
  {
    var cs := AxisCandidates(es, axis, maxEntries, dims);
    var i :| 0 <= i < |cs| && FirstBestAt(cs, i) && cs[i] == d;
    var j :| 0 <= j < |cs| && FirstBestAt(cs, j) && cs[j] == e;
    FirstBestUnique(cs, i, j);
  }

  /** The distribution the split takes: the candidate ChooseSplitIndex picks
      among those of the axis ChooseSplitAxis picks. */
  function ChooseSplit(es: seq<Entry>, maxEntries: nat, dims: nat): (d: Distribution)
    requires dims > 0 && Splittable(|es|, maxEntries) && Fits(es, dims)
    ensures SplitsInto(d, es, maxEntries, dims)
    ensures |es| > maxEntries ==> |d.b.entries| >= MinEntries(maxEntries)
    ensures IsChosenSplit(es, maxEntries, dims, d)
  {
    ChooseSplitIsChosen(es, maxEntries, dims);
    SplitOnAxis(es, ChooseSplitAxis(es, maxEntries, dims), maxEntries, dims)
  }

  /** The chosen split is determined by the entries: every distribution
      that meets `IsChosenSplit` is the one `ChooseSplit` returns. */
  lemma ChosenSplitIsChooseSplit(es: seq<Entry>, maxEntries: nat, dims: nat, d: Distribution)
    requires dims > 0 && Splittable(|es|, maxEntries) && Fits(es, dims)
    requires IsChosenSplit(es, maxEntries, dims, d)
    ensures d == ChooseSplit(es, maxEntries, dims)
  {
    var ms := AllAxisMargins(es, maxEntries, dims);
    var a :| 0 <= a < dims && FirstLeastTotal(ms, a) && BestOnAxis(es, a, maxEntries, dims, d);
    var axis := ChooseSplitAxis(es, maxEntries, dims);
    FirstLeastTotalUnique(ms, a, axis);
    BestOnAxisUnique(es, axis, maxEntries, dims, d, SplitOnAxis(es, axis, maxEntries, dims));
  }

  lemma ChooseSplitIsChosen(es: seq<Entry>, maxEntries: nat, dims: nat)
    requires dims > 0 && Splittable(|es|, maxEntries) && Fits(es, dims)
    ensures IsChosenSplit(es, maxEntries, dims, SplitOnAxis(es, ChooseSplitAxis(es, maxEntries, dims), maxEntries, dims))
  {
    var axis := ChooseSplitAxis(es, maxEntries, dims);
    ChosenFromParts(es, maxEntries, dims, axis, SplitOnAxis(es, axis, maxEntries, dims));
  }

  lemma ChosenFromParts(es: seq<Entry>, maxEntries: nat, dims: nat, axis: nat, d: Distribution)
    requires dims > 0 && Splittable(|es|, maxEntries) && Fits(es, dims) && axis < dims
    requires FirstLeastTotal(AllAxisMargins(es, maxEntries, dims), axis)
    requires BestOnAxis(es, axis, maxEntries, dims, d)
    ensures IsChosenSplit(es, maxEntries, dims, d)
  {
  }

  /** A capacity below 3 gives a minimum of 0 entries per group, so every
      split is rejected. */
  lemma SmallCapacityNeverSplits(n: Node, maxEntries: nat, dims: nat)
    requires Fits(n.entries, dims) && maxEntries <= 2
    ensures SplitNode(n, maxEntries, dims) == Err(InvalidSplit)
  {
    assert MinEntries(maxEntries) == 0;
  }

  /** Node.split: the chosen distribution as two nodes at the input's level
      (their block ids are assigned by the caller).  The split fails when
      there is no dimension or when a candidate would have an empty group. */
  function SplitNode(n: Node, maxEntries: nat, dims: nat): (r: Result<(Node, Node)>)
    requires Fits(n.entries, dims)
    ensures r.Ok? <==> dims > 0 && Splittable(|n.entries|, maxEntries)
    ensures r.Err? ==> r.error == InvalidSplit
    ensures r.Ok? ==>
              && r.value.0.level == n.level && r.value.1.level == n.level
              && multiset(r.value.0.entries) + multiset(r.value.1.entries) == multiset(n.entries)
              && |r.value.0.entries| >= MinEntries(maxEntries) && |r.value.1.entries| > 0
              && Fits(r.value.0.entries, dims) && Fits(r.value.1.entries, dims)
              && (|n.entries| > maxEntries ==> |r.value.1.entries| >= MinEntries(maxEntries))
    ensures r.Ok? ==>
              exists d | IsChosenSplit(n.entries, maxEntries, dims, d) ::
                r.value.0.entries == d.a.entries && r.value.1.entries == d.b.entries
  {
    if dims == 0 || !Splittable(|n.entries|, maxEntries) then Err(InvalidSplit)
    else Ok(SplitHalves(n, maxEntries, dims))
  }

  /** The two groups of the chosen split as nodes at the input's level. */
  function SplitHalves(n: Node, maxEntries: nat, dims: nat): (r: (Node, Node))
    requires dims > 0 && Splittable(|n.entries|, maxEntries) && Fits(n.entries, dims)
    ensures r.0.level == n.level && r.1.level == n.level
    ensures multiset(r.0.entries) + multiset(r.1.entries) == multiset(n.entries)
    ensures |r.0.entries| >= MinEntries(maxEntries) && |r.1.entries| > 0
    ensures Fits(r.0.entries, dims) && Fits(r.1.entries, dims)
    ensures |n.entries| > maxEntries ==> |r.1.entries| >= MinEntries(maxEntries)
    ensures exists d | IsChosenSplit(n.entries, maxEntries, dims, d) ::
              r.0.entries == d.a.entries && r.1.entries == d.b.entries
  {
    var d := ChooseSplit(n.entries, maxEntries, dims);
    (Node(n.level, 0, d.a.entries), Node(n.level, 0, d.b.entries))
  }
}
