/** The insertion algorithm of the index (RStarTree): recursive descent with
    ChooseSubtree, overflow treatment by forced reinsertion or split, and the
    creation of a new root, as in sections 4.1 to 4.3 of the R*-tree paper by
    Beckmann, Kriegel, Schneider and Seeger (SIGMOD 1990).

    The index file is a block store `map<nat, Node>` with a counter of blocks
    in use; writing a node stores it under its own block id.  The recursion is
    bounded by a fuel parameter. */
module Tree {
  import opened Wrappers
  import opened Geometry
  import opened Ordering
  import opened Entries
  import opened Comparators
  import opened Split

  /** The root always lives in block 1 (block 0 holds the metadata). */
  const RootBlock: nat := 1

  /** Leaves are at level 1; the root has the highest level. */
  const LeafLevel: nat := 1

  /** The number of candidates ChooseSubtree examines for large nodes. */
  const SubtreeCandidates: nat := 32

  /** REINSERT_P_ENTRIES: 30 per cent of the node capacity, rounded down. */
  function ReinsertCount(maxEntries: nat): (p: nat)
    ensures 10 * p <= 3 * maxEntries < 10 * p + 10
    ensures p < maxEntries + 1
  {
    (3 * maxEntries) / 10
  }

  /** The node capacity M and the number of dimensions of the data. */
  datatype Config = Config(maxEntries: nat, dims: nat)

  /** The index: the block store, the number of blocks in use (the next block
      id to hand out), the height, the levels whose forced reinsertion has
      already happened during the current top-level insertion, in order, and
      the number of levels the flag array of that insertion covers (the
      height when it started). */
  datatype Tree = Tree(store: map<nat, Node>, nextBlock: nat, levels: nat, reinserted: seq<nat>, flagLevels: nat)

  predicate Distinct(xs: seq<nat>) {
    forall i, j | 0 <= i < j < |xs| :: xs[i] != xs[j]
  }

  /** What every step of an insertion keeps: blocks are only added, the block
      counter and the height only grow, and reinsertion flags are only set,
      never cleared or set twice. */
  predicate Evolves(t: Tree, u: Tree) {
    && t.nextBlock <= u.nextBlock
    && t.levels <= u.levels
    && t.store.Keys <= u.store.Keys
    && |t.reinserted| <= |u.reinserted|
    && u.reinserted[..|t.reinserted|] == t.reinserted
    && (Distinct(t.reinserted) ==> Distinct(u.reinserted))
  }

  lemma EvolvesTransitive(t: Tree, u: Tree, w: Tree)
    requires Evolves(t, u) && Evolves(u, w)
    ensures Evolves(t, w)
  {
    assert w.reinserted[..|t.reinserted|] == w.reinserted[..|u.reinserted|][..|t.reinserted|];
  }

  // ---------------------------------------------------------------------
  // The block store
  // ---------------------------------------------------------------------

  /** readIndexFileBlock: a missing block is an error.  The second error, a
      node whose boxes do not have the index's dimension, is a guard of this
      model: the blocks of a well-formed store always fit, and the guard lets
      the geometry below rely on it. */
  function Read(cfg: Config, t: Tree, id: nat): (r: Result<Node>)
    ensures r.Ok? <==> id in t.store && Fits(t.store[id].entries, cfg.dims)
    ensures r.Ok? ==> r.value == t.store[id]
    ensures r.Err? ==> r.error == if id in t.store then CorruptNode else NodeMissing
  {
    if id !in t.store then Err(NodeMissing)
    else if !Fits(t.store[id].entries, cfg.dims) then Err(CorruptNode)
    else Ok(t.store[id])
  }

  /** updateIndexFileBlock: store the node under its block id. */
  function Write(t: Tree, n: Node): (u: Tree)
    ensures Evolves(t, u) && u.nextBlock == t.nextBlock && u.levels == t.levels
    ensures u.reinserted == t.reinserted
    ensures n.blockId in u.store && u.store[n.blockId] == n
    ensures forall id | id in t.store && id != n.blockId :: id in u.store && u.store[id] == t.store[id]
  {
    t.(store := t.store[n.blockId := n])
  }

  /** writeIndexFileBlock: store the node in the next free block. */
  function Append(t: Tree, n: Node): (u: Tree)
    requires n.blockId == t.nextBlock
    ensures Evolves(t, u) && u.nextBlock == t.nextBlock + 1 && u.levels == t.levels
    ensures u.reinserted == t.reinserted
    ensures n.blockId in u.store && u.store[n.blockId] == n
    ensures forall id | id in t.store && id != n.blockId :: id in u.store && u.store[id] == t.store[id]
  {
    t.(store := t.store[n.blockId := n], nextBlock := t.nextBlock + 1)
  }

  // ---------------------------------------------------------------------
  // Parents
  // ---------------------------------------------------------------------

  /** The node the caller read and the position of the entry pointing down. */
  datatype Parent = Parent(node: Node, slot: nat)

  predicate ParentFits(parent: Option<Parent>, dims: nat) {
    parent.Some? ==>
      parent.value.slot < |parent.value.node.entries| &&
      |parent.value.node.entries[parent.value.slot].box| == dims
  }

  function ParentEntry(p: Parent): Entry
    requires p.slot < |p.node.entries|
  {
    p.node.entries[p.slot]
  }

  /** The parent with its entry replaced; every other entry is kept. */
  function WithParentEntry(p: Parent, e: Entry): (q: Parent)
    requires p.slot < |p.node.entries|
    ensures q.slot == p.slot && q.node.level == p.node.level && q.node.blockId == p.node.blockId
    ensures |q.node.entries| == |p.node.entries| && ParentEntry(q) == e
    ensures forall k | 0 <= k < |p.node.entries| && k != p.slot :: q.node.entries[k] == p.node.entries[k]
  {
    Parent(p.node.(entries := p.node.entries[p.slot := e]), p.slot)
  }

  /** Where an insertion step reads its node from. */
  datatype Descent = Descent(tree: Tree, parent: Option<Parent>, target: nat)

  /** The start of an insertion step: from the top the root is read;
      otherwise the parent entry is first refit to cover the new entry, the
      parent node is written, and the entry's child is read. */
  function Descend(t: Tree, parent: Option<Parent>, data: Entry): (r: Result<Descent>)
    requires ParentFits(parent, |data.box|)
    ensures parent.None? ==> r == Ok(Descent(t, None, RootBlock))
    ensures parent.Some? ==> (r.Ok? <==> ParentEntry(parent.value).child.Some?)
    ensures r.Err? ==> r.error == MissingChild
    ensures r.Ok? ==> ParentFits(r.value.parent, |data.box|) && Evolves(t, r.value.tree)
    ensures r.Ok? && parent.Some? ==>
              var p := parent.value;
              && r.value.parent.Some?
              && var q := r.value.parent.value;
              && q == WithParentEntry(p, ParentEntry(q))
              && Encloses(ParentEntry(q).box, ParentEntry(p).box)
              && Encloses(ParentEntry(q).box, data.box)
              && SameReference(ParentEntry(q), ParentEntry(p))
              && Some(r.value.target) == ParentEntry(p).child
              && r.value.tree == Write(t, q.node)
  {
    match parent
    case None => Ok(Descent(t, None, RootBlock))
    case Some(p) =>
      var e := RefitToEntry(ParentEntry(p), data);
      if e.child.None? then Err(MissingChild)
      else
        var q := WithParentEntry(p, e);
        Ok(Descent(Write(t, q.node), Some(q), e.child.value))
  }

  // ---------------------------------------------------------------------
  // ChooseSubtree
  // ---------------------------------------------------------------------

  function Indices(n: nat): (r: seq<nat>)
    ensures |r| == n
    ensures forall i | 0 <= i < n :: r[i] == i
  {
    seq(n, i requires 0 <= i < n => i)
  }

  /** The enlargement key of the entry at position `i` of a node. */
  function EnlargementKey(es: seq<Entry>, box: Box, i: nat): Rank {
    if i < |es| && |es[i].box| == |box| then EnlargementRank(box)(es[i]) else NoRank
  }

  function EnlargementOrder(es: seq<Entry>, box: Box): nat -> Rank {
    (i: nat) => EnlargementKey(es, box, i)
  }

  /** Large nodes restrict the overlap test to a few candidates. */
  predicate Restricted(maxEntries: nat, size: nat) {
    maxEntries > (SubtreeCandidates * 2) / 3 && size > SubtreeCandidates
  }

  /** Every position of a node, sorted stably by enlargement and then
      volume. */
  function ByEnlargement(es: seq<Entry>, box: Box): (r: seq<nat>)
    ensures |r| == |es|
    ensures forall k | 0 <= k < |r| :: r[k] < |es|
    ensures forall k | 0 <= k < |es| :: k in r
    ensures SortedBy(r, EnlargementOrder(es, box)) && StableBy(r, EnlargementOrder(es, box))
  {
    var all := Indices(|es|);
    var sorted := SortBy<nat>(all, EnlargementOrder(es, box));
    SortByStable(all, EnlargementOrder(es, box));
    forall k | 0 <= k < |sorted| ensures sorted[k] < |es| {
      assert sorted[k] in multiset(all);
    }
    forall k | 0 <= k < |es| ensures k in sorted {
      assert all[k] == k;
      assert k in multiset(sorted);
    }
    sorted
  }

  /** The positions of the 32 entries of least enlargement (ties by smaller
      volume), in that order: the first 32 after a stable sort of the
      entry/enlargement pairs, so that among tied entries the earlier ones
      make the cut. */
  function CandidatesOf(es: seq<Entry>, box: Box): (r: seq<nat>)
    requires |es| > SubtreeCandidates
    ensures |r| == SubtreeCandidates
    ensures forall k | 0 <= k < |r| :: r[k] < |es|
    ensures forall i, j | 0 <= i < j < |r| :: r[i] != r[j]
    ensures SortedBy(r, EnlargementOrder(es, box)) && StableBy(r, EnlargementOrder(es, box))
    ensures forall c, k | c in r && 0 <= k < |es| && k !in r ::
              NotAfter(EnlargementKey(es, box, c), EnlargementKey(es, box, k))
    ensures forall c, k | c in r && 0 <= k < |es| && k !in r &&
                          EnlargementKey(es, box, c) == EnlargementKey(es, box, k) :: c < k
  {
    var sorted := ByEnlargement(es, box);
    StableCut(sorted, EnlargementOrder(es, box), SubtreeCandidates);
    var r := sorted[..SubtreeCandidates];
    assert sorted == r + sorted[SubtreeCandidates..];
    var key := EnlargementOrder(es, box);
    forall c, k | c in r && 0 <= k < |es| && k !in r
      ensures NotAfter(EnlargementKey(es, box, c), EnlargementKey(es, box, k))
      ensures EnlargementKey(es, box, c) == EnlargementKey(es, box, k) ==> c < k
    {
      assert k in sorted;
      assert k in sorted[SubtreeCandidates..];
      assert key(c) == EnlargementKey(es, box, c) && key(k) == EnlargementKey(es, box, k);
    }
    r
  }

  /** Above the leaf-adjacent level: the first entry of least enlargement,
      ties by smaller volume, found by the minimum over entry/enlargement
      pairs. */
  function LeastEnlargement(es: seq<Entry>, box: Box): (i: nat)
    requires |es| > 0 && Fits(es, |box|)
    ensures i < |es|
    ensures forall k | 0 <= k < |es| :: NotAfter(EnlargementKey(es, box, i), EnlargementKey(es, box, k))
    ensures forall k | 0 <= k < i :: Precedes(EnlargementKey(es, box, i), EnlargementKey(es, box, k))
  {
    var pairs := seq(|es|, k requires 0 <= k < |es| => MakePair(es[k], box));
    assert forall k | 0 <= k < |es| :: PairRank(pairs[k]) == EnlargementKey(es, box, k);
    FirstMin(pairs, PairRank)
  }

  /** The first candidate (in candidate order) of least overlap increase,
      ties by enlargement and then volume. */
  function LeastOverlapIncrease(es: seq<Entry>, box: Box, cands: seq<nat>): (i: nat)
    requires |cands| > 0 && forall k | 0 <= k < |cands| :: cands[k] < |es|
    ensures i in cands
    ensures forall k | 0 <= k < |cands| :: NotAfter(OverlapKey(es, box, i), OverlapKey(es, box, cands[k]))
    ensures exists j | 0 <= j < |cands| && cands[j] == i ::
              forall k | 0 <= k < j :: Precedes(OverlapKey(es, box, i), OverlapKey(es, box, cands[k]))
  {
    var j := FirstMin(cands, OverlapRank(es, box));
    cands[j]
  }

  /** The first entry of least overlap increase over the whole node. */
  function LeastOverlapIncreaseOfAll(es: seq<Entry>, box: Box): (i: nat)
    requires |es| > 0
    ensures i < |es|
    ensures forall k | 0 <= k < |es| :: NotAfter(OverlapKey(es, box, i), OverlapKey(es, box, k))
    ensures forall k | 0 <= k < i :: Precedes(OverlapKey(es, box, i), OverlapKey(es, box, k))
  {
    var all := Indices(|es|);
    var key := OverlapRank(es, box);
    var j := FirstMin(all, key);
    assert all[j] == j;
    forall k | 0 <= k < |es|
      ensures NotAfter(OverlapKey(es, box, j), OverlapKey(es, box, k))
      ensures k < j ==> Precedes(OverlapKey(es, box, j), OverlapKey(es, box, k))
    {
      assert all[k] == k && key(all[k]) == OverlapKey(es, box, k);
    }
    j
  }

  /** chooseSubTree: the position of the entry to descend into.  Just above
      the target level the entry of least overlap increase is chosen (among
      the 32 of least enlargement in a large node); higher up the entry of
      least enlargement. */
  function ChooseSubtree(cfg: Config, node: Node, box: Box, level: nat): (r: Result<nat>)
    requires Fits(node.entries, |box|)
    ensures r.Ok? <==> |node.entries| > 0
    ensures r.Err? ==> r.error == EmptyNode
    ensures r.Ok? ==> r.value < |node.entries|
    ensures r.Ok? && node.level != level + 1 ==>
              forall k | 0 <= k < |node.entries| ::
                NotAfter(EnlargementKey(node.entries, box, r.value), EnlargementKey(node.entries, box, k))
    ensures r.Ok? && node.level != level + 1 ==>
              forall k | 0 <= k < r.value ::
                Precedes(EnlargementKey(node.entries, box, r.value), EnlargementKey(node.entries, box, k))
    ensures r.Ok? && node.level == level + 1 && !Restricted(cfg.maxEntries, |node.entries|) ==>
              && (forall k | 0 <= k < |node.entries| ::
                    NotAfter(OverlapKey(node.entries, box, r.value), OverlapKey(node.entries, box, k)))
              && (forall k | 0 <= k < r.value ::
                    Precedes(OverlapKey(node.entries, box, r.value), OverlapKey(node.entries, box, k)))
    ensures r.Ok? && node.level == level + 1 && Restricted(cfg.maxEntries, |node.entries|) ==>
              var cands := CandidatesOf(node.entries, box);
              && r.value in cands
              && (forall k | 0 <= k < SubtreeCandidates ::
                    NotAfter(OverlapKey(node.entries, box, r.value), OverlapKey(node.entries, box, cands[k])))
              && (exists j | 0 <= j < SubtreeCandidates && cands[j] == r.value ::
                    forall k | 0 <= k < j :: Precedes(OverlapKey(node.entries, box, r.value), OverlapKey(node.entries, box, cands[k])))
  {
    var es := node.entries;
    if |es| == 0 then Err(EmptyNode)
    else if node.level != level + 1 then Ok(LeastEnlargement(es, box))
    else if Restricted(cfg.maxEntries, |es|) then Ok(LeastOverlapIncrease(es, box, CandidatesOf(es, box)))
    else Ok(LeastOverlapIncreaseOfAll(es, box))
  }

  // ---------------------------------------------------------------------
  // Splits and reinsertion plans
  // ---------------------------------------------------------------------

  /** The result of one insertion step: the tree, and the entry for a new
      sibling the caller has to add, if the step split a non-root node. */
  datatype Outcome = Outcome(tree: Tree, sibling: Option<Entry>)

  /** A non-root split: the node keeps group `a` in its block, group `b`
      goes to a new block, the parent entry is refit to group `a`, and an
      entry for the new node is handed up. */
  function SplitNonRoot(t: Tree, p: Parent, child: Node, a: seq<Entry>, b: seq<Entry>, dims: nat): (o: Outcome)
    requires |a| > 0 && |b| > 0 && Fits(a, dims) && Fits(b, dims)
    requires p.slot < |p.node.entries|
    ensures Evolves(t, o.tree) && o.tree.nextBlock == t.nextBlock + 1
    ensures o.tree.levels == t.levels && o.tree.reinserted == t.reinserted
    ensures o.sibling.Some? && o.sibling.value.child == Some(t.nextBlock) && |o.sibling.value.box| == dims
    ensures forall k | 0 <= k < |b| :: Encloses(o.sibling.value.box, b[k].box)
    ensures p.node.blockId != t.nextBlock ==>
              t.nextBlock in o.tree.store && o.tree.store[t.nextBlock] == Node(child.level, t.nextBlock, b)
    ensures child.blockId != p.node.blockId && child.blockId != t.nextBlock ==>
              child.blockId in o.tree.store && o.tree.store[child.blockId] == child.(entries := a)
    ensures p.node.blockId in o.tree.store
    ensures var n := o.tree.store[p.node.blockId];
            && n.level == p.node.level && |n.entries| == |p.node.entries|
            && (forall k | 0 <= k < |n.entries| && k != p.slot :: n.entries[k] == p.node.entries[k])
            && SameReference(n.entries[p.slot], ParentEntry(p))
            && (forall k | 0 <= k < |a| :: Encloses(n.entries[p.slot].box, a[k].box))
            && Tight(n.entries[p.slot].box, Boxes(a))
  {
    var kept := child.(entries := a);
    var t1 := Write(t, kept);
    var sibling := Node(child.level, t1.nextBlock, b);
    var t2 := Append(t1, sibling);
    var q := WithParentEntry(p, RefitToEntries(ParentEntry(p), a));
    Outcome(Write(t2, q.node), Some(FromNode(sibling)))
  }

  /** A root split: both groups go to new blocks and a new root one level
      higher, holding exactly the two entries for them, is written to the
      root block. */
  function SplitRoot(t: Tree, root: Node, a: seq<Entry>, b: seq<Entry>, dims: nat): (u: Tree)
    requires |a| > 0 && |b| > 0 && Fits(a, dims) && Fits(b, dims)
    ensures Evolves(t, u) && u.nextBlock == t.nextBlock + 2
    ensures u.levels == t.levels + 1 && u.reinserted == t.reinserted
    ensures RootBlock in u.store
    ensures var r := u.store[RootBlock];
            && r.level == t.levels + 1 && r.blockId == RootBlock && |r.entries| == 2
            && r.entries[0].child == Some(t.nextBlock) && r.entries[1].child == Some(t.nextBlock + 1)
            && (forall k | 0 <= k < |a| :: Encloses(r.entries[0].box, a[k].box))
            && (forall k | 0 <= k < |b| :: Encloses(r.entries[1].box, b[k].box))
            && Fits(r.entries, dims)
    ensures t.nextBlock > RootBlock ==>
              && t.nextBlock in u.store && t.nextBlock + 1 in u.store
              && u.store[t.nextBlock] == Node(root.level, t.nextBlock, a)
              && u.store[t.nextBlock + 1] == Node(root.level, t.nextBlock + 1, b)
  {
    var left := Node(root.level, t.nextBlock, a);
    var t1 := Append(t, left);
    var right := Node(root.level, t1.nextBlock, b);
    var t2 := Append(t1, right);
    var newRoot := Node(t.levels + 1, RootBlock, [FromNode(left), FromNode(right)]);
    Write(t2.(levels := t.levels + 1), newRoot)
  }

  /** The close-reinsert plan: the entries sorted by the distance of their
      centers from the center of `box`; the last `p` are removed. */
  datatype Plan = Plan(kept: seq<Entry>, removed: seq<Entry>)

  /** The entries, nearest center first. */
  predicate ByDistance(s: seq<Entry>, box: Box) {
    && Fits(s, |box|)
    && forall i, j | 0 <= i < j < |s| :: CenterDistanceSq(s[i].box, box) <= CenterDistanceSq(s[j].box, box)
  }

  /** No entry of `near` has its center farther from the center of `box`
      than any entry of `far`. */
  predicate NearerThan(near: seq<Entry>, far: seq<Entry>, box: Box) {
    && Fits(near, |box|) && Fits(far, |box|)
    && forall i, j | 0 <= i < |near| && 0 <= j < |far| ::
         CenterDistanceSq(near[i].box, box) <= CenterDistanceSq(far[j].box, box)
  }

  /** The entries sorted by CompareOnDistanceFromCenter: a permutation,
      nearest center first. */
  function SortByCenter(es: seq<Entry>, box: Box): (r: seq<Entry>)
    requires Fits(es, |box|)
    ensures |r| == |es| && multiset(r) == multiset(es)
    ensures ByDistance(r, box)
  {
    var sorted := SortBy(es, CenterRank(box));
    PermutationFits(es, sorted, |box|);
    forall i, j | 0 <= i < j < |sorted|
      ensures CenterDistanceSq(sorted[i].box, box) <= CenterDistanceSq(sorted[j].box, box)
    {
      assert NotAfter(CenterRank(box)(sorted[i]), CenterRank(box)(sorted[j]));
    }
    sorted
  }

  /** Cutting a list ordered by distance: no kept entry is farther than a
      removed one, and the removed ones stay in order. */
  lemma SplitByDistance(s: seq<Entry>, n: nat, box: Box)
    requires n <= |s| && ByDistance(s, box)
    ensures multiset(s[..n]) + multiset(s[n..]) == multiset(s)
    ensures NearerThan(s[..n], s[n..], box)
    ensures ByDistance(s[n..], box)
  {
    assert s == s[..n] + s[n..];
    assert forall i | 0 <= i < |s[..n]| :: s[..n][i] == s[i];
    assert forall j | 0 <= j < |s[n..]| :: s[n..][j] == s[n + j];
    forall i, j | 0 <= i < |s[..n]| && 0 <= j < |s[n..]|
      ensures CenterDistanceSq(s[..n][i].box, box) <= CenterDistanceSq(s[n..][j].box, box)
    {
      assert s[..n][i] == s[i] && s[n..][j] == s[n + j];
    }
    forall i, j | 0 <= i < j < |s[n..]|
      ensures CenterDistanceSq(s[n..][i].box, box) <= CenterDistanceSq(s[n..][j].box, box)
    {
      assert s[n..][i] == s[n + i] && s[n..][j] == s[n + j];
    }
  }

  function ReinsertPlan(es: seq<Entry>, box: Box, p: nat): (r: Plan)
    requires p < |es| && Fits(es, |box|)
    ensures |r.removed| == p && |r.kept| == |es| - p
    ensures multiset(r.kept) + multiset(r.removed) == multiset(es)
    ensures NearerThan(r.kept, r.removed, box)
    ensures ByDistance(r.removed, box)
  {
    var sorted := SortByCenter(es, box);
    SplitByDistance(sorted, |es| - p, box);
    var n := |es| - p;
    Plan(sorted[..n], sorted[n..])
  }

  // ---------------------------------------------------------------------
  // Insertion
  // ---------------------------------------------------------------------

  /** insert: add `data` to a node at `level` below the parent (from the root
      when there is no parent).  A sibling entry in the outcome is the one the
      caller must add after a split of the node below it. */
  function Insert(cfg: Config, t: Tree, parent: Option<Parent>, data: Entry, level: nat, fuel: nat): (r: Result<Outcome>)
    requires |data.box| == cfg.dims && ParentFits(parent, cfg.dims)
    ensures r.Ok? ==> Evolves(t, r.value.tree)
    ensures r.Ok? && r.value.sibling.Some? ==> parent.Some? && |r.value.sibling.value.box| == cfg.dims
    decreases fuel, 5
  {
    if fuel == 0 then Err(OutOfFuel)
    else
      var d :- Descend(t, parent, data);
      var node :- Read(cfg, d.tree, d.target);
      if node.level == level then
        var grown := AddEntry(node, data);
        var r := CheckOverflow(cfg, Write(d.tree, grown), d.parent, grown, fuel);
        assert r.Ok? ==> Evolves(t, r.value.tree) by {
          if r.Ok? {
            EvolvesTransitive(t, d.tree, Write(d.tree, grown));
            EvolvesTransitive(t, Write(d.tree, grown), r.value.tree);
          }
        }
        r
      else
        var slot :- ChooseSubtree(cfg, node, data.box, level);
        var below :- Insert(cfg, d.tree, Some(Parent(node, slot)), data, level, fuel - 1);
        EvolvesTransitive(t, d.tree, below.tree);
        var r := Absorb(cfg, below, d.parent, d.target, fuel);
        assert r.Ok? ==> Evolves(t, r.value.tree) by {
          if r.Ok? {
            EvolvesTransitive(t, below.tree, r.value.tree);
          }
        }
        r
  }

  /** After the insertion below a node returns: the node is read again and,
      if the step below split its child, the entry for the new sibling is
      added to it, which may overflow it in turn. */
  function Absorb(cfg: Config, below: Outcome, parent: Option<Parent>, id: nat, fuel: nat): (r: Result<Outcome>)
    requires ParentFits(parent, cfg.dims)
    requires below.sibling.Some? ==> |below.sibling.value.box| == cfg.dims
    ensures r.Ok? ==> Evolves(below.tree, r.value.tree)
    ensures r.Ok? && r.value.sibling.Some? ==> parent.Some? && |r.value.sibling.value.box| == cfg.dims
    ensures below.sibling.None? ==> r.Ok? == (id in below.tree.store && Fits(below.tree.store[id].entries, cfg.dims))
    ensures below.sibling.None? && r.Ok? ==> r.value == Outcome(below.tree, None)
    decreases fuel, 4
  {
    var current :- Read(cfg, below.tree, id);
    match below.sibling
    case None => Ok(Outcome(below.tree, None))
    case Some(s) =>
      var grown := AddEntry(current, s);
      assert Fits(grown.entries, cfg.dims) by {
        assert forall k | 0 <= k < |current.entries| :: grown.entries[k] == current.entries[k];
      }
      var u := Write(below.tree, grown);
      var r := CheckOverflow(cfg, u, parent, grown, fuel);
      assert r.Ok? ==> Evolves(below.tree, r.value.tree) by {
        if r.Ok? {
          EvolvesTransitive(below.tree, u, r.value.tree);
        }
      }
      r
  }

  /** An overflow (more than M entries) is treated; otherwise nothing is
      handed up. */
  function CheckOverflow(cfg: Config, t: Tree, parent: Option<Parent>, node: Node, fuel: nat): (r: Result<Outcome>)
    requires Fits(node.entries, cfg.dims) && ParentFits(parent, cfg.dims)
    ensures r.Ok? ==> Evolves(t, r.value.tree)
    ensures |node.entries| <= cfg.maxEntries ==> r == Ok(Outcome(t, None))
    ensures r.Ok? && r.value.sibling.Some? ==> parent.Some? && |r.value.sibling.value.box| == cfg.dims
    decreases fuel, 3
  {
    if |node.entries| > cfg.maxEntries then Overflow(cfg, t, parent, node, fuel)
    else Ok(Outcome(t, None))
  }

  /** The split branch of overflowHandler: a non-root node keeps its first
      group and hands up an entry for a new sibling holding the second; the
      root is replaced by a new root one level higher. */
  function SplitOverflow(cfg: Config, t: Tree, parent: Option<Parent>, node: Node): (r: Result<Outcome>)
    requires Fits(node.entries, cfg.dims) && ParentFits(parent, cfg.dims)
    ensures r.Ok? ==> Evolves(t, r.value.tree) && r.value.tree.reinserted == t.reinserted
    ensures r.Ok? <==> (cfg.dims > 0 && Splittable(|node.entries|, cfg.maxEntries)
                         && (node.blockId == RootBlock || parent.Some?))
    ensures r.Ok? && node.blockId == RootBlock ==>
              r.value.sibling.None? && r.value.tree.levels == t.levels + 1 && r.value.tree.nextBlock == t.nextBlock + 2
    ensures r.Ok? && node.blockId != RootBlock ==>
              && r.value.sibling.Some? && |r.value.sibling.value.box| == cfg.dims
              && r.value.tree.nextBlock == t.nextBlock + 1 && r.value.tree.levels == t.levels
  {
    var halves :- SplitNode(node, cfg.maxEntries, cfg.dims);
    if node.blockId != RootBlock then
      if parent.None? then Err(MissingParent)
      else Ok(SplitNonRoot(t, parent.value, node, halves.0.entries, halves.1.entries, cfg.dims))
    else
      Ok(Outcome(SplitRoot(t, node, halves.0.entries, halves.1.entries, cfg.dims), None))
  }

  /** Set the reinsertion flag of a level that does not have it yet. */
  function Flag(t: Tree, level: nat): (u: Tree)
    requires level !in t.reinserted
    ensures Evolves(t, u) && u.store == t.store && u.nextBlock == t.nextBlock && u.levels == t.levels
    ensures |u.reinserted| == |t.reinserted| + 1 && u.reinserted[|t.reinserted|] == level
  {
    var u := t.(reinserted := t.reinserted + [level]);
    assert u.reinserted[..|t.reinserted|] == t.reinserted;
    u
  }

  /** The flag of a non-root node's level lies outside the flag array: the
      level is 0, or above the height the current top-level insertion
      started with (the root has split since). */
  predicate FlagOutOfRange(t: Tree, node: Node) {
    node.blockId != RootBlock && (node.level == 0 || node.level > t.flagLevels)
  }

  /** The first overflow of a non-root level during one top-level insertion
      is treated by forced reinsertion. */
  predicate ReinsertsFirst(t: Tree, node: Node) {
    node.blockId != RootBlock && 1 <= node.level <= t.flagLevels && node.level !in t.reinserted
  }

  /** overflowHandler: the first overflow of a non-root level during one
      top-level insertion is treated by forced reinsertion, after the level's
      flag is set; any other overflow splits the node.  Looking up the flag
      of a level outside the flag array fails. */
  function Overflow(cfg: Config, t: Tree, parent: Option<Parent>, node: Node, fuel: nat): (r: Result<Outcome>)
    requires Fits(node.entries, cfg.dims) && ParentFits(parent, cfg.dims)
    ensures r.Ok? ==> Evolves(t, r.value.tree)
    ensures r.Ok? && r.value.sibling.Some? ==> parent.Some? && |r.value.sibling.value.box| == cfg.dims
    ensures FlagOutOfRange(t, node) ==> r == Err(OutOfRange)
    ensures r.Ok? && ReinsertsFirst(t, node) ==>
              && r.value.sibling.None?
              && |r.value.tree.reinserted| > |t.reinserted|
              && r.value.tree.reinserted[|t.reinserted|] == node.level
    ensures !FlagOutOfRange(t, node) && !ReinsertsFirst(t, node) ==> r == SplitOverflow(cfg, t, parent, node)
    decreases fuel, 2
  {
    if FlagOutOfRange(t, node) then Err(OutOfRange)
    else if ReinsertsFirst(t, node) then
      var flagged := Flag(t, node.level);
      var u :- ReInsert(cfg, flagged, parent, node, fuel);
      EvolvesTransitive(t, flagged, u);
      assert u.reinserted[|t.reinserted|] == flagged.reinserted[|t.reinserted|];
      Ok(Outcome(u, None))
    else
      SplitOverflow(cfg, t, parent, node)
  }

  /** reInsert: a node of exactly M+1 entries keeps those closest to the
      center of its parent entry's box; its parent entry is refit to them,
      both nodes are written, and the removed entries are inserted again at
      the node's level, closest first. */
  function ReInsert(cfg: Config, t: Tree, parent: Option<Parent>, node: Node, fuel: nat): (r: Result<Tree>)
    requires Fits(node.entries, cfg.dims) && ParentFits(parent, cfg.dims)
    ensures r.Ok? ==> Evolves(t, r.value)
    ensures r.Ok? ==> |node.entries| == cfg.maxEntries + 1 && parent.Some?
    decreases fuel, 1
  {
    if |node.entries| != cfg.maxEntries + 1 then Err(WrongEntryCount)
    else if parent.None? then Err(MissingParent)
    else
      var p := parent.value;
      var plan := ReinsertPlan(node.entries, ParentEntry(p).box, ReinsertCount(cfg.maxEntries));
      var q := WithParentEntry(p, RefitToEntries(ParentEntry(p), plan.kept));
      var t1 := Write(Write(t, q.node), node.(entries := plan.kept));
      var u :- ReinsertAll(cfg, t1, plan.removed, node.level, fuel);
      EvolvesTransitive(t, t1, u);
      Ok(u)
  }

  /** Insert each entry from the top, at the given level, in order. */
  function ReinsertAll(cfg: Config, t: Tree, es: seq<Entry>, level: nat, fuel: nat): (r: Result<Tree>)
    requires Fits(es, cfg.dims)
    ensures r.Ok? ==> Evolves(t, r.value)
    ensures |es| == 0 ==> r == Ok(t)
    decreases fuel, 0, |es|
  {
    if |es| == 0 then Ok(t)
    else if fuel == 0 then Err(OutOfFuel)
    else
      var out :- Insert(cfg, t, None, es[0], level, fuel - 1);
      var u :- ReinsertAll(cfg, out.tree, es[1..], level, fuel);
      EvolvesTransitive(t, out.tree, u);
      Ok(u)
  }

  // ---------------------------------------------------------------------
  // Records
  // ---------------------------------------------------------------------

  /** The box of a point record: lower and upper bound both equal the
      coordinate. */
  function PointBox(coords: seq<real>): (b: Box)
    ensures |b| == |coords| && ContainsPoint(b, coords)
    ensures forall i | 0 <= i < |b| :: b[i].lower == coords[i] && b[i].upper == coords[i]
    ensures |coords| > 0 ==> Volume(b) == 0.0
  {
    var b: Box := seq(|coords|, i requires 0 <= i < |coords| => Bounds(coords[i], coords[i]));
    assert |coords| > 0 ==> Volume(b) == 0.0 by {
      if |coords| > 0 {
        VolumeZeroIff(b);
      }
    }
    b
  }

  /** The box as the record loop builds it: each dimension is constructed
      from the coordinate as the upper value and the data block id as the
      lower value. */
  function PointBoxAsWritten(coords: seq<real>, dataBlockId: int): (r: Result<Box>)
    ensures r.Ok? <==> forall i | 0 <= i < |coords| :: dataBlockId as real <= coords[i]
    ensures r.Ok? ==> |r.value| == |coords|
    ensures r.Ok? ==>
              forall i | 0 <= i < |coords| :: r.value[i].upper == coords[i] && r.value[i].lower == dataBlockId as real
  {
    if |coords| == 0 then Ok([])
    else
      var rest :- PointBoxAsWritten(coords[1..], dataBlockId);
      var first :- MakeBounds(coords[0], dataBlockId as real);
      assert forall i | 1 <= i < |coords| :: coords[i] == coords[1..][i - 1];
      Ok([first] + rest)
  }

  /** A record whose coordinate is below its data block id cannot be
      indexed as written, and one above it gets a box that is not its point. */
  lemma PointBoxDiscrepancy()
    ensures PointBoxAsWritten([0.5], 1).Err?
    ensures PointBoxAsWritten([3.0], 1).Ok? && PointBoxAsWritten([3.0], 1).value != PointBox([3.0])
  {
    var ok := PointBoxAsWritten([3.0], 1);
    assert ok.value[0].lower == 1.0;
    assert PointBox([3.0])[0].lower == 3.0;
  }

  /** addRecord: every flag is cleared, then the record's leaf entry is
      inserted from the root at the leaf level.  During the insertion each
      level is reinserted at most once. */
  function AddRecord(cfg: Config, t: Tree, recordId: int, coords: seq<real>, dataBlockId: int, fuel: nat): (r: Result<Tree>)
    requires |coords| == cfg.dims
    ensures r.Ok? ==> Distinct(r.value.reinserted)
    ensures r.Ok? ==> t.store.Keys <= r.value.store.Keys && t.nextBlock <= r.value.nextBlock && t.levels <= r.value.levels
  {
    var entry := MakeLeafEntry(recordId, dataBlockId, PointBox(coords));
    var out :- Insert(cfg, t.(reinserted := [], flagLevels := t.levels), None, entry, LeafLevel, fuel);
    Ok(out.tree)
  }

  /** A leaf root with room left takes the new entry at its end, and nothing
      else in the store changes. */
  lemma InsertIntoRoomyLeafRoot(cfg: Config, t: Tree, data: Entry, fuel: nat)
    requires fuel > 0 && |data.box| == cfg.dims
    requires RootBlock in t.store
    requires var root := t.store[RootBlock];
             root.blockId == RootBlock && root.level == LeafLevel &&
             Fits(root.entries, cfg.dims) && |root.entries| < cfg.maxEntries
    ensures var r := Insert(cfg, t, None, data, LeafLevel, fuel);
            && r.Ok? && r.value.sibling.None?
            && r.value.tree.store == t.store[RootBlock := AddEntry(t.store[RootBlock], data)]
            && r.value.tree.nextBlock == t.nextBlock && r.value.tree.reinserted == t.reinserted
  {
    var root := t.store[RootBlock];
    var grown := AddEntry(root, data);
    assert Fits(grown.entries, cfg.dims) by {
      assert forall k | 0 <= k < |root.entries| :: grown.entries[k] == root.entries[k];
    }
  }

  /** Adding a record to a tree whose root is a leaf with room left appends
      the record's leaf entry to the root. */
  lemma AddRecordToRoomyLeafRoot(cfg: Config, t: Tree, recordId: int, coords: seq<real>, dataBlockId: int, fuel: nat)
    requires fuel > 0 && |coords| == cfg.dims
    requires RootBlock in t.store
    requires var root := t.store[RootBlock];
             root.blockId == RootBlock && root.level == LeafLevel &&
             Fits(root.entries, cfg.dims) && |root.entries| < cfg.maxEntries
    ensures var r := AddRecord(cfg, t, recordId, coords, dataBlockId, fuel);
            && r.Ok? && RootBlock in r.value.store
            && r.value.store[RootBlock].entries ==
                 t.store[RootBlock].entries + [MakeLeafEntry(recordId, dataBlockId, PointBox(coords))]
  {
    InsertIntoRoomyLeafRoot(cfg, t.(reinserted := [], flagLevels := t.levels), MakeLeafEntry(recordId, dataBlockId, PointBox(coords)), fuel);
  }
}
