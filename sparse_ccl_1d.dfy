/** One-dimensional sparse connected-component labelling: an online
    union-find over an array of parent indices, one entry per cell.

    The label array is the equivalence table. While the scan runs, every
    entry holds the index of its parent, and a root is its own parent.
    Parents always sit at a lower index than their children. Union links
    the higher root under the lower one, so the representative of a merged
    component is its smallest index, whatever order the merges came in. */
module SparseCcl1dDetails {
  import opened Cells

  // ---------------------------------------------------------------------
  // Adjacency and the sorted early exit
  // ---------------------------------------------------------------------

  /** 1-D connectivity: same module, channel0 at most one apart; channel1
      is ignored. */
  predicate IsAdjacent1d(a: Cell, b: Cell)
  {
    a.moduleIndex == b.moduleIndex && -1 <= a.channel0 - b.channel0 <= 1
  }

  /** Far-enough test of the current cell `a` against an earlier cell `b`.
      Because the cells are sorted, `a.channel0 - b.channel0` is never
      negative on the same module, so no absolute value is taken. */
  predicate IsFarEnough1d(a: Cell, b: Cell)
  {
    a.moduleIndex != b.moduleIndex || a.channel0 > b.channel0 + 1
  }

  lemma AdjacentIsSymmetric(a: Cell, b: Cell)
    ensures IsAdjacent1d(a, b) <==> IsAdjacent1d(b, a)
    ensures IsAdjacent1d(a, a)
  {
  }

  /** The early exit is sound: once an earlier cell is far enough from the
      current one, no cell before it can be adjacent to the current one. */
  lemma FarEnoughIsSound(cells: seq<Cell>, i: nat, j: nat)
    requires Sorted(cells)
    requires j < i < |cells|
    requires IsFarEnough1d(cells[i], cells[j])
    ensures forall k :: 0 <= k <= j ==> !IsAdjacent1d(cells[i], cells[k])
  {
    forall k | 0 <= k <= j
      ensures !IsAdjacent1d(cells[i], cells[k])
    {
      if k < j {
        Channel0OnlyOrderIsStrict(cells[k], cells[j], cells[i]);
      }
    }
  }

  /** Far-enough is never true of an adjacent pair. */
  lemma FarEnoughExcludesAdjacent(a: Cell, b: Cell)
    ensures IsFarEnough1d(a, b) ==> !IsAdjacent1d(a, b)
  {
  }

  // ---------------------------------------------------------------------
  // The equivalence table as a forest of parent pointers
  // ---------------------------------------------------------------------

  /** Every entry points at itself or at a lower index. */
  ghost predicate Forest(p: seq<nat>)
  {
    forall k :: 0 <= k < |p| ==> p[k] <= k
  }

  /** `a` is reached from `e` by following parent links. */
  ghost predicate Reaches(p: seq<nat>, e: nat, a: nat)
    requires Forest(p) && e < |p|
    decreases e
  {
    e == a || (p[e] != e && Reaches(p, p[e], a))
  }

  /** The root of the tree that holds `e`: it is its own parent and it is
      reached from `e` by following parent links. */
  ghost function Root(p: seq<nat>, e: nat): (r: nat)
    requires Forest(p) && e < |p|
    ensures r <= e && p[r] == r
    ensures Reaches(p, e, r)
    decreases e
  {
    if p[e] == e then e else Root(p, p[e])
  }

  /** Linking root `b` under the lower root `a` moves exactly the tree of
      `b` under `a` and leaves every other root as it was. */
  lemma {:induction false} LinkRootAt(p: seq<nat>, a: nat, b: nat, x: nat)
    requires Forest(p) && a < b < |p| && p[a] == a && p[b] == b && x < |p|
    ensures Forest(p[b := a])
    ensures Root(p[b := a], x) == if Root(p, x) == b then a else Root(p, x)
    decreases x
  {
    var q := p[b := a];
    if p[x] != x {
      LinkRootAt(p, a, b, p[x]);
    } else if x == b {
      assert q[b] == a && q[a] == a;
    }
  }

  /** find_root: follows the parent links of the (read-only) equivalence
      table from `e` up to the root. */
  method FindRoot(labels: array<nat>, e: nat) returns (r: nat)
    requires e < labels.Length && Forest(labels[..])
    ensures r == Root(labels[..], e)
    ensures labels[r] == r && Reaches(labels[..], e, r)
  {
    r := e;
    while labels[r] != r
      invariant r < labels.Length
      invariant Root(labels[..], r) == Root(labels[..], e)
      decreases r
    {
      r := labels[r];
    }
  }

  /** `q` is `p` with the trees of `e1` and `e2` joined under the lower of
      their two roots; every other tree keeps its root. */
  ghost predicate Merged(p: seq<nat>, q: seq<nat>, e1: nat, e2: nat)
    requires Forest(p) && Forest(q) && |p| == |q| && e1 < |p| && e2 < |p|
  {
    forall x :: 0 <= x < |q| ==>
      Root(q, x) == if Root(p, x) == Root(p, e1) || Root(p, x) == Root(p, e2)
                    then Min(Root(p, e1), Root(p, e2)) else Root(p, x)
  }

  /** make_union: joins the trees of `e1` and `e2` by hanging the higher of
      their two roots under the lower one, and returns the lower root, which
      is the common ancestor of both entries afterwards. */
  method MakeUnion(labels: array<nat>, e1: nat, e2: nat) returns (r: nat)
    requires e1 < labels.Length && e2 < labels.Length && Forest(labels[..])
    modifies labels
    ensures Forest(labels[..])
    ensures r == Min(old(Root(labels[..], e1)), old(Root(labels[..], e2)))
    ensures labels[..] == old(labels[..])[Max(old(Root(labels[..], e1)), old(Root(labels[..], e2))) := r]
    ensures Root(labels[..], e1) == r && Root(labels[..], e2) == r
    ensures Merged(old(labels[..]), labels[..], e1, e2)
  {
    var r1: nat := FindRoot(labels, e1);
    var r2: nat := FindRoot(labels, e2);
    ghost var p := labels[..];
    if r1 < r2 {
      labels[r2] := r1;
      r := r1;
      assert labels[..] == p[r2 := r1];
      forall x | 0 <= x < labels.Length
        ensures Root(labels[..], x) == if Root(p, x) == r2 then r1 else Root(p, x)
      {
        LinkRootAt(p, r1, r2, x);
      }
    } else if r2 < r1 {
      labels[r1] := r2;
      r := r2;
      assert labels[..] == p[r1 := r2];
      forall x | 0 <= x < labels.Length
        ensures Root(labels[..], x) == if Root(p, x) == r1 then r2 else Root(p, x)
      {
        LinkRootAt(p, r2, r1, x);
      }
    } else {
      labels[r1] := r2;
      r := r2;
      assert labels[..] == p;
    }
  }

  /** A union only joins trees: entries that shared a root still share
      one, the two merged entries now share one, and any two entries share
      a root afterwards exactly when they did before or both lay in the
      two merged trees. */
  lemma UnionOnlyJoins(p: seq<nat>, q: seq<nat>, e1: nat, e2: nat, x: nat, y: nat)
    requires Forest(p) && Forest(q) && |p| == |q| && e1 < |p| && e2 < |p| && x < |p| && y < |p|
    requires Merged(p, q, e1, e2)
    ensures Root(p, x) == Root(p, y) ==> Root(q, x) == Root(q, y)
    ensures Root(q, e1) == Root(q, e2)
    ensures Root(q, x) == Root(q, y) <==>
              Root(p, x) == Root(p, y) ||
              ((Root(p, x) == Root(p, e1) || Root(p, x) == Root(p, e2)) &&
               (Root(p, y) == Root(p, e1) || Root(p, y) == Root(p, e2)))
  {
    assert Root(q, x) == if Root(p, x) == Root(p, e1) || Root(p, x) == Root(p, e2)
                         then Min(Root(p, e1), Root(p, e2)) else Root(p, x);
    assert Root(q, y) == if Root(p, y) == Root(p, e1) || Root(p, y) == Root(p, e2)
                         then Min(Root(p, e1), Root(p, e2)) else Root(p, y);
    assert Root(q, e1) == Min(Root(p, e1), Root(p, e2));
    assert Root(q, e2) == Min(Root(p, e1), Root(p, e2));
  }

  function Min(a: nat, b: nat): nat { if a < b then a else b }
  function Max(a: nat, b: nat): nat { if a < b then b else a }

  // ---------------------------------------------------------------------
  // What the labelling must compute: components of the adjacency graph
  // ---------------------------------------------------------------------

  /** A walk through the cells in which each step joins two adjacent cells. */
  ghost predicate IsChain(cells: seq<Cell>, path: seq<nat>)
  {
    && |path| > 0
    && (forall k :: 0 <= k < |path| ==> path[k] < |cells|)
    && (forall k :: 0 <= k < |path| - 1 ==> IsAdjacent1d(cells[path[k]], cells[path[k + 1]]))
  }

  /** Two cells are connected when a chain of adjacent cells joins them. */
  ghost predicate Connected(cells: seq<Cell>, a: nat, b: nat)
  {
    exists path :: IsChain(cells, path) && path[0] == a && path[|path| - 1] == b
  }

  lemma ConnectedReflexive(cells: seq<Cell>, a: nat)
    requires a < |cells|
    ensures Connected(cells, a, a)
  {
    assert IsChain(cells, [a]);
  }

  lemma AdjacentConnected(cells: seq<Cell>, a: nat, b: nat)
    requires a < |cells| && b < |cells| && IsAdjacent1d(cells[a], cells[b])
    ensures Connected(cells, a, b)
  {
    assert IsChain(cells, [a, b]);
  }

  lemma ConnectedSymmetric(cells: seq<Cell>, a: nat, b: nat)
    requires Connected(cells, a, b)
    ensures Connected(cells, b, a)
  {
    var path :| IsChain(cells, path) && path[0] == a && path[|path| - 1] == b;
    var n := |path|;
    var back := seq(n, k requires 0 <= k < n => path[n - 1 - k]);
    forall k | 0 <= k < n - 1
      ensures IsAdjacent1d(cells[back[k]], cells[back[k + 1]])
    {
      AdjacentIsSymmetric(cells[path[n - 2 - k]], cells[path[n - 1 - k]]);
    }
    assert IsChain(cells, back);
  }

  lemma ConnectedTransitive(cells: seq<Cell>, a: nat, b: nat, c: nat)
    requires Connected(cells, a, b) && Connected(cells, b, c)
    ensures Connected(cells, a, c)
  {
    var p1 :| IsChain(cells, p1) && p1[0] == a && p1[|p1| - 1] == b;
    var p2 :| IsChain(cells, p2) && p2[0] == b && p2[|p2| - 1] == c;
    var joined := p1 + p2[1..];
    forall k | 0 <= k < |joined| - 1
      ensures IsAdjacent1d(cells[joined[k]], cells[joined[k + 1]])
    {
      if k >= |p1| - 1 {
        assert joined[k] == p2[k - |p1| + 1];
        assert joined[k + 1] == p2[k - |p1| + 2];
      }
    }
    assert IsChain(cells, joined);
  }

  lemma ConnectedInRange(cells: seq<Cell>, a: nat, b: nat)
    requires Connected(cells, a, b)
    ensures a < |cells| && b < |cells|
  {
  }

  /** The leader of a component is its lowest index. */
  ghost predicate IsLeader(cells: seq<Cell>, r: nat)
  {
    r < |cells| && forall q :: 0 <= q < r ==> !Connected(cells, q, r)
  }

  /** The lowest index at or above `from` that is connected to `k`. */
  ghost function LeaderFrom(cells: seq<Cell>, k: nat, from: nat): (r: nat)
    requires from <= k < |cells|
    ensures from <= r <= k && Connected(cells, r, k)
    ensures forall q :: from <= q < r ==> !Connected(cells, q, k)
    decreases k - from
  {
    if from == k then
      ConnectedReflexive(cells, k);
      k
    else if Connected(cells, from, k) then from
    else LeaderFrom(cells, k, from + 1)
  }

  ghost function Leader(cells: seq<Cell>, k: nat): (r: nat)
    requires k < |cells|
  {
    LeaderFrom(cells, k, 0)
  }

  /** The leader of `k` is the lowest index connected to `k`, and it is a
      leader. */
  lemma LeaderIsLowest(cells: seq<Cell>, k: nat)
    requires k < |cells|
    ensures Leader(cells, k) <= k && Connected(cells, Leader(cells, k), k)
    ensures forall q :: 0 <= q < |cells| && Connected(cells, q, k) ==> Leader(cells, k) <= q
    ensures IsLeader(cells, Leader(cells, k))
  {
    var r := Leader(cells, k);
    forall q | 0 <= q < r
      ensures !Connected(cells, q, r)
    {
      if Connected(cells, q, r) {
        ConnectedTransitive(cells, q, r, k);
      }
    }
  }

  /** Connected cells share a leader. */
  lemma ConnectedSameLeader(cells: seq<Cell>, k: nat, l: nat)
    requires Connected(cells, k, l)
    ensures k < |cells| && l < |cells|
    ensures Leader(cells, k) == Leader(cells, l)
  {
    ConnectedInRange(cells, k, l);
    LeaderIsLowest(cells, k);
    LeaderIsLowest(cells, l);
    var a, b := Leader(cells, k), Leader(cells, l);
    ConnectedTransitive(cells, a, k, l);
    ConnectedSymmetric(cells, k, l);
    ConnectedTransitive(cells, b, l, k);
  }

  /** Number of leaders below `m`. */
  ghost function CountLeaders(cells: seq<Cell>, m: nat): nat
    requires m <= |cells|
  {
    if m == 0 then 0 else CountLeaders(cells, m - 1) + (if IsLeader(cells, m - 1) then 1 else 0)
  }

  /** Cluster id of cell `k`: components are numbered from 0 in the order in
      which their first cell appears. */
  ghost function CanonicalLabel(cells: seq<Cell>, k: nat): nat
    requires k < |cells|
  {
    CountLeaders(cells, Leader(cells, k))
  }

  /** Number of components. */
  ghost function ClusterCount(cells: seq<Cell>): nat
  {
    CountLeaders(cells, |cells|)
  }

  lemma {:induction false} CountLeadersMonotone(cells: seq<Cell>, a: nat, b: nat)
    requires a <= b <= |cells|
    ensures CountLeaders(cells, a) <= CountLeaders(cells, b)
    ensures a < b && IsLeader(cells, a) ==> CountLeaders(cells, a) < CountLeaders(cells, b)
    decreases b - a
  {
    if a < b {
      CountLeadersMonotone(cells, a, b - 1);
    }
  }

  /** Every id below the number of leaders below `m` is the id of a leader
      below `m`. */
  lemma {:induction false} CountLeadersHits(cells: seq<Cell>, m: nat, c: nat)
    requires m <= |cells| && c < CountLeaders(cells, m)
    ensures exists r :: 0 <= r < m && IsLeader(cells, r) && CountLeaders(cells, r) == c
  {
    if c < CountLeaders(cells, m - 1) {
      CountLeadersHits(cells, m - 1, c);
    } else {
      assert IsLeader(cells, m - 1) && CountLeaders(cells, m - 1) == c;
    }
  }

  /** Two cells get the same id exactly when a chain of adjacent cells
      joins them. */
  lemma CanonicalLabelPartition(cells: seq<Cell>, k: nat, l: nat)
    requires k < |cells| && l < |cells|
    ensures CanonicalLabel(cells, k) == CanonicalLabel(cells, l) <==> Connected(cells, k, l)
  {
    LeaderIsLowest(cells, k);
    LeaderIsLowest(cells, l);
    var a, b := Leader(cells, k), Leader(cells, l);
    if Connected(cells, k, l) {
      ConnectedSameLeader(cells, k, l);
    } else if a < b {
      CountLeadersMonotone(cells, a, b);
    } else if b < a {
      CountLeadersMonotone(cells, b, a);
    } else {
      ConnectedSymmetric(cells, a, k);
      ConnectedTransitive(cells, k, a, l);
    }
  }

  /** The ids of all cells, in cell order. */
  ghost function CanonicalLabels(cells: seq<Cell>): (ls: seq<nat>)
    ensures |ls| == |cells|
  {
    seq(|cells|, k requires 0 <= k < |cells| => CanonicalLabel(cells, k))
  }

  /** Ids run from 0 to the cluster count, and every id in that range is
      used. */
  lemma CanonicalLabelDense(cells: seq<Cell>)
    ensures forall k :: 0 <= k < |cells| ==> CanonicalLabels(cells)[k] < ClusterCount(cells)
    ensures forall c :: 0 <= c < ClusterCount(cells) ==> c in CanonicalLabels(cells)
  {
    var ls := CanonicalLabels(cells);
    forall k | 0 <= k < |cells|
      ensures ls[k] < ClusterCount(cells)
    {
      LeaderIsLowest(cells, k);
      CountLeadersMonotone(cells, Leader(cells, k), |cells|);
    }
    forall c | 0 <= c < ClusterCount(cells)
      ensures c in ls
    {
      CountLeadersHits(cells, |cells|, c);
      var r :| 0 <= r < |cells| && IsLeader(cells, r) && CountLeaders(cells, r) == c;
      LeaderIsLowest(cells, r);
      ConnectedReflexive(cells, r);
      assert Leader(cells, r) == r;
      assert ls[r] == c;
    }
  }

  // ---------------------------------------------------------------------
  // The driver
  // ---------------------------------------------------------------------

  /** Every root is joined to each entry of its tree by a chain. */
  ghost predicate RootsConnected(cells: seq<Cell>, p: seq<nat>)
    requires Forest(p) && |p| == |cells|
  {
    forall x :: 0 <= x < |p| ==> Connected(cells, x, Root(p, x))
  }

  /** Every adjacent pair among the first `m` cells shares a root. */
  ghost predicate UnionsDone(cells: seq<Cell>, p: seq<nat>, m: nat)
    requires Forest(p) && |p| == |cells| && m <= |p|
  {
    forall k, l :: 0 <= k < m && 0 <= l < m && IsAdjacent1d(cells[k], cells[l]) ==>
      Root(p, k) == Root(p, l)
  }

  /** Number of roots below `m`. */
  ghost function CountRoots(p: seq<nat>, m: nat): nat
    requires m <= |p|
  {
    if m == 0 then 0 else CountRoots(p, m - 1) + (if p[m - 1] == m - 1 then 1 else 0)
  }

  /** A merge of the roots of two adjacent cells keeps every root joined to
      its tree. */
  lemma MergeKeepsRootsConnected(cells: seq<Cell>, p: seq<nat>, q: seq<nat>, i: nat, j: nat)
    requires Forest(p) && Forest(q) && |p| == |cells| && |q| == |cells|
    requires i < |cells| && j < |cells| && IsAdjacent1d(cells[i], cells[j])
    requires RootsConnected(cells, p) && Merged(p, q, i, j)
    ensures RootsConnected(cells, q)
  {
    var ri, rj := Root(p, i), Root(p, j);
    AdjacentConnected(cells, i, j);
    ConnectedSymmetric(cells, i, ri);
    ConnectedSymmetric(cells, j, rj);
    ConnectedSymmetric(cells, i, j);
    ConnectedTransitive(cells, ri, i, j);
    ConnectedTransitive(cells, ri, j, rj);
    ConnectedTransitive(cells, rj, j, i);
    ConnectedTransitive(cells, rj, i, ri);
    forall x | 0 <= x < |q|
      ensures Connected(cells, x, Root(q, x))
    {
      var rx := Root(p, x);
      if rx == ri && Min(ri, rj) == rj {
        ConnectedTransitive(cells, x, ri, rj);
      } else if rx == rj && Min(ri, rj) == ri {
        ConnectedTransitive(cells, x, rj, ri);
      }
    }
  }

  /** After the first scan, two cells share a root exactly when they are
      connected. */
  lemma {:induction false} ChainSharesRoot(cells: seq<Cell>, p: seq<nat>, path: seq<nat>)
    requires Forest(p) && |p| == |cells| && UnionsDone(cells, p, |p|)
    requires IsChain(cells, path)
    ensures Root(p, path[0]) == Root(p, path[|path| - 1])
  {
    if |path| > 1 {
      assert IsChain(cells, path[1..]);
      ChainSharesRoot(cells, p, path[1..]);
    }
  }

  lemma SameRootIffConnected(cells: seq<Cell>, p: seq<nat>, k: nat, l: nat)
    requires Forest(p) && |p| == |cells| && UnionsDone(cells, p, |p|) && RootsConnected(cells, p)
    requires k < |p| && l < |p|
    ensures Root(p, k) == Root(p, l) <==> Connected(cells, k, l)
  {
    if Connected(cells, k, l) {
      var path :| IsChain(cells, path) && path[0] == k && path[|path| - 1] == l;
      ChainSharesRoot(cells, p, path);
    }
    if Root(p, k) == Root(p, l) {
      ConnectedSymmetric(cells, l, Root(p, l));
      ConnectedTransitive(cells, k, Root(p, k), l);
    }
  }

  /** After the first scan, the root of a cell is its leader, and the roots
      are exactly the leaders. */
  lemma RootIsLeader(cells: seq<Cell>, p: seq<nat>, k: nat)
    requires Forest(p) && |p| == |cells| && UnionsDone(cells, p, |p|) && RootsConnected(cells, p)
    requires k < |p|
    ensures Root(p, k) == Leader(cells, k)
    ensures p[k] == k <==> IsLeader(cells, k)
  {
    LeaderIsLowest(cells, k);
    var a, r := Leader(cells, k), Root(p, k);
    ConnectedSymmetric(cells, k, r);
    SameRootIffConnected(cells, p, a, k);
  }

  lemma {:induction false} CountRootsIsCountLeaders(cells: seq<Cell>, p: seq<nat>, m: nat)
    requires Forest(p) && |p| == |cells| && UnionsDone(cells, p, |p|) && RootsConnected(cells, p)
    requires m <= |p|
    ensures CountRoots(p, m) == CountLeaders(cells, m)
  {
    if m > 0 {
      CountRootsIsCountLeaders(cells, p, m - 1);
      RootIsLeader(cells, p, m - 1);
    }
  }

  /** sparse_ccl_1d: writes one cluster id per cell into `labels` and
      returns the number of clusters. Ids are the canonical component
      numbers: two cells share one exactly when a chain of adjacent cells
      joins them, and ids are given in order of each cluster's first cell. */
  method SparseCcl1d(cells: seq<Cell>, labels: array<nat>) returns (numClusters: nat)
    requires Sorted(cells)
    requires labels.Length == |cells|
    modifies labels
    ensures numClusters == ClusterCount(cells)
    ensures labels[..] == CanonicalLabels(cells)
  {
    JoinAdjacentCells(cells, labels);
    ghost var p := labels[..];
    numClusters := ResolveLabels(labels);
    CountRootsIsCountLeaders(cells, p, |p|);
    forall k | 0 <= k < labels.Length
      ensures labels[k] == CanonicalLabel(cells, k)
    {
      RootIsLeader(cells, p, k);
      CountRootsIsCountLeaders(cells, p, Root(p, k));
    }
  }

  /** First scan: every cell starts as its own singleton, then each cell is
      joined with the adjacent cells before it, scanning backwards until the
      sorted order shows that no earlier cell can be adjacent. */
  method JoinAdjacentCells(cells: seq<Cell>, labels: array<nat>)
    requires Sorted(cells)
    requires labels.Length == |cells|
    modifies labels
    ensures Forest(labels[..])
    ensures RootsConnected(cells, labels[..])
    ensures UnionsDone(cells, labels[..], labels.Length)
  {
    var n := labels.Length;
    var i := 0;
    while i < n
      invariant 0 <= i <= n
      invariant forall k :: 0 <= k < i ==> labels[k] == k
    {
      labels[i] := i;
      i := i + 1;
    }
    forall x | 0 <= x < n
      ensures Connected(cells, x, Root(labels[..], x))
    {
      ConnectedReflexive(cells, x);
    }

    i := 0;
    while i < n
      invariant 0 <= i <= n
      invariant Forest(labels[..])
      invariant RootsConnected(cells, labels[..])
      invariant UnionsDone(cells, labels[..], i)
    {
      var j := i;
      while j > 0
        invariant 0 <= j <= i
        invariant Forest(labels[..])
        invariant RootsConnected(cells, labels[..])
        invariant UnionsDone(cells, labels[..], i)
        invariant JoinedFrom(cells, labels[..], i, j)
      {
        j := j - 1;
        if IsAdjacent1d(cells[i], cells[j]) {
          ghost var before := labels[..];
          var _ := MakeUnion(labels, i, j);
          MergeStep(cells, before, labels[..], i, j);
        } else if IsFarEnough1d(cells[i], cells[j]) {
          FarEnoughIsSound(cells, i, j);
          assert JoinedFrom(cells, labels[..], i, 0);
          break;
        }
      }
      UnionsExtend(cells, labels[..], i);
      i := i + 1;
    }
  }

  /** Second scan: every entry is replaced by the dense id of its root.
      Parents sit below their children, so by the time entry `i` is reached
      its parent already holds the final id. */
  method ResolveLabels(labels: array<nat>) returns (numClusters: nat)
    requires Forest(labels[..])
    modifies labels
    ensures numClusters == CountRoots(old(labels[..]), labels.Length)
    ensures forall k :: 0 <= k < labels.Length ==>
              labels[k] == CountRoots(old(labels[..]), Root(old(labels[..]), k))
  {
    ghost var p := labels[..];
    var n := labels.Length;
    numClusters := 0;
    var i := 0;
    while i < n
      invariant 0 <= i <= n
      invariant Resolved(p, labels[..], i)
      invariant numClusters == CountRoots(p, i)
    {
      numClusters := ResolveEntry(labels, i, numClusters, p);
      i := i + 1;
    }
  }

  /** One step of the second scan: a root takes the next dense id, any
      other entry copies the id already given to its parent. */
  method ResolveEntry(labels: array<nat>, i: nat, numClusters: nat, ghost p: seq<nat>) returns (next: nat)
    requires Forest(p) && i < labels.Length
    requires Resolved(p, labels[..], i) && numClusters == CountRoots(p, i)
    modifies labels
    ensures Resolved(p, labels[..], i + 1) && next == CountRoots(p, i + 1)
  {
    ResolveStep(p, i);
    ghost var l := labels[..];
    assert l[i] == p[i];
    var v: nat;
    if labels[i] == i {
      v := numClusters;
      next := numClusters + 1;
    } else {
      v := labels[labels[i]];
      next := numClusters;
    }
    ResolveAdvance(p, l, i, v);
    labels[i] := v;
    assert labels[..] == l[i := v];
  }

  /** The first `i` entries of `l` hold the dense ids of their roots in the
      forest `p`, and the others are still the parent links of `p`. */
  ghost predicate Resolved(p: seq<nat>, l: seq<nat>, i: nat)
    requires Forest(p)
  {
    && |l| == |p| && i <= |p|
    && (forall k :: i <= k < |p| ==> l[k] == p[k])
    && (forall k :: 0 <= k < i ==> l[k] == CountRoots(p, Root(p, k)))
  }

  /** Resolving entry `i`: a root takes the count of roots below it, any
      other entry the id already given to its parent. */
  lemma ResolveAdvance(p: seq<nat>, l: seq<nat>, i: nat, v: nat)
    requires Forest(p) && Resolved(p, l, i) && i < |p|
    requires v == if p[i] == i then CountRoots(p, i) else l[p[i]]
    ensures Resolved(p, l[i := v], i + 1)
  {
    ResolveStep(p, i);
  }

  /** A root is its own root and adds one to the count of roots; any
      other entry has the root of its parent, which sits below it. */
  lemma ResolveStep(p: seq<nat>, i: nat)
    requires Forest(p) && i < |p|
    ensures p[i] == i ==> Root(p, i) == i && CountRoots(p, i + 1) == CountRoots(p, i) + 1
    ensures p[i] != i ==> p[i] < i && Root(p, i) == Root(p, p[i]) && CountRoots(p, i + 1) == CountRoots(p, i)
  {
  }

  /** Every adjacent cell among positions `j` to `i - 1` shares a root with
      cell `i`. */
  ghost predicate JoinedFrom(cells: seq<Cell>, p: seq<nat>, i: nat, j: nat)
    requires Forest(p) && |p| == |cells| && i < |p|
  {
    forall k :: j <= k < i && IsAdjacent1d(cells[i], cells[k]) ==> Root(p, i) == Root(p, k)
  }

  /** A merge of cell `i` with an adjacent earlier cell `j` keeps the scan's
      invariants and extends the joined window down to `j`. */
  lemma MergeStep(cells: seq<Cell>, p: seq<nat>, q: seq<nat>, i: nat, j: nat)
    requires Forest(p) && Forest(q) && |p| == |cells| && |q| == |cells|
    requires j < i < |cells| && IsAdjacent1d(cells[i], cells[j])
    requires Merged(p, q, i, j) && Root(q, i) == Root(q, j)
    requires RootsConnected(cells, p) && UnionsDone(cells, p, i) && JoinedFrom(cells, p, i, j + 1)
    ensures RootsConnected(cells, q) && UnionsDone(cells, q, i) && JoinedFrom(cells, q, i, j)
  {
    MergeKeepsRootsConnected(cells, p, q, i, j);
    forall k, l | 0 <= k < i && 0 <= l < i && IsAdjacent1d(cells[k], cells[l])
      ensures Root(q, k) == Root(q, l)
    {
      MergeKeepsSharedRoot(p, q, i, j, k, l);
    }
    forall k | j + 1 <= k < i && IsAdjacent1d(cells[i], cells[k])
      ensures Root(q, i) == Root(q, k)
    {
      MergeKeepsSharedRoot(p, q, i, j, i, k);
    }
  }

  /** Entries that shared a root before a merge still share one after it. */
  lemma MergeKeepsSharedRoot(p: seq<nat>, q: seq<nat>, e1: nat, e2: nat, k: nat, l: nat)
    requires Forest(p) && Forest(q) && |p| == |q| && e1 < |p| && e2 < |p|
    requires Merged(p, q, e1, e2) && k < |p| && l < |p| && Root(p, k) == Root(p, l)
    ensures Root(q, k) == Root(q, l)
  {
    assert Root(q, k) == if Root(p, k) == Root(p, e1) || Root(p, k) == Root(p, e2)
                         then Min(Root(p, e1), Root(p, e2)) else Root(p, k);
    assert Root(q, l) == if Root(p, l) == Root(p, e1) || Root(p, l) == Root(p, e2)
                         then Min(Root(p, e1), Root(p, e2)) else Root(p, l);
  }

  /** Once cell `i` shares a root with every adjacent cell before it, the
      first `i + 1` cells are done. */
  lemma UnionsExtend(cells: seq<Cell>, p: seq<nat>, i: nat)
    requires Forest(p) && |p| == |cells| && i < |p|
    requires UnionsDone(cells, p, i) && JoinedFrom(cells, p, i, 0)
    ensures UnionsDone(cells, p, i + 1)
  {
  }
}
