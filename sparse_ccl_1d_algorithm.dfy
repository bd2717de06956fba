/** The host-side 1-D clustering algorithm: labels the cells with the
    sparse connected-component labelling, then groups cell indices by
    cluster. */
module SparseCcl1dAlgorithm {
  import opened Cells
  import opened SparseCcl1dDetails

  /** The indices below `m` whose label is `c`, in increasing order. */
  function IndicesWithLabel(labels: seq<nat>, c: nat, m: nat): seq<nat>
    requires m <= |labels|
  {
    if m == 0 then []
    else IndicesWithLabel(labels, c, m - 1) + (if labels[m - 1] == c then [m - 1] else [])
  }

  /** One bucket per cluster id below `num`, each holding the indices that
      carry that id. */
  function Buckets(labels: seq<nat>, num: nat): (groups: seq<seq<nat>>)
    ensures |groups| == num
  {
    seq(num, c requires 0 <= c => IndicesWithLabel(labels, c, |labels|))
  }

  /** Total number of entries over all buckets. */
  function TotalSize(groups: seq<seq<nat>>): nat
  {
    if groups == [] then 0 else |groups[0]| + TotalSize(groups[1..])
  }

  /** An index is in the bucket of id `c` exactly when it carries `c`, and
      each bucket lists its indices in strictly increasing order. */
  lemma {:induction false} IndicesWithLabelSpec(labels: seq<nat>, c: nat, m: nat)
    requires m <= |labels|
    ensures forall x :: x in IndicesWithLabel(labels, c, m) <==> 0 <= x < m && labels[x] == c
    ensures forall a, b :: 0 <= a < b < |IndicesWithLabel(labels, c, m)| ==>
              IndicesWithLabel(labels, c, m)[a] < IndicesWithLabel(labels, c, m)[b]
  {
    if m > 0 {
      IndicesWithLabelSpec(labels, c, m - 1);
      var front := IndicesWithLabel(labels, c, m - 1);
      assert forall a :: 0 <= a < |front| ==> front[a] < m - 1 by {
        forall a | 0 <= a < |front| ensures front[a] < m - 1 {
          assert front[a] in front;
        }
      }
    }
  }

  /** Appending one index to one bucket adds one to the total size. */
  lemma {:induction false} TotalSizeAppend(groups: seq<seq<nat>>, l: nat, x: nat)
    requires l < |groups|
    ensures TotalSize(groups[l := groups[l] + [x]]) == TotalSize(groups) + 1
  {
    var g := groups[l := groups[l] + [x]];
    if l == 0 {
      assert g[1..] == groups[1..];
    } else {
      assert g[1..] == groups[1..][l - 1 := groups[l] + [x]];
      TotalSizeAppend(groups[1..], l - 1, x);
    }
  }

  /** The buckets over the first `m` indices, one per id below `num`. */
  function PrefixBuckets(labels: seq<nat>, num: nat, m: nat): (groups: seq<seq<nat>>)
    requires m <= |labels|
    ensures |groups| == num
  {
    seq(num, c requires 0 <= c => IndicesWithLabel(labels, c, m))
  }

  lemma PrefixBucketsStep(labels: seq<nat>, num: nat, m: nat)
    requires m < |labels| && labels[m] < num
    ensures PrefixBuckets(labels, num, m + 1) ==
            PrefixBuckets(labels, num, m)[labels[m] := PrefixBuckets(labels, num, m)[labels[m]] + [m]]
  {
    var before, after := PrefixBuckets(labels, num, m), PrefixBuckets(labels, num, m + 1);
    forall c | 0 <= c < num
      ensures after[c] == before[labels[m] := before[labels[m]] + [m]][c]
    {
      assert after[c] == IndicesWithLabel(labels, c, m + 1);
    }
  }

  /** When every label is below `num`, the buckets partition the indices:
      every index sits in the bucket of its own label and in no other, and
      the bucket sizes add up to the number of cells. */
  lemma BucketsPartition(labels: seq<nat>, num: nat)
    requires forall k :: 0 <= k < |labels| ==> labels[k] < num
    ensures forall c: int, x: int :: 0 <= c < num ==> (x in Buckets(labels, num)[c] <==> 0 <= x < |labels| && labels[x] == c)
    ensures forall c, a, b :: 0 <= c < num && 0 <= a < b < |Buckets(labels, num)[c]| ==>
              Buckets(labels, num)[c][a] < Buckets(labels, num)[c][b]
    ensures TotalSize(Buckets(labels, num)) == |labels|
  {
    forall c | 0 <= c < num {
      IndicesWithLabelSpec(labels, c, |labels|);
    }
    BucketsTotal(labels, num, |labels|);
    assert Buckets(labels, num) == PrefixBuckets(labels, num, |labels|);
  }

  lemma {:induction false} BucketsTotal(labels: seq<nat>, num: nat, m: nat)
    requires m <= |labels|
    requires forall k :: 0 <= k < |labels| ==> labels[k] < num
    ensures TotalSize(PrefixBuckets(labels, num, m)) == m
  {
    if m == 0 {
      EmptyBucketsTotal(num);
      assert PrefixBuckets(labels, num, 0) == EmptyBuckets(num);
    } else {
      BucketsTotal(labels, num, m - 1);
      PrefixBucketsStep(labels, num, m - 1);
      TotalSizeAppend(PrefixBuckets(labels, num, m - 1), labels[m - 1], m - 1);
    }
  }

  /** `num` empty buckets. */
  function EmptyBuckets(num: nat): (groups: seq<seq<nat>>)
    ensures |groups| == num
  {
    seq(num, _ => [])
  }

  lemma {:induction false} EmptyBucketsTotal(num: nat)
    ensures TotalSize(EmptyBuckets(num)) == 0
  {
    if num > 0 {
      assert EmptyBuckets(num)[1..] == EmptyBuckets(num - 1);
      EmptyBucketsTotal(num - 1);
    }
  }

  /** The algorithm's call operator: checks (as a precondition) that the
      cells are ordered by module and channel0, labels them, and pushes
      every cell index onto the bucket of its label, scanning indices
      upwards. */
  method Cluster(cells: seq<Cell>) returns (clusters: seq<seq<nat>>)
    requires OrderedOn(cells)
    ensures clusters == Buckets(CanonicalLabels(cells), ClusterCount(cells))
  {
    OrderedOnIsSorted(cells);
    var clusterIndices := new nat[|cells|];
    var numClusters := SparseCcl1d(cells, clusterIndices);
    ghost var labels := clusterIndices[..];
    LabelsBelowCount(cells, labels, numClusters);

    clusters := EmptyBuckets(numClusters);
    assert clusters == PrefixBuckets(labels, numClusters, 0);
    var idx := 0;
    while idx < clusterIndices.Length
      invariant 0 <= idx <= clusterIndices.Length
      invariant clusterIndices[..] == labels
      invariant clusters == PrefixBuckets(labels, numClusters, idx)
    {
      PrefixBucketsStep(labels, numClusters, idx);
      clusters := clusters[clusterIndices[idx] := clusters[clusterIndices[idx]] + [idx]];
      idx := idx + 1;
    }
    assert PrefixBuckets(labels, numClusters, |labels|) == Buckets(labels, numClusters);
  }

  lemma LabelsBelowCount(cells: seq<Cell>, labels: seq<nat>, num: nat)
    requires labels == CanonicalLabels(cells) && num == ClusterCount(cells)
    ensures forall k :: 0 <= k < |labels| ==> labels[k] < num
  {
    CanonicalLabelDense(cells);
  }

  /** Two indices share a bucket exactly when they carry the same label. */
  lemma SameBucketIffSameLabel(labels: seq<nat>, num: nat, c: nat, x: nat, y: nat)
    requires forall k :: 0 <= k < |labels| ==> labels[k] < num
    requires c < num && x in Buckets(labels, num)[c]
    ensures x < |labels| && labels[x] == c
    ensures y in Buckets(labels, num)[c] <==> y < |labels| && labels[y] == labels[x]
  {
    BucketsPartition(labels, num);
    assert x in Buckets(labels, num)[c] <==> x < |labels| && labels[x] == c;
  }

  /** A cluster holds exactly the cells joined to any one of its members
      by a chain of adjacent cells. */
  lemma ClustersAreComponents(cells: seq<Cell>, c: nat, x: nat, y: nat)
    requires c < ClusterCount(cells)
    requires x in Buckets(CanonicalLabels(cells), ClusterCount(cells))[c]
    ensures y in Buckets(CanonicalLabels(cells), ClusterCount(cells))[c] <==>
            y < |cells| && Connected(cells, x, y)
  {
    var ls, num := CanonicalLabels(cells), ClusterCount(cells);
    LabelsBelowCount(cells, ls, num);
    SameBucketIffSameLabel(ls, num, c, x, y);
    if y < |cells| {
      CanonicalLabelPartition(cells, x, y);
      assert ls[x] == CanonicalLabel(cells, x) && ls[y] == CanonicalLabel(cells, y);
    }
  }

  /** Every cell sits in the cluster of its own id, no cluster is empty,
      and the cluster sizes add up to the number of cells. */
  lemma ClustersCoverCells(cells: seq<Cell>)
    ensures var clusters := Buckets(CanonicalLabels(cells), ClusterCount(cells));
      && (forall x :: 0 <= x < |cells| ==>
            CanonicalLabels(cells)[x] < |clusters| && x in clusters[CanonicalLabels(cells)[x]])
      && (forall c :: 0 <= c < |clusters| ==> clusters[c] != [])
      && TotalSize(clusters) == |cells|
  {
    var ls, num := CanonicalLabels(cells), ClusterCount(cells);
    CanonicalLabelDense(cells);
    BucketsPartition(ls, num);
    var clusters := Buckets(ls, num);
    forall c | 0 <= c < num
      ensures clusters[c] != []
    {
      assert c in ls;
      var k :| 0 <= k < |ls| && ls[k] == c;
      assert k in clusters[c];
    }
  }

  // ---------------------------------------------------------------------
  // Only module and channel0 matter
  // ---------------------------------------------------------------------

  /** Two cell sequences that agree cell by cell on module and channel0;
      channel1 and the signal may differ. */
  ghost predicate SameModulesAndChannel0(a: seq<Cell>, b: seq<Cell>)
  {
    |a| == |b| &&
    forall k :: 0 <= k < |a| ==> a[k].moduleIndex == b[k].moduleIndex && a[k].channel0 == b[k].channel0
  }

  lemma ChainIgnoresChannel1(a: seq<Cell>, b: seq<Cell>, path: seq<nat>)
    requires SameModulesAndChannel0(a, b) && IsChain(a, path)
    ensures IsChain(b, path)
  {
    forall k | 0 <= k < |path| - 1
      ensures IsAdjacent1d(b[path[k]], b[path[k + 1]])
    {
      assert IsAdjacent1d(a[path[k]], a[path[k + 1]]);
    }
  }

  lemma ConnectedIgnoresChannel1(a: seq<Cell>, b: seq<Cell>, x: nat, y: nat)
    requires SameModulesAndChannel0(a, b)
    ensures Connected(a, x, y) <==> Connected(b, x, y)
  {
    if Connected(a, x, y) {
      var path :| IsChain(a, path) && path[0] == x && path[|path| - 1] == y;
      ChainIgnoresChannel1(a, b, path);
    }
    if Connected(b, x, y) {
      var path :| IsChain(b, path) && path[0] == x && path[|path| - 1] == y;
      ChainIgnoresChannel1(b, a, path);
    }
  }

  lemma LeaderStatusIgnoresChannel1(a: seq<Cell>, b: seq<Cell>, r: nat)
    requires SameModulesAndChannel0(a, b)
    ensures IsLeader(a, r) <==> IsLeader(b, r)
  {
    forall q | 0 <= q < r {
      ConnectedIgnoresChannel1(a, b, q, r);
    }
  }

  lemma {:induction false} LeaderFromIgnoresChannel1(a: seq<Cell>, b: seq<Cell>, k: nat, from: nat)
    requires SameModulesAndChannel0(a, b) && from <= k < |a|
    ensures LeaderFrom(a, k, from) == LeaderFrom(b, k, from)
    decreases k - from
  {
    ConnectedIgnoresChannel1(a, b, from, k);
    if from < k {
      LeaderFromIgnoresChannel1(a, b, k, from + 1);
    }
  }

  lemma {:induction false} CountLeadersIgnoresChannel1(a: seq<Cell>, b: seq<Cell>, m: nat)
    requires SameModulesAndChannel0(a, b) && m <= |a|
    ensures CountLeaders(a, m) == CountLeaders(b, m)
  {
    if m > 0 {
      CountLeadersIgnoresChannel1(a, b, m - 1);
      LeaderStatusIgnoresChannel1(a, b, m - 1);
    }
  }

  /** The clusters depend only on each cell's module and channel0:
      changing channel1 (or the signal) of any cell leaves the ids, the
      cluster count and the clusters as they were. */
  lemma ClustersIgnoreChannel1(a: seq<Cell>, b: seq<Cell>)
    requires SameModulesAndChannel0(a, b)
    ensures CanonicalLabels(a) == CanonicalLabels(b)
    ensures ClusterCount(a) == ClusterCount(b)
    ensures Buckets(CanonicalLabels(a), ClusterCount(a)) == Buckets(CanonicalLabels(b), ClusterCount(b))
  {
    CountLeadersIgnoresChannel1(a, b, |a|);
    forall k | 0 <= k < |a|
      ensures CanonicalLabels(a)[k] == CanonicalLabels(b)[k]
    {
      LeaderFromIgnoresChannel1(a, b, k, 0);
      CountLeadersIgnoresChannel1(a, b, Leader(a, k));
    }
  }
}
