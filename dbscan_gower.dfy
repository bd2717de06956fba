/** Density-based clustering (DBSCAN) over per-cell feature vectors with
    an unweighted Gower distance.

    Labels: -1 means not yet classified, 0 means noise, and positive values
    are cluster ids, opened in order from 1. Feature values are modelled as
    exact reals; floating-point rounding is not captured. */
module DbscanGower {
  import opened Wrappers

  /** Clustering parameters: the distance bound and the minimum number of
      points, the point itself included, that makes a neighbourhood dense. */
  datatype Params = Params(eps: real, minPts: nat)

  const Unclassified: int := -1
  const Noise: int := 0

  // ---------------------------------------------------------------------
  // Gower distance
  // ---------------------------------------------------------------------

  function Abs(x: real): real
  {
    if x < 0.0 then -x else x
  }

  /** Sum of the per-dimension absolute differences over the first `m`
      dimensions. */
  function SumAbsDiff(a: seq<real>, b: seq<real>, m: nat): real
    requires m <= |a| && m <= |b|
  {
    if m == 0 then 0.0 else SumAbsDiff(a, b, m - 1) + Abs(a[m - 1] - b[m - 1])
  }

  /** The mean absolute per-dimension difference. With no dimensions the
      source divides 0.0 by 0.0, which gives NaN: `None` stands for it. */
  function Gower(a: seq<real>, b: seq<real>): Option<real>
    requires |a| <= |b|
  {
    if |a| == 0 then None else Some(SumAbsDiff(a, b, |a|) / (|a| as real))
  }

  /** gower_distance: accumulates the absolute differences over the
      dimensions of `a` and divides by their number. */
  method GowerDistance(a: seq<real>, b: seq<real>) returns (d: Option<real>)
    requires |a| <= |b|
    ensures d == Gower(a, b)
  {
    var sum := 0.0;
    var range := |a| as real;
    for i := 0 to |a|
      invariant sum == SumAbsDiff(a, b, i)
    {
      sum := sum + Abs(a[i] - b[i]);
    }
    if range == 0.0 {
      d := None;
    } else {
      d := Some(sum / range);
    }
  }

  lemma {:induction false} SumAbsDiffProperties(a: seq<real>, b: seq<real>, m: nat)
    requires m <= |a| && m <= |b|
    ensures SumAbsDiff(a, b, m) >= 0.0
    ensures SumAbsDiff(a, b, m) == SumAbsDiff(b, a, m)
    ensures SumAbsDiff(a, a, m) == 0.0
    ensures (forall k :: 0 <= k < m ==> 0.0 <= a[k] <= 1.0 && 0.0 <= b[k] <= 1.0) ==>
              SumAbsDiff(a, b, m) <= m as real
  {
    if m > 0 {
      SumAbsDiffProperties(a, b, m - 1);
    }
  }

  /** On non-empty vectors of one length the distance is defined, not
      negative, symmetric and zero from a vector to itself; on features
      normalised to [0, 1] it is at most 1. */
  lemma GowerIsDissimilarity(a: seq<real>, b: seq<real>)
    requires |a| == |b| > 0
    ensures Gower(a, b).Some? && Gower(a, b).value >= 0.0
    ensures Gower(a, b) == Gower(b, a)
    ensures Gower(a, a) == Some(0.0)
    ensures (forall k :: 0 <= k < |a| ==> 0.0 <= a[k] <= 1.0 && 0.0 <= b[k] <= 1.0) ==>
              Gower(a, b).value <= 1.0
  {
    SumAbsDiffProperties(a, b, |a|);
    MeanBounds(SumAbsDiff(a, b, |a|), |a| as real);
  }

  /** A sum in [0, n] divided by n lies in [0, 1]. */
  lemma MeanBounds(sum: real, n: real)
    requires sum >= 0.0 && n > 0.0
    ensures sum / n >= 0.0
    ensures sum <= n ==> sum / n <= 1.0
  {
    var d := sum / n;
    assert d * n == sum;
  }

  /** Vectors without dimensions have no defined distance. */
  lemma GowerOfEmptyIsUndefined(a: seq<real>, b: seq<real>)
    requires |a| == 0
    ensures Gower(a, b) == None
  {
  }

  // ---------------------------------------------------------------------
  // Neighbourhoods
  // ---------------------------------------------------------------------

  /** One feature vector per cell, all of one length (the distance reads
      the second vector at every index of the first). */
  ghost predicate Rectangular(features: seq<seq<real>>)
  {
    forall i, j :: 0 <= i < |features| && 0 <= j < |features| ==> |features[i]| == |features[j]|
  }

  /** Point `j` lies within `eps` of point `i`; an undefined (NaN) distance
      is never within. */
  predicate Within(features: seq<seq<real>>, eps: real, i: nat, j: nat)
    requires i < |features| && j < |features| && |features[i]| <= |features[j]|
  {
    var d := Gower(features[i], features[j]);
    d.Some? && d.value <= eps
  }

  lemma WithinIsSymmetric(features: seq<seq<real>>, eps: real, i: nat, j: nat)
    requires Rectangular(features) && i < |features| && j < |features|
    ensures Within(features, eps, i, j) == Within(features, eps, j, i)
  {
    if |features[i]| > 0 {
      GowerIsDissimilarity(features[i], features[j]);
    }
  }

  /** The points below `m` within `eps` of point `i`, in increasing order. */
  function Neighbours(features: seq<seq<real>>, eps: real, i: nat, m: nat): seq<nat>
    requires Rectangular(features) && i < |features| && m <= |features|
  {
    if m == 0 then []
    else Neighbours(features, eps, i, m - 1) + (if Within(features, eps, i, m - 1) then [m - 1] else [])
  }

  lemma {:induction false} NeighboursMembers(features: seq<seq<real>>, eps: real, i: nat, m: nat)
    requires Rectangular(features) && i < |features| && m <= |features|
    ensures forall j :: j in Neighbours(features, eps, i, m) <==> 0 <= j < m && Within(features, eps, i, j)
  {
    if m > 0 {
      NeighboursMembers(features, eps, i, m - 1);
    }
  }

  /** A point is its own neighbour exactly when its distance is defined
      (it has dimensions) and eps is not negative. */
  lemma SelfIsNeighbour(features: seq<seq<real>>, eps: real, i: nat, m: nat)
    requires Rectangular(features) && i < m <= |features|
    ensures i in Neighbours(features, eps, i, m) <==> |features[i]| > 0 && eps >= 0.0
  {
    NeighboursMembers(features, eps, i, m);
    if |features[i]| > 0 {
      GowerIsDissimilarity(features[i], features[i]);
    }
  }

  /** A core point has at least minPts points, itself included, within eps. */
  ghost predicate IsCore(features: seq<seq<real>>, params: Params, i: nat)
    requires Rectangular(features) && i < |features|
  {
    |Neighbours(features, params.eps, i, |features|)| >= params.minPts
  }

  /** The neighbourhood scan: every point within eps of point `i`, in
      index order. */
  method FindNeighbours(features: seq<seq<real>>, eps: real, i: nat) returns (neighbours: seq<nat>)
    requires Rectangular(features) && i < |features|
    ensures neighbours == Neighbours(features, eps, i, |features|)
    ensures forall j :: j in neighbours <==> 0 <= j < |features| && Within(features, eps, i, j)
  {
    neighbours := [];
    for j := 0 to |features|
      invariant neighbours == Neighbours(features, eps, i, j)
    {
      var d := GowerDistance(features[i], features[j]);
      if d.Some? && d.value <= eps {
        neighbours := neighbours + [j];
      }
    }
    NeighboursMembers(features, eps, i, |features|);
  }

  // ---------------------------------------------------------------------
  // The label state machine
  // ---------------------------------------------------------------------

  /** Number of entries still unclassified. */
  function CountUnclassified(s: seq<int>): nat
  {
    if s == [] then 0 else (if s[0] == Unclassified then 1 else 0) + CountUnclassified(s[1..])
  }

  lemma {:induction false} CountUnclassifiedUpdate(s: seq<int>, k: nat, v: int)
    requires k < |s|
    ensures CountUnclassified(s[k := v]) ==
            CountUnclassified(s) - (if s[k] == Unclassified then 1 else 0) + (if v == Unclassified then 1 else 0)
  {
    if k > 0 {
      assert s[k := v][1..] == s[1..][k - 1 := v];
      CountUnclassifiedUpdate(s[1..], k - 1, v);
    }
  }


  /** Labels only move forward: an unclassified point may become anything,
      noise may become a cluster id, and a cluster id never changes. */
  ghost predicate Advanced(before: seq<int>, after: seq<int>)
  {
    |before| == |after| &&
    forall k :: 0 <= k < |before| ==>
      before[k] == after[k] || before[k] == Unclassified || (before[k] == Noise && after[k] > 0)
  }

  /** Labels have moved forward, and every entry that changed now holds
      the cluster id `id`. */
  ghost predicate AdvancedTo(before: seq<int>, after: seq<int>, id: int)
  {
    && |before| == |after|
    && Advanced(before, after)
    && (forall k :: 0 <= k < |before| && before[k] != after[k] ==> after[k] == id)
  }

  lemma AdvancedToIsTransitive(a: seq<int>, b: seq<int>, c: seq<int>, id: int)
    requires AdvancedTo(a, b, id) && AdvancedTo(b, c, id)
    ensures AdvancedTo(a, c, id)
  {
  }

  /** Every point within eps of a clustered core point is clustered or
      still waiting in the queue. */
  ghost predicate FrontierQueued(features: seq<seq<real>>, params: Params, labels: seq<int>, q: seq<nat>)
    requires Rectangular(features) && |labels| == |features|
  {
    forall k, j ::
      (0 <= k < |labels| && 0 <= j < |labels| && labels[k] > 0 &&
       IsCore(features, params, k) && Within(features, params.eps, k, j)) ==> labels[j] > 0 || j in q
  }

  /** Two core points within eps of each other carry one cluster id, unless
      the first belongs to the cluster `open` being expanded and the second
      is not classified yet. */
  ghost predicate CoresAgree(features: seq<seq<real>>, params: Params, labels: seq<int>, open: int)
    requires Rectangular(features) && |labels| == |features|
  {
    forall k, j ::
      (0 <= k < |labels| && 0 <= j < |labels| && labels[k] > 0 &&
       IsCore(features, params, k) && IsCore(features, params, j) && Within(features, params.eps, k, j)) ==>
        labels[j] == labels[k] || (labels[k] == open && labels[j] == Unclassified)
  }

  /** Only non-core points are noise. */
  ghost predicate NoiseIsNotCore(features: seq<seq<real>>, params: Params, labels: seq<int>)
    requires Rectangular(features) && |labels| == |features|
  {
    forall k :: 0 <= k < |labels| && labels[k] == Noise ==> !IsCore(features, params, k)
  }

  // ---------------------------------------------------------------------
  // Reachability and density-connection
  // ---------------------------------------------------------------------

  /** Point `j` lies within eps of a core point labelled `id`. */
  ghost predicate Reached(features: seq<seq<real>>, params: Params, labels: seq<int>, j: nat, id: int)
    requires Rectangular(features) && |labels| == |features| && j < |labels|
  {
    exists c :: 0 <= c < |labels| && labels[c] == id && IsCore(features, params, c) && Within(features, params.eps, c, j)
  }

  /** Every clustered point is a core point or lies within eps of a core
      point of its own cluster. */
  ghost predicate ClusteredAreReached(features: seq<seq<real>>, params: Params, labels: seq<int>)
    requires Rectangular(features) && |labels| == |features|
  {
    forall k :: 0 <= k < |labels| && labels[k] > 0 ==>
      IsCore(features, params, k) || Reached(features, params, labels, k, labels[k])
  }

  /** Every queued point lies within eps of a core point of cluster `open`:
      the queue is only ever filled with the neighbours of such a point. */
  ghost predicate QueueReached(features: seq<seq<real>>, params: Params, labels: seq<int>, q: seq<nat>, open: int)
    requires Rectangular(features) && |labels| == |features|
  {
    forall x :: 0 <= x < |q| ==> q[x] < |labels| && Reached(features, params, labels, q[x], open)
  }

  /** `path` walks through core points, each within eps of the next. */
  ghost predicate IsCorePath(features: seq<seq<real>>, params: Params, path: seq<nat>)
    requires Rectangular(features)
  {
    && (forall x :: 0 <= x < |path| ==> path[x] < |features| && IsCore(features, params, path[x]))
    && (forall x :: 0 <= x < |path| - 1 ==> Within(features, params.eps, path[x], path[x + 1]))
  }

  /** Core points `k` and `j` are density-connected: a core path leads from
      one to the other. */
  ghost predicate CoreConnected(features: seq<seq<real>>, params: Params, k: nat, j: nat)
    requires Rectangular(features)
  {
    exists path :: |path| > 0 && path[0] == k && path[|path| - 1] == j && IsCorePath(features, params, path)
  }

  /** Every clustered core point is density-connected to the point that
      opened its cluster, `seeds[id - 1]` for cluster id `id`. */
  ghost predicate CoresLinked(features: seq<seq<real>>, params: Params, labels: seq<int>, seeds: seq<nat>)
    requires Rectangular(features) && |labels| == |features|
  {
    forall k :: 0 <= k < |labels| && labels[k] > 0 && IsCore(features, params, k) ==>
      labels[k] <= |seeds| && CoreConnected(features, params, seeds[labels[k] - 1], k)
  }

  lemma CoreConnectedReflexive(features: seq<seq<real>>, params: Params, k: nat)
    requires Rectangular(features) && k < |features| && IsCore(features, params, k)
    ensures CoreConnected(features, params, k, k)
  {
    assert IsCorePath(features, params, [k]);
  }

  /** A core path extends by one core point within eps of its end. */
  lemma CoreConnectedExtend(features: seq<seq<real>>, params: Params, k: nat, c: nat, j: nat)
    requires Rectangular(features) && c < |features| && j < |features|
    requires CoreConnected(features, params, k, c)
    requires IsCore(features, params, j) && Within(features, params.eps, c, j)
    ensures CoreConnected(features, params, k, j)
  {
    var p :| |p| > 0 && p[0] == k && p[|p| - 1] == c && IsCorePath(features, params, p);
    var r := p + [j];
    forall x | 0 <= x < |r|
      ensures r[x] < |features| && IsCore(features, params, r[x])
    {
      if x < |p| {
        assert r[x] == p[x];
      }
    }
    forall x | 0 <= x < |r| - 1
      ensures Within(features, params.eps, r[x], r[x + 1])
    {
      if x < |p| - 1 {
        assert r[x] == p[x] && r[x + 1] == p[x + 1];
      }
    }
    assert r[0] == k && r[|r| - 1] == j;
    assert IsCorePath(features, params, r);
  }

  /** A core path read backwards is a core path, since "within eps" is
      symmetric. */
  lemma CoreConnectedSymmetric(features: seq<seq<real>>, params: Params, k: nat, j: nat)
    requires Rectangular(features)
    requires CoreConnected(features, params, k, j)
    ensures CoreConnected(features, params, j, k)
  {
    var p :| |p| > 0 && p[0] == k && p[|p| - 1] == j && IsCorePath(features, params, p);
    var r := seq(|p|, x requires 0 <= x < |p| => p[|p| - 1 - x]);
    forall x | 0 <= x < |r| - 1
      ensures Within(features, params.eps, r[x], r[x + 1])
    {
      var y := |p| - 2 - x;
      assert r[x] == p[y + 1] && r[x + 1] == p[y];
      WithinIsSymmetric(features, params.eps, p[y], p[y + 1]);
    }
    assert IsCorePath(features, params, r);
  }

  /** Two core paths that meet join into one. */
  lemma CoreConnectedTransitive(features: seq<seq<real>>, params: Params, k: nat, c: nat, j: nat)
    requires Rectangular(features)
    requires CoreConnected(features, params, k, c) && CoreConnected(features, params, c, j)
    ensures CoreConnected(features, params, k, j)
  {
    var p :| |p| > 0 && p[0] == k && p[|p| - 1] == c && IsCorePath(features, params, p);
    var p2 :| |p2| > 0 && p2[0] == c && p2[|p2| - 1] == j && IsCorePath(features, params, p2);
    var r := p + p2[1..];
    forall x | 0 <= x < |r| - 1
      ensures Within(features, params.eps, r[x], r[x + 1])
    {
      if x < |p| - 1 {
        assert r[x] == p[x] && r[x + 1] == p[x + 1];
      } else {
        var y := x - (|p| - 1);
        assert r[x] == p2[y] && r[x + 1] == p2[y + 1];
      }
    }
    assert r[|r| - 1] == j;
    assert IsCorePath(features, params, r);
  }

  /** A write to a point that holds no cluster id keeps every witness of
      reachability from a cluster. */
  lemma ReachedAfterWrite(features: seq<seq<real>>, params: Params, labels: seq<int>, idx: nat, v: int,
                          j: nat, id: int)
    requires Rectangular(features) && |labels| == |features| && idx < |labels| && j < |labels|
    requires labels[idx] <= 0 && id > 0
    requires Reached(features, params, labels, j, id)
    ensures Reached(features, params, labels[idx := v], j, id)
  {
    var c :| 0 <= c < |labels| && labels[c] == id && IsCore(features, params, c) && Within(features, params.eps, c, j);
    assert labels[idx := v][c] == id;
  }

  lemma ClusteredAreReachedAfterWrite(features: seq<seq<real>>, params: Params, labels: seq<int>, idx: nat, v: int)
    requires Rectangular(features) && |labels| == |features| && idx < |labels|
    requires labels[idx] <= 0
    requires ClusteredAreReached(features, params, labels)
    requires v > 0 ==> IsCore(features, params, idx) || Reached(features, params, labels, idx, v)
    ensures ClusteredAreReached(features, params, labels[idx := v])
  {
    var l := labels[idx := v];
    forall k | 0 <= k < |l| && l[k] > 0
      ensures IsCore(features, params, k) || Reached(features, params, l, k, l[k])
    {
      if !IsCore(features, params, k) {
        ReachedAfterWrite(features, params, labels, idx, v, k, l[k]);
      }
    }
  }

  lemma QueueReachedAfterWrite(features: seq<seq<real>>, params: Params, labels: seq<int>, idx: nat, v: int,
                               q: seq<nat>, open: int)
    requires Rectangular(features) && |labels| == |features| && idx < |labels|
    requires labels[idx] <= 0 && open > 0
    requires QueueReached(features, params, labels, q, open)
    ensures QueueReached(features, params, labels[idx := v], q, open)
  {
    forall x | 0 <= x < |q|
      ensures Reached(features, params, labels[idx := v], q[x], open)
    {
      ReachedAfterWrite(features, params, labels, idx, v, q[x], open);
    }
  }

  /** The neighbours of a core point labelled `open` are reached from
      cluster `open`, so the queue stays reached when they are appended. */
  lemma QueueReachedAppend(features: seq<seq<real>>, params: Params, labels: seq<int>, q: seq<nat>,
                           idx: nat, open: int, neighbours: seq<nat>)
    requires Rectangular(features) && |labels| == |features| && idx < |labels|
    requires labels[idx] == open && IsCore(features, params, idx)
    requires forall j :: j in neighbours <==> 0 <= j < |features| && Within(features, params.eps, idx, j)
    requires QueueReached(features, params, labels, q, open)
    ensures QueueReached(features, params, labels, q + neighbours, open)
  {
    forall x | 0 <= x < |q + neighbours|
      ensures (q + neighbours)[x] < |labels| && Reached(features, params, labels, (q + neighbours)[x], open)
    {
      if x >= |q| {
        assert (q + neighbours)[x] == neighbours[x - |q|] && neighbours[x - |q|] in neighbours;
      }
    }
  }

  lemma LinkedAfterWrite(features: seq<seq<real>>, params: Params, labels: seq<int>, seeds: seq<nat>,
                         idx: nat, v: int)
    requires Rectangular(features) && |labels| == |features| && idx < |labels|
    requires labels[idx] <= 0
    requires CoresLinked(features, params, labels, seeds)
    requires v > 0 && IsCore(features, params, idx) ==>
               v <= |seeds| && CoreConnected(features, params, seeds[v - 1], idx)
    ensures CoresLinked(features, params, labels[idx := v], seeds)
  {
  }

  /** A core point reached from cluster `open` is density-connected to the
      point that opened it. */
  lemma LinkReached(features: seq<seq<real>>, params: Params, labels: seq<int>, seeds: seq<nat>,
                    idx: nat, open: int)
    requires Rectangular(features) && |labels| == |features| && idx < |labels|
    requires 0 < open <= |seeds|
    requires CoresLinked(features, params, labels, seeds)
    requires Reached(features, params, labels, idx, open) && IsCore(features, params, idx)
    ensures CoreConnected(features, params, seeds[open - 1], idx)
  {
    var c :| 0 <= c < |labels| && labels[c] == open && IsCore(features, params, c) &&
             Within(features, params.eps, c, idx);
    CoreConnectedExtend(features, params, seeds[open - 1], c, idx);
  }

  // ---------------------------------------------------------------------
  // Transitions of the label state machine
  // ---------------------------------------------------------------------

  /** Marking a sparse, unclassified point as noise keeps the invariants. */
  lemma MarkNoiseStep(features: seq<seq<real>>, params: Params, labels: seq<int>, i: nat, open: int)
    requires Rectangular(features) && |labels| == |features| && i < |labels|
    requires labels[i] == Unclassified && !IsCore(features, params, i)
    requires NoiseIsNotCore(features, params, labels) && FrontierQueued(features, params, labels, [])
    requires CoresAgree(features, params, labels, open)
    ensures NoiseIsNotCore(features, params, labels[i := Noise])
    ensures FrontierQueued(features, params, labels[i := Noise], [])
    ensures CoresAgree(features, params, labels[i := Noise], open)
  {
  }

  /** Promoting a dequeued noise point to the open cluster keeps the
      invariants: a noise point is not core, so it owes no neighbours. */
  lemma PromoteNoiseStep(features: seq<seq<real>>, params: Params, labels: seq<int>, idx: nat,
                         q: seq<nat>, open: int)
    requires Rectangular(features) && |labels| == |features| && idx < |labels|
    requires labels[idx] == Noise && open > 0
    requires NoiseIsNotCore(features, params, labels)
    requires FrontierQueued(features, params, labels, [idx] + q)
    requires CoresAgree(features, params, labels, open)
    ensures NoiseIsNotCore(features, params, labels[idx := open])
    ensures FrontierQueued(features, params, labels[idx := open], q)
    ensures CoresAgree(features, params, labels[idx := open], open)
  {
    var l := labels[idx := open];
    forall k, j | 0 <= k < |l| && 0 <= j < |l| && l[k] > 0 &&
                  IsCore(features, params, k) && Within(features, params.eps, k, j)
      ensures l[j] > 0 || j in q
    {
      assert k != idx;
      if j != idx {
        assert labels[j] > 0 || j in [idx] + q;
      }
    }
  }

  /** A dequeued point that is already clustered needs nothing more. */
  lemma SkipClusteredStep(features: seq<seq<real>>, params: Params, labels: seq<int>, idx: nat, q: seq<nat>)
    requires Rectangular(features) && |labels| == |features| && idx < |labels|
    requires labels[idx] > 0
    requires FrontierQueued(features, params, labels, [idx] + q)
    ensures FrontierQueued(features, params, labels, q)
  {
    forall k, j | 0 <= k < |labels| && 0 <= j < |labels| && labels[k] > 0 &&
                  IsCore(features, params, k) && Within(features, params.eps, k, j)
      ensures labels[j] > 0 || j in q
    {
      assert labels[j] > 0 || j in [idx] + q;
    }
  }

  /** Claiming an unclassified point for the open cluster keeps the
      invariants once, if it is core, all its neighbours are queued. */
  lemma ClaimStep(features: seq<seq<real>>, params: Params, labels: seq<int>, idx: nat,
                  q: seq<nat>, open: int, neighbours: seq<nat>)
    requires Rectangular(features) && |labels| == |features| && idx < |labels|
    requires labels[idx] == Unclassified && open > 0
    requires neighbours == Neighbours(features, params.eps, idx, |features|)
    requires forall j :: j in neighbours <==> 0 <= j < |features| && Within(features, params.eps, idx, j)
    requires NoiseIsNotCore(features, params, labels)
    requires forall k :: 0 <= k < |labels| ==> labels[k] >= Unclassified
    requires FrontierQueued(features, params, labels, [idx] + q)
    requires CoresAgree(features, params, labels, open)
    ensures NoiseIsNotCore(features, params, labels[idx := open])
    ensures FrontierQueued(features, params, labels[idx := open],
                           if |neighbours| >= params.minPts then q + neighbours else q)
    ensures CoresAgree(features, params, labels[idx := open], open)
  {
    ClaimKeepsFrontier(features, params, labels, idx, q, open, neighbours);
    ClaimKeepsCoresAgree(features, params, labels, idx, open);
  }

  lemma ClaimKeepsFrontier(features: seq<seq<real>>, params: Params, labels: seq<int>, idx: nat,
                           q: seq<nat>, open: int, neighbours: seq<nat>)
    requires Rectangular(features) && |labels| == |features| && idx < |labels|
    requires open > 0
    requires neighbours == Neighbours(features, params.eps, idx, |features|)
    requires forall j :: j in neighbours <==> 0 <= j < |features| && Within(features, params.eps, idx, j)
    requires FrontierQueued(features, params, labels, [idx] + q)
    ensures FrontierQueued(features, params, labels[idx := open],
                           if |neighbours| >= params.minPts then q + neighbours else q)
  {
    var l := labels[idx := open];
    var q' := if |neighbours| >= params.minPts then q + neighbours else q;
    forall k, j | 0 <= k < |l| && 0 <= j < |l| && l[k] > 0 &&
                  IsCore(features, params, k) && Within(features, params.eps, k, j)
      ensures l[j] > 0 || j in q'
    {
      if k == idx {
        assert j in neighbours;
      } else if j != idx {
        assert labels[k] > 0;
        assert labels[j] > 0 || j in [idx] + q;
      }
    }
  }

  lemma ClaimKeepsCoresAgree(features: seq<seq<real>>, params: Params, labels: seq<int>, idx: nat, open: int)
    requires Rectangular(features) && |labels| == |features| && idx < |labels|
    requires labels[idx] == Unclassified && open > 0
    requires forall k :: 0 <= k < |labels| ==> labels[k] >= Unclassified
    requires NoiseIsNotCore(features, params, labels)
    requires CoresAgree(features, params, labels, open)
    ensures CoresAgree(features, params, labels[idx := open], open)
  {
    var l := labels[idx := open];
    forall k, j | 0 <= k < |l| && 0 <= j < |l| && l[k] > 0 &&
                  IsCore(features, params, k) && IsCore(features, params, j) &&
                  Within(features, params.eps, k, j)
      ensures l[j] == l[k] || (l[k] == open && l[j] == Unclassified)
    {
      if k == idx && j != idx {
        if labels[j] > 0 {
          WithinIsSymmetric(features, params.eps, k, j);
          assert labels[idx] == labels[j] || (labels[j] == open && labels[idx] == Unclassified);
        } else {
          assert labels[j] != Noise;
        }
      } else if k != idx {
        assert labels[j] == labels[k] || (labels[k] == open && labels[j] == Unclassified);
      }
    }
  }

  /** When the queue runs dry, the open cluster is complete: every core
      point within eps of a clustered core point shares its id. */
  lemma CloseClusterStep(features: seq<seq<real>>, params: Params, labels: seq<int>, open: int)
    requires Rectangular(features) && |labels| == |features|
    requires FrontierQueued(features, params, labels, [])
    requires CoresAgree(features, params, labels, open)
    ensures CoresAgree(features, params, labels, open + 1)
  {
  }

  // ---------------------------------------------------------------------
  // Expansion of one cluster
  // ---------------------------------------------------------------------

  /** The breadth-first expansion of cluster `open` from the queue `q0`:
      dequeues a point, promotes it from noise, skips it if classified, and
      otherwise claims it and, when it is core, queues its neighbours. On
      return every point within eps of a clustered core point is
      clustered, every label that changed now holds `open`, every point of
      the cluster is core or within eps of one of its core points, and
      every core point of it is density-connected to the point that opened
      it. */
  method ExpandCluster(features: seq<seq<real>>, params: Params, labels: array<int>, open: int, q0: seq<nat>,
                       ghost seeds: seq<nat>)
    requires Rectangular(features) && labels.Length == |features| && open > 0
    requires Expanding(features, params, labels[..], labels[..], q0, open, seeds)
    modifies labels
    ensures Expanding(features, params, old(labels[..]), labels[..], [], open, seeds)
  {
    var q: seq<nat> := q0;
    while q != []
      invariant Expanding(features, params, old(labels[..]), labels[..], q, open, seeds)
      decreases CountUnclassified(labels[..]), |q|
    {
      q := DequeueOne(features, params, labels, open, q, old(labels[..]), seeds);
    }
  }

  /** One turn of the expansion queue: pops the front point; promotes it
      to the open cluster if it is noise and skips it if it is (then)
      clustered; otherwise claims it and, when it is core, appends its
      neighbours. Either a point stops being unclassified or the queue
      gets shorter. */
  method DequeueOne(features: seq<seq<real>>, params: Params, labels: array<int>, open: int, q: seq<nat>,
                    ghost origin: seq<int>, ghost seeds: seq<nat>)
    returns (q': seq<nat>)
    requires Rectangular(features) && labels.Length == |features| && open > 0 && q != []
    requires Expanding(features, params, origin, labels[..], q, open, seeds)
    modifies labels
    ensures Expanding(features, params, origin, labels[..], q', open, seeds)
    ensures CountUnclassified(labels[..]) < CountUnclassified(old(labels[..])) ||
            (CountUnclassified(labels[..]) == CountUnclassified(old(labels[..])) && |q'| < |q|)
    ensures labels[..] == if old(labels[q[0]]) == Noise || old(labels[q[0]]) == Unclassified
                          then old(labels[..])[q[0] := open] else old(labels[..])
    ensures q' == if old(labels[q[0]]) == Unclassified && IsCore(features, params, q[0])
                  then q[1..] + Neighbours(features, params.eps, q[0], |features|) else q[1..]
  {
    var idx := q[0];
    assert q == [idx] + q[1..];
    q' := q[1..];
    if labels[idx] == Noise {
      // promoted to the open cluster, and so skipped as clustered
      DequeueNoise(features, params, origin, labels[..], idx, q', open, seeds);
      labels[idx] := open;
      return;
    }
    if labels[idx] != Unclassified {
      DequeueClustered(features, params, origin, labels[..], idx, q', open, seeds);
      return;
    }
    var nNeighbours := FindNeighbours(features, params.eps, idx);
    DequeueUnclassified(features, params, origin, labels[..], idx, q', open, nNeighbours, seeds);
    labels[idx] := open;
    if |nNeighbours| >= params.minPts {
      q' := q' + nNeighbours;
    }
  }

  /** The state of an expansion of cluster `open` that started from the
      labels `origin` and has the queue `q` left to process; `seeds[c]` is
      the point that opened cluster c + 1. */
  ghost predicate Expanding(features: seq<seq<real>>, params: Params, origin: seq<int>, labels: seq<int>,
                            q: seq<nat>, open: int, seeds: seq<nat>)
    requires Rectangular(features) && |labels| == |features|
  {
    ExpandingLabels(features, params, origin, labels, q, open) && ExpandingReach(features, params, labels, q, open, seeds)
  }

  /** The label part: the queue is in range, labels lie between
      unclassified and `open`, only `open` has been written, and the
      frontier and core-agreement invariants hold. */
  ghost predicate ExpandingLabels(features: seq<seq<real>>, params: Params, origin: seq<int>, labels: seq<int>,
                                  q: seq<nat>, open: int)
    requires Rectangular(features) && |labels| == |features|
  {
    && (forall x :: 0 <= x < |q| ==> q[x] < |labels|)
    && (forall k :: 0 <= k < |labels| ==> Unclassified <= labels[k] <= open)
    && AdvancedTo(origin, labels, open)
    && NoiseIsNotCore(features, params, labels)
    && FrontierQueued(features, params, labels, q)
    && CoresAgree(features, params, labels, open)
  }

  /** The reachability part: queued and clustered points are reached from
      their cluster's core points, which are linked to their seeds. */
  ghost predicate ExpandingReach(features: seq<seq<real>>, params: Params, labels: seq<int>,
                                 q: seq<nat>, open: int, seeds: seq<nat>)
    requires Rectangular(features) && |labels| == |features|
  {
    && QueueReached(features, params, labels, q, open)
    && ClusteredAreReached(features, params, labels)
    && |seeds| == open
    && CoresLinked(features, params, labels, seeds)
  }

  /** A dequeued noise point is promoted to the open cluster, after which
      it is clustered and dropped; the count of unclassified points stays. */
  lemma DequeueNoise(features: seq<seq<real>>, params: Params, origin: seq<int>, labels: seq<int>,
                     idx: nat, q: seq<nat>, open: int, seeds: seq<nat>)
    requires Rectangular(features) && |labels| == |features| && open > 0
    requires Expanding(features, params, origin, labels, [idx] + q, open, seeds)
    requires idx < |labels| && labels[idx] == Noise
    ensures Expanding(features, params, origin, labels[idx := open], q, open, seeds)
    ensures CountUnclassified(labels[idx := open]) == CountUnclassified(labels)
  {
    DequeueNoiseLabels(features, params, origin, labels, idx, q, open);
    DequeueNoiseReach(features, params, labels, idx, q, open, seeds);
    CountUnclassifiedUpdate(labels, idx, open);
  }

  lemma DequeueNoiseLabels(features: seq<seq<real>>, params: Params, origin: seq<int>, labels: seq<int>,
                           idx: nat, q: seq<nat>, open: int)
    requires Rectangular(features) && |labels| == |features| && open > 0
    requires ExpandingLabels(features, params, origin, labels, [idx] + q, open)
    requires idx < |labels| && labels[idx] == Noise
    ensures ExpandingLabels(features, params, origin, labels[idx := open], q, open)
  {
    PromoteNoiseStep(features, params, labels, idx, q, open);
    WriteOpenAdvances(origin, labels, idx, open);
    assert forall x :: 0 <= x < |q| ==> q[x] == ([idx] + q)[x + 1];
  }

  lemma DequeueNoiseReach(features: seq<seq<real>>, params: Params, labels: seq<int>,
                          idx: nat, q: seq<nat>, open: int, seeds: seq<nat>)
    requires Rectangular(features) && |labels| == |features| && open > 0
    requires ExpandingReach(features, params, labels, [idx] + q, open, seeds)
    requires NoiseIsNotCore(features, params, labels)
    requires idx < |labels| && labels[idx] == Noise
    ensures ExpandingReach(features, params, labels[idx := open], q, open, seeds)
  {
    assert ([idx] + q)[0] == idx;
    assert forall x :: 0 <= x < |q| ==> q[x] == ([idx] + q)[x + 1];
    QueueReachedAfterWrite(features, params, labels, idx, open, q, open);
    ClusteredAreReachedAfterWrite(features, params, labels, idx, open);
    LinkedAfterWrite(features, params, labels, seeds, idx, open);
  }

  /** A dequeued point that is already clustered is dropped. */
  lemma DequeueClustered(features: seq<seq<real>>, params: Params, origin: seq<int>, labels: seq<int>,
                         idx: nat, q: seq<nat>, open: int, seeds: seq<nat>)
    requires Rectangular(features) && |labels| == |features|
    requires Expanding(features, params, origin, labels, [idx] + q, open, seeds)
    requires idx < |labels| && labels[idx] != Noise && labels[idx] != Unclassified
    ensures Expanding(features, params, origin, labels, q, open, seeds)
  {
    DequeueClusteredLabels(features, params, origin, labels, idx, q, open);
    DequeueClusteredReach(features, params, labels, idx, q, open, seeds);
  }

  lemma DequeueClusteredLabels(features: seq<seq<real>>, params: Params, origin: seq<int>, labels: seq<int>,
                               idx: nat, q: seq<nat>, open: int)
    requires Rectangular(features) && |labels| == |features|
    requires ExpandingLabels(features, params, origin, labels, [idx] + q, open)
    requires idx < |labels| && labels[idx] != Noise && labels[idx] != Unclassified
    ensures ExpandingLabels(features, params, origin, labels, q, open)
  {
    assert forall x :: 0 <= x < |q| ==> q[x] == ([idx] + q)[x + 1];
    SkipClusteredStep(features, params, labels, idx, q);
  }

  lemma DequeueClusteredReach(features: seq<seq<real>>, params: Params, labels: seq<int>,
                              idx: nat, q: seq<nat>, open: int, seeds: seq<nat>)
    requires Rectangular(features) && |labels| == |features|
    requires ExpandingReach(features, params, labels, [idx] + q, open, seeds)
    ensures ExpandingReach(features, params, labels, q, open, seeds)
  {
    assert forall x :: 0 <= x < |q| ==> q[x] == ([idx] + q)[x + 1];
  }

  /** A dequeued unclassified point is claimed for the open cluster, and a
      core one queues its neighbours; one fewer point is unclassified. */
  lemma DequeueUnclassified(features: seq<seq<real>>, params: Params, origin: seq<int>, labels: seq<int>,
                            idx: nat, q: seq<nat>, open: int, neighbours: seq<nat>, seeds: seq<nat>)
    requires Rectangular(features) && |labels| == |features| && open > 0
    requires Expanding(features, params, origin, labels, [idx] + q, open, seeds)
    requires idx < |labels| && labels[idx] == Unclassified
    requires neighbours == Neighbours(features, params.eps, idx, |features|)
    requires forall j :: j in neighbours <==> 0 <= j < |features| && Within(features, params.eps, idx, j)
    ensures Expanding(features, params, origin, labels[idx := open],
                      if |neighbours| >= params.minPts then q + neighbours else q, open, seeds)
    ensures CountUnclassified(labels[idx := open]) < CountUnclassified(labels)
  {
    DequeueUnclassifiedLabels(features, params, origin, labels, idx, q, open, neighbours);
    DequeueUnclassifiedReach(features, params, labels, idx, q, open, neighbours, seeds);
    CountUnclassifiedUpdate(labels, idx, open);
  }

  lemma DequeueUnclassifiedLabels(features: seq<seq<real>>, params: Params, origin: seq<int>, labels: seq<int>,
                                  idx: nat, q: seq<nat>, open: int, neighbours: seq<nat>)
    requires Rectangular(features) && |labels| == |features| && open > 0
    requires ExpandingLabels(features, params, origin, labels, [idx] + q, open)
    requires idx < |labels| && labels[idx] == Unclassified
    requires neighbours == Neighbours(features, params.eps, idx, |features|)
    requires forall j :: j in neighbours <==> 0 <= j < |features| && Within(features, params.eps, idx, j)
    ensures ExpandingLabels(features, params, origin, labels[idx := open],
                            if |neighbours| >= params.minPts then q + neighbours else q, open)
  {
    QueueInRange(|labels|, idx, q, neighbours);
    ClaimStep(features, params, labels, idx, q, open, neighbours);
    WriteOpenAdvances(origin, labels, idx, open);
  }

  /** Dropping the head of an in-range queue, and appending indices below
      `n`, leaves it in range. */
  lemma QueueInRange(n: nat, idx: nat, q: seq<nat>, neighbours: seq<nat>)
    requires forall x :: 0 <= x < |[idx] + q| ==> ([idx] + q)[x] < n
    requires forall j :: j in neighbours ==> j < n
    ensures forall x :: 0 <= x < |q| ==> q[x] < n
    ensures forall x :: 0 <= x < |q + neighbours| ==> (q + neighbours)[x] < n
  {
    assert forall x :: 0 <= x < |q| ==> q[x] == ([idx] + q)[x + 1];
    assert forall x :: 0 <= x < |neighbours| ==> neighbours[x] in neighbours;
  }

  /** Writing the open id over an unclassified or noise point keeps the
      labels advanced towards `open`. */
  lemma WriteOpenAdvances(origin: seq<int>, labels: seq<int>, idx: nat, open: int)
    requires AdvancedTo(origin, labels, open) && idx < |labels| && open > 0
    requires labels[idx] == Unclassified || labels[idx] == Noise
    ensures AdvancedTo(origin, labels[idx := open], open)
  {
  }

  lemma DequeueUnclassifiedReach(features: seq<seq<real>>, params: Params, labels: seq<int>,
                                 idx: nat, q: seq<nat>, open: int, neighbours: seq<nat>, seeds: seq<nat>)
    requires Rectangular(features) && |labels| == |features| && open > 0
    requires ExpandingReach(features, params, labels, [idx] + q, open, seeds)
    requires idx < |labels| && labels[idx] == Unclassified
    requires neighbours == Neighbours(features, params.eps, idx, |features|)
    requires forall j :: j in neighbours <==> 0 <= j < |features| && Within(features, params.eps, idx, j)
    ensures ExpandingReach(features, params, labels[idx := open],
                           if |neighbours| >= params.minPts then q + neighbours else q, open, seeds)
  {
    assert ([idx] + q)[0] == idx;
    assert Reached(features, params, labels, idx, open);
    ClaimKeepsQueueReached(features, params, labels, idx, q, open, neighbours);
    ClaimKeepsLinks(features, params, labels, idx, open, seeds);
  }

  lemma ClaimKeepsQueueReached(features: seq<seq<real>>, params: Params, labels: seq<int>,
                               idx: nat, q: seq<nat>, open: int, neighbours: seq<nat>)
    requires Rectangular(features) && |labels| == |features| && open > 0
    requires QueueReached(features, params, labels, [idx] + q, open)
    requires idx < |labels| && labels[idx] == Unclassified
    requires neighbours == Neighbours(features, params.eps, idx, |features|)
    requires forall j :: j in neighbours <==> 0 <= j < |features| && Within(features, params.eps, idx, j)
    ensures QueueReached(features, params, labels[idx := open],
                         if |neighbours| >= params.minPts then q + neighbours else q, open)
  {
    assert forall x :: 0 <= x < |q| ==> q[x] == ([idx] + q)[x + 1];
    QueueReachedAfterWrite(features, params, labels, idx, open, q, open);
    if |neighbours| >= params.minPts {
      QueueReachedAppend(features, params, labels[idx := open], q, idx, open, neighbours);
    }
  }

  lemma ClaimKeepsLinks(features: seq<seq<real>>, params: Params, labels: seq<int>,
                        idx: nat, open: int, seeds: seq<nat>)
    requires Rectangular(features) && |labels| == |features| && open > 0
    requires idx < |labels| && labels[idx] == Unclassified
    requires Reached(features, params, labels, idx, open)
    requires ClusteredAreReached(features, params, labels)
    requires |seeds| == open && CoresLinked(features, params, labels, seeds)
    ensures ClusteredAreReached(features, params, labels[idx := open])
    ensures CoresLinked(features, params, labels[idx := open], seeds)
  {
    ClusteredAreReachedAfterWrite(features, params, labels, idx, open);
    if IsCore(features, params, idx) {
      LinkReached(features, params, labels, seeds, idx, open);
    }
    LinkedAfterWrite(features, params, labels, seeds, idx, open);
  }

  // ---------------------------------------------------------------------
  // The outer scan
  // ---------------------------------------------------------------------

  /** What a finished run promises:
      - every label is noise or a cluster id no larger than the number of
        points, and ids are used without gaps from 1;
      - no core point is noise, and every point within eps of a core point
        is clustered;
      - every clustered point is a core point or lies within eps of a core
        point of its own cluster;
      - core points within eps of each other share an id, and two core
        points that share an id are density-connected. */
  ghost predicate IsDbscanLabelling(features: seq<seq<real>>, params: Params, result: seq<int>)
    requires Rectangular(features) && |result| == |features|
  {
    && (forall k :: 0 <= k < |result| ==> 0 <= result[k] <= |result|)
    && (forall k :: 0 <= k < |result| && result[k] == Noise ==> !IsCore(features, params, k))
    && (forall k :: 0 <= k < |result| && IsCore(features, params, k) ==> result[k] > 0)
    && (forall k, j ::
          (0 <= k < |result| && 0 <= j < |result| &&
           IsCore(features, params, k) && Within(features, params.eps, k, j)) ==> result[j] > 0)
    && ClusteredAreReached(features, params, result)
    && (forall k, j ::
          (0 <= k < |result| && 0 <= j < |result| &&
           IsCore(features, params, k) && IsCore(features, params, j) &&
           Within(features, params.eps, k, j)) ==> result[k] == result[j])
    && (forall k, j ::
          (0 <= k < |result| && 0 <= j < |result| && result[k] > 0 && result[j] == result[k] &&
           IsCore(features, params, k) && IsCore(features, params, j)) ==> CoreConnected(features, params, k, j))
    && (forall k :: 0 <= k < |result| && result[k] > 1 ==> result[k] - 1 in result)
  }

  /** In any DBSCAN labelling, a point that is not core and lies within eps
      of no core point is noise. */
  lemma UnreachedIsNoise(features: seq<seq<real>>, params: Params, result: seq<int>, j: nat)
    requires Rectangular(features) && |result| == |features| && j < |result|
    requires IsDbscanLabelling(features, params, result)
    requires !IsCore(features, params, j)
    requires forall c :: 0 <= c < |features| && IsCore(features, params, c) ==> !Within(features, params.eps, c, j)
    ensures result[j] == Noise
  {
    assert !Reached(features, params, result, j, result[j]);
  }

  /** In any DBSCAN labelling, two core points within eps of each other
      share one cluster id. */
  lemma CoresWithinShareId(features: seq<seq<real>>, params: Params, result: seq<int>, k: nat, j: nat)
    requires Rectangular(features) && |result| == |features| && k < |result| && j < |result|
    requires IsDbscanLabelling(features, params, result)
    requires IsCore(features, params, k) && IsCore(features, params, j) && Within(features, params.eps, k, j)
    ensures result[k] == result[j] > 0
  {
  }

  /** In any DBSCAN labelling, an id above 1 has its predecessor in use. */
  lemma IdsHaveNoGaps(features: seq<seq<real>>, params: Params, result: seq<int>, k: nat)
    requires Rectangular(features) && |result| == |features| && k < |result|
    requires IsDbscanLabelling(features, params, result)
    ensures result[k] > 1 ==> exists c :: 0 <= c < |result| && result[c] == result[k] - 1
  {
  }

  /** In any DBSCAN labelling, every cluster holds a core point. */
  lemma EveryClusterHasCore(features: seq<seq<real>>, params: Params, result: seq<int>, k: nat)
    requires Rectangular(features) && |result| == |features| && k < |result|
    requires IsDbscanLabelling(features, params, result) && result[k] > 0
    ensures exists c :: 0 <= c < |result| && result[c] == result[k] && IsCore(features, params, c)
  {
    if !IsCore(features, params, k) {
      assert Reached(features, params, result, k, result[k]);
    }
  }

  /** Two points 0.05 apart and one far away, with eps 0.3 and minPts 2. */
  const IsolatedExample: seq<seq<real>> := [[0.0, 0.0], [0.05, 0.05], [10.0, 10.0]]
  const IsolatedParams: Params := Params(0.3, 2)

  /** In the example the first two points are core points within eps of
      each other, and the far point has only itself nearby. */
  lemma IsolatedExampleNeighbourhoods()
    ensures Rectangular(IsolatedExample)
    ensures IsCore(IsolatedExample, IsolatedParams, 0) && IsCore(IsolatedExample, IsolatedParams, 1)
    ensures !IsCore(IsolatedExample, IsolatedParams, 2)
    ensures Within(IsolatedExample, 0.3, 0, 1)
    ensures !Within(IsolatedExample, 0.3, 0, 2) && !Within(IsolatedExample, 0.3, 1, 2)
  {
    var f := IsolatedExample;
    assert Gower(f[0], f[1]) == Some(0.05) && Gower(f[1], f[0]) == Some(0.05);
    assert Gower(f[0], f[0]) == Some(0.0) && Gower(f[1], f[1]) == Some(0.0) && Gower(f[2], f[2]) == Some(0.0);
    assert Gower(f[0], f[2]) == Some(10.0) && Gower(f[1], f[2]) == Some(9.95);
    assert Gower(f[2], f[0]) == Some(10.0) && Gower(f[2], f[1]) == Some(9.95);
    assert Neighbours(f, 0.3, 0, 3) == [0, 1];
    assert Neighbours(f, 0.3, 1, 3) == [0, 1];
    assert Neighbours(f, 0.3, 2, 3) == [2];
  }

  /** Every DBSCAN labelling of the example is [1, 1, 0]: the two close
      points form cluster 1 and the far point is noise. */
  lemma IsolatedPointIsNoise(result: seq<int>)
    requires Rectangular(IsolatedExample) && |result| == 3
    requires IsDbscanLabelling(IsolatedExample, IsolatedParams, result)
    ensures result == [1, 1, 0]
  {
    IsolatedExampleNeighbourhoods();
    forall c | 0 <= c < 3 && IsCore(IsolatedExample, IsolatedParams, c)
      ensures !Within(IsolatedExample, 0.3, c, 2)
    {
    }
    CoresWithinShareId(IsolatedExample, IsolatedParams, result, 0, 1);
    UnreachedIsNoise(IsolatedExample, IsolatedParams, result, 2);
    IdsHaveNoGaps(IsolatedExample, IsolatedParams, result, 0);
  }

  /** Once every point is classified and the invariants of the scan hold
      with no cluster left open, the labels form a DBSCAN labelling. */
  lemma FinishedLabelling(features: seq<seq<real>>, params: Params, labels: seq<int>,
                          next: int, seeds: seq<nat>)
    requires Rectangular(features) && |labels| == |features|
    requires 1 <= next <= |labels| + 1
    requires forall k :: 0 <= k < |labels| ==> Noise <= labels[k] < next
    requires NoiseIsNotCore(features, params, labels)
    requires FrontierQueued(features, params, labels, [])
    requires CoresAgree(features, params, labels, next)
    requires ClusteredAreReached(features, params, labels)
    requires CoresLinked(features, params, labels, seeds)
    requires |seeds| == next - 1
    requires forall c :: 0 <= c < |seeds| ==> seeds[c] < |labels| && labels[seeds[c]] == c + 1
    ensures IsDbscanLabelling(features, params, labels)
  {
    SeedsFillIds(labels, next, seeds);
    SameIdCoresConnected(features, params, labels, seeds);
  }

  /** Cluster c + 1 holds its seed, so every id below a used id is used. */
  lemma SeedsFillIds(labels: seq<int>, next: int, seeds: seq<nat>)
    requires forall k :: 0 <= k < |labels| ==> labels[k] < next
    requires |seeds| == next - 1
    requires forall c :: 0 <= c < |seeds| ==> seeds[c] < |labels| && labels[seeds[c]] == c + 1
    ensures forall k :: 0 <= k < |labels| && labels[k] > 1 ==> labels[k] - 1 in labels
  {
    forall k | 0 <= k < |labels| && labels[k] > 1
      ensures labels[k] - 1 in labels
    {
      var s := seeds[labels[k] - 2];
      assert labels[s] == labels[k] - 1;
    }
  }

  /** Core points linked to one seed are density-connected to each other. */
  lemma SameIdCoresConnected(features: seq<seq<real>>, params: Params, labels: seq<int>, seeds: seq<nat>)
    requires Rectangular(features) && |labels| == |features|
    requires CoresLinked(features, params, labels, seeds)
    ensures forall k, j ::
              (0 <= k < |labels| && 0 <= j < |labels| && labels[k] > 0 && labels[j] == labels[k] &&
               IsCore(features, params, k) && IsCore(features, params, j)) ==> CoreConnected(features, params, k, j)
  {
    forall k, j | 0 <= k < |labels| && 0 <= j < |labels| && labels[k] > 0 && labels[j] == labels[k] &&
                  IsCore(features, params, k) && IsCore(features, params, j)
      ensures CoreConnected(features, params, k, j)
    {
      var s := seeds[labels[k] - 1];
      CoreConnectedSymmetric(features, params, s, k);
      CoreConnectedTransitive(features, params, k, s, j);
    }
  }

  /** What holds after the scan has visited the points below `i`, with
      `next` the next cluster id to open and `seeds[c]` the point that
      opened cluster c + 1. */
  ghost predicate ScanInvariant(features: seq<seq<real>>, params: Params, labels: seq<int>, i: nat,
                                next: int, seeds: seq<nat>)
    requires Rectangular(features) && |labels| == |features|
  {
    && (forall k :: 0 <= k < |labels| ==> Unclassified <= labels[k] < next)
    && (forall k :: 0 <= k < i && k < |labels| ==> labels[k] != Unclassified)
    && NoiseIsNotCore(features, params, labels)
    && FrontierQueued(features, params, labels, [])
    && CoresAgree(features, params, labels, next)
    && ClusteredAreReached(features, params, labels)
    && CoresLinked(features, params, labels, seeds)
    && |seeds| == next - 1
    && (forall c :: 0 <= c < |seeds| ==> seeds[c] < |labels| && labels[seeds[c]] == c + 1)
  }

  /** One step of the outer scan. A point classified earlier is left
      alone; an unclassified point with a sparse neighbourhood becomes
      noise; an unclassified core point opens cluster `clusterId`, and the
      expansion only writes that id, and only to points that were
      unclassified or noise. */
  method VisitPoint(features: seq<seq<real>>, params: Params, labels: array<int>, i: nat,
                    clusterId: int, ghost seeds: seq<nat>)
    returns (nextId: int, ghost seeds': seq<nat>)
    requires Rectangular(features) && labels.Length == |features| && i < labels.Length
    requires 1 <= clusterId <= i + 1
    requires ScanInvariant(features, params, labels[..], i, clusterId, seeds)
    modifies labels
    ensures clusterId <= nextId <= clusterId + 1 && nextId <= i + 2
    ensures ScanInvariant(features, params, labels[..], i + 1, nextId, seeds')
    ensures Advanced(old(labels[..]), labels[..])
    ensures old(labels[i]) != Unclassified ==> nextId == clusterId && labels[..] == old(labels[..])
    ensures old(labels[i]) == Unclassified && !IsCore(features, params, i) ==>
              nextId == clusterId && labels[..] == old(labels[..])[i := Noise]
    ensures old(labels[i]) == Unclassified && IsCore(features, params, i) ==>
              nextId == clusterId + 1 && labels[i] == clusterId &&
              AdvancedTo(old(labels[..]), labels[..], clusterId)
  {
    nextId, seeds' := clusterId, seeds;
    if labels[i] != Unclassified {
      SkipVisit(features, params, labels[..], i, clusterId, seeds);
      return;
    }
    var neighbours := FindNeighbours(features, params.eps, i);
    if |neighbours| < params.minPts {
      NoiseVisit(features, params, labels[..], i, clusterId, seeds);
      labels[i] := Noise;
      return;
    }
    seeds' := GrowCluster(features, params, labels, i, clusterId, seeds, neighbours);
    nextId := clusterId + 1;
  }

  /** A dense, unclassified point opens cluster `open`, which is expanded
      from its neighbours until the queue runs dry; only `open` is written,
      and the scan invariant then holds with the next id. */
  method GrowCluster(features: seq<seq<real>>, params: Params, labels: array<int>, i: nat,
                     open: int, ghost seeds: seq<nat>, neighbours: seq<nat>)
    returns (ghost seeds': seq<nat>)
    requires Rectangular(features) && labels.Length == |features| && i < labels.Length
    requires ScanInvariant(features, params, labels[..], i, open, seeds) && labels[i] == Unclassified
    requires open > 0 && neighbours == Neighbours(features, params.eps, i, |features|)
    requires forall j :: j in neighbours <==> 0 <= j < |features| && Within(features, params.eps, i, j)
    requires |neighbours| >= params.minPts
    modifies labels
    ensures ScanInvariant(features, params, labels[..], i + 1, open + 1, seeds')
    ensures labels[i] == open && AdvancedTo(old(labels[..]), labels[..], open)
  {
    OpenCluster(features, params, labels[..], i, open, seeds, neighbours);
    labels[i] := open;
    seeds' := seeds + [i];
    ghost var before := labels[..];
    ExpandCluster(features, params, labels, open, neighbours, seeds');
    CloseCluster(features, params, before, labels[..], i, open, seeds');
    AdvancedToIsTransitive(old(labels[..]), before, labels[..], open);
  }

  /** A point classified earlier is passed over. */
  lemma SkipVisit(features: seq<seq<real>>, params: Params, labels: seq<int>, i: nat,
                  open: int, seeds: seq<nat>)
    requires Rectangular(features) && |labels| == |features| && i < |labels|
    requires ScanInvariant(features, params, labels, i, open, seeds) && labels[i] != Unclassified
    ensures ScanInvariant(features, params, labels, i + 1, open, seeds)
  {
  }

  /** An unclassified point with a sparse neighbourhood becomes noise. */
  lemma NoiseVisit(features: seq<seq<real>>, params: Params, labels: seq<int>, i: nat,
                   open: int, seeds: seq<nat>)
    requires Rectangular(features) && |labels| == |features| && i < |labels|
    requires ScanInvariant(features, params, labels, i, open, seeds) && labels[i] == Unclassified
    requires !IsCore(features, params, i)
    ensures ScanInvariant(features, params, labels[i := Noise], i + 1, open, seeds)
  {
    MarkNoiseStep(features, params, labels, i, open);
    ClusteredAreReachedAfterWrite(features, params, labels, i, Noise);
    LinkedAfterWrite(features, params, labels, seeds, i, Noise);
  }

  /** An unclassified core point opens cluster `open`: it is labelled, it
      becomes the seed of the cluster, and its neighbours are the queue to
      expand from. */
  lemma OpenCluster(features: seq<seq<real>>, params: Params, labels: seq<int>, i: nat,
                    open: int, seeds: seq<nat>, neighbours: seq<nat>)
    requires Rectangular(features) && |labels| == |features| && i < |labels|
    requires ScanInvariant(features, params, labels, i, open, seeds) && labels[i] == Unclassified
    requires open > 0 && neighbours == Neighbours(features, params.eps, i, |features|)
    requires forall j :: j in neighbours <==> 0 <= j < |features| && Within(features, params.eps, i, j)
    requires |neighbours| >= params.minPts
    ensures AdvancedTo(labels, labels[i := open], open)
    ensures Expanding(features, params, labels[i := open], labels[i := open], neighbours, open, seeds + [i])
    ensures var l := labels[i := open];
      && (forall k :: 0 <= k <= i ==> l[k] != Unclassified)
      && (forall c :: 0 <= c < |seeds + [i]| ==> (seeds + [i])[c] < |l| && l[(seeds + [i])[c]] == c + 1)
  {
    OpenClusterLabels(features, params, labels, i, open, neighbours);
    OpenClusterReach(features, params, labels, i, open, seeds, neighbours);
    OpenClusterSeeds(labels, i, open, seeds);
  }

  lemma OpenClusterSeeds(labels: seq<int>, i: nat, open: int, seeds: seq<nat>)
    requires i < |labels| && labels[i] == Unclassified && |seeds| == open - 1
    requires forall k :: 0 <= k < i ==> labels[k] != Unclassified
    requires forall c :: 0 <= c < |seeds| ==> seeds[c] < |labels| && labels[seeds[c]] == c + 1
    ensures var l := labels[i := open];
      && (forall k :: 0 <= k <= i ==> l[k] != Unclassified)
      && (forall c :: 0 <= c < |seeds + [i]| ==> (seeds + [i])[c] < |l| && l[(seeds + [i])[c]] == c + 1)
  {
    var l := labels[i := open];
    forall c | 0 <= c < |seeds + [i]|
      ensures (seeds + [i])[c] < |l| && l[(seeds + [i])[c]] == c + 1
    {
      if c < |seeds| {
        assert (seeds + [i])[c] == seeds[c] && seeds[c] != i;
      }
    }
  }

  lemma OpenClusterLabels(features: seq<seq<real>>, params: Params, labels: seq<int>, i: nat,
                          open: int, neighbours: seq<nat>)
    requires Rectangular(features) && |labels| == |features| && i < |labels|
    requires labels[i] == Unclassified && open > 0
    requires forall k :: 0 <= k < |labels| ==> Unclassified <= labels[k] < open
    requires NoiseIsNotCore(features, params, labels) && FrontierQueued(features, params, labels, [])
    requires CoresAgree(features, params, labels, open)
    requires neighbours == Neighbours(features, params.eps, i, |features|)
    requires forall j :: j in neighbours <==> 0 <= j < |features| && Within(features, params.eps, i, j)
    requires |neighbours| >= params.minPts
    ensures AdvancedTo(labels, labels[i := open], open)
    ensures ExpandingLabels(features, params, labels[i := open], labels[i := open], neighbours, open)
  {
    assert FrontierQueued(features, params, labels, [i] + []);
    ClaimStep(features, params, labels, i, [], open, neighbours);
    assert [] + neighbours == neighbours;
    assert forall x :: 0 <= x < |neighbours| ==> neighbours[x] in neighbours;
  }

  lemma OpenClusterReach(features: seq<seq<real>>, params: Params, labels: seq<int>, i: nat,
                         open: int, seeds: seq<nat>, neighbours: seq<nat>)
    requires Rectangular(features) && |labels| == |features| && i < |labels|
    requires labels[i] == Unclassified && open > 0 && |seeds| == open - 1
    requires forall k :: 0 <= k < |labels| ==> labels[k] < open
    requires ClusteredAreReached(features, params, labels) && CoresLinked(features, params, labels, seeds)
    requires neighbours == Neighbours(features, params.eps, i, |features|)
    requires forall j :: j in neighbours <==> 0 <= j < |features| && Within(features, params.eps, i, j)
    requires |neighbours| >= params.minPts
    ensures ExpandingReach(features, params, labels[i := open], neighbours, open, seeds + [i])
  {
    var l := labels[i := open];
    var seeds' := seeds + [i];
    assert [] + neighbours == neighbours;
    QueueReachedAppend(features, params, l, [], i, open, neighbours);
    ClusteredAreReachedAfterWrite(features, params, labels, i, open);
    CoreConnectedReflexive(features, params, i);
    assert CoresLinked(features, params, labels, seeds');
    LinkedAfterWrite(features, params, labels, seeds', i, open);
  }

  /** After the expansion of cluster `open` has drained its queue, the
      scan invariant holds again with the next id. */
  lemma CloseCluster(features: seq<seq<real>>, params: Params, before: seq<int>, after: seq<int>,
                     i: nat, open: int, seeds: seq<nat>)
    requires Rectangular(features) && |before| == |features| && i < |before|
    requires forall k :: 0 <= k <= i ==> before[k] != Unclassified
    requires forall c :: 0 <= c < |seeds| ==> seeds[c] < |before| && before[seeds[c]] == c + 1
    requires |after| == |before|
    requires Expanding(features, params, before, after, [], open, seeds)
    ensures ScanInvariant(features, params, after, i + 1, open + 1, seeds)
  {
    CloseClusterStep(features, params, after, open);
  }

  /** cluster: labels every point noise (0) or with a positive cluster id.
      Each unclassified point's neighbourhood is scanned; too sparse a
      neighbourhood marks the point as noise, a dense one opens the next
      cluster id and expands it breadth-first through a FIFO queue. A noise
      point reached by an expansion is promoted to the cluster; a point
      already clustered is left alone. */
  method Cluster(features: seq<seq<real>>, params: Params) returns (result: seq<int>)
    requires Rectangular(features)
    ensures |result| == |features|
    ensures IsDbscanLabelling(features, params, result)
  {
    var n := |features|;
    var labels := new int[n](_ => Unclassified);
    var clusterId := 1;
    ghost var seeds: seq<nat> := [];

    for i := 0 to n
      invariant 1 <= clusterId <= i + 1
      invariant ScanInvariant(features, params, labels[..], i, clusterId, seeds)
    {
      clusterId, seeds := VisitPoint(features, params, labels, i, clusterId, seeds);
    }
    result := labels[..];
    FinishedLabelling(features, params, result, clusterId, seeds);
  }
}
