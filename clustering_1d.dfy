/** Gap-threshold clustering of 1-D hits: the hits are sorted by position
    and a new cluster starts wherever the gap to the previous hit exceeds
    the threshold. Positions are modelled as exact reals; floating-point
    rounding of positions and gaps is not captured. */
module Clustering1D {

  /** A 1-D hit: its position and the cluster id written by the clustering. */
  datatype Cell1D = Cell1D(position: real, clusterId: int)

  /** The positions of the hits, in their order. */
  function Positions(cells: seq<Cell1D>): seq<real>
  {
    seq(|cells|, k requires 0 <= k < |cells| => cells[k].position)
  }

  ghost predicate SortedByPosition(cells: seq<Cell1D>)
  {
    forall i, j :: 0 <= i < j < |cells| ==> cells[i].position <= cells[j].position
  }

  // ---------------------------------------------------------------------
  // Sorting
  // ---------------------------------------------------------------------

  /** Sorts the hits by position in place, by insertion with adjacent
      swaps. Only the order is promised, as for an unstable sort: hits at
      one position may end in any order. */
  method SortByPosition(a: array<Cell1D>)
    modifies a
    ensures SortedByPosition(a[..])
    ensures multiset(a[..]) == multiset(old(a[..]))
  {
    var i := 0;
    while i < a.Length
      invariant 0 <= i <= a.Length
      invariant SortedByPosition(a[..i])
      invariant multiset(a[..]) == multiset(old(a[..]))
    {
      SinkInto(a, i);
      i := i + 1;
    }
    assert a[..] == a[..a.Length];
  }

  /** One insertion step: swaps the hit at index `i` down past every
      earlier hit at a larger position, so the first i + 1 hits end up in
      order; the hits after index `i` are not touched. */
  method SinkInto(a: array<Cell1D>, i: nat)
    requires i < a.Length && SortedByPosition(a[..i])
    modifies a
    ensures SortedByPosition(a[..i + 1])
    ensures a[i + 1..] == old(a[i + 1..])
    ensures multiset(a[..]) == multiset(old(a[..]))
  {
    var j := i;
    while j > 0 && a[j - 1].position > a[j].position
      invariant 0 <= j <= i
      invariant SortedExceptAt(a[..], i, j)
      invariant a[i + 1..] == old(a[i + 1..])
      invariant multiset(a[..]) == multiset(old(a[..]))
    {
      SwapStep(a[..], i, j);
      a[j - 1], a[j] := a[j], a[j - 1];
      j := j - 1;
    }
    SinkDone(a[..], i, j);
  }

  /** The prefix up to index `i` is ordered except for pairs ending at the
      hit `j` still sinking into place. */
  ghost predicate SortedExceptAt(s: seq<Cell1D>, i: nat, j: nat)
    requires i < |s|
  {
    forall m, n :: 0 <= m < n <= i && n != j ==> s[m].position <= s[n].position
  }

  /** Swapping the sinking hit with a larger predecessor moves it one place
      down and keeps the multiset of hits. */
  lemma SwapStep(s: seq<Cell1D>, i: nat, j: nat)
    requires 0 < j <= i < |s| && SortedExceptAt(s, i, j) && s[j - 1].position > s[j].position
    ensures SortedExceptAt(s[j - 1 := s[j]][j := s[j - 1]], i, j - 1)
    ensures multiset(s[j - 1 := s[j]][j := s[j - 1]]) == multiset(s)
  {
    SwapKeepsMultiset(s, j);
  }

  /** Once the sinking hit meets a predecessor no larger than it, or the
      front, the first i + 1 hits are ordered. */
  lemma SinkDone(s: seq<Cell1D>, i: nat, j: nat)
    requires j <= i < |s| && SortedExceptAt(s, i, j)
    requires j == 0 || s[j - 1].position <= s[j].position
    ensures SortedByPosition(s[..i + 1])
  {
    forall m, n | 0 <= m < n <= i
      ensures s[m].position <= s[n].position
    {
      if n == j && m < j - 1 {
        assert s[m].position <= s[j - 1].position;
      }
    }
  }

  lemma SwapKeepsMultiset(s: seq<Cell1D>, j: nat)
    requires 0 < j < |s|
    ensures multiset(s[j - 1 := s[j]][j := s[j - 1]]) == multiset(s)
  {
    var t := s[j - 1 := s[j]][j := s[j - 1]];
    assert s == s[..j - 1] + [s[j - 1], s[j]] + s[j + 1..];
    assert t == s[..j - 1] + [s[j], s[j - 1]] + s[j + 1..];
  }

  /** Equal multisets of hits have equal multisets of positions. */
  lemma {:induction false} PermutationKeepsPositions(a: seq<Cell1D>, b: seq<Cell1D>)
    requires multiset(a) == multiset(b)
    ensures multiset(Positions(a)) == multiset(Positions(b))
    decreases |a|
  {
    if a == [] {
      assert |b| == |multiset(b)| == 0;
    } else {
      var x := a[0];
      assert x in multiset(b);
      var j :| 0 <= j < |b| && b[j] == x;
      var rest := b[..j] + b[j + 1..];
      RemoveOne(a, 0);
      assert a[..0] + a[1..] == a[1..];
      RemoveOne(b, j);
      assert multiset(a[1..]) == multiset(rest);
      PermutationKeepsPositions(a[1..], rest);
    }
  }

  /** Taking out the hit at index `j` takes one copy of it, and of its
      position, out of the multisets. */
  lemma RemoveOne(s: seq<Cell1D>, j: nat)
    requires j < |s|
    ensures multiset(s[..j] + s[j + 1..]) == multiset(s) - multiset{s[j]}
    ensures multiset(Positions(s)) == multiset(Positions(s[..j] + s[j + 1..])) + multiset{s[j].position}
  {
    assert s == s[..j] + [s[j]] + s[j + 1..];
    PositionsAppend(s[..j] + [s[j]], s[j + 1..]);
    PositionsAppend(s[..j], [s[j]]);
    PositionsAppend(s[..j], s[j + 1..]);
  }

  lemma PositionsAppend(a: seq<Cell1D>, b: seq<Cell1D>)
    ensures Positions(a + b) == Positions(a) + Positions(b)
  {
  }

  // ---------------------------------------------------------------------
  // Gap labelling
  // ---------------------------------------------------------------------

  /** The id of the hit at index `i` of the sorted positions `ps`. */
  function GapId(ps: seq<real>, threshold: real, i: nat): nat
    requires i < |ps|
  {
    if i == 0 then 0
    else GapId(ps, threshold, i - 1) + (if ps[i] - ps[i - 1] <= threshold then 0 else 1)
  }

  /** The indices where the gap to the previous position exceeds the
      threshold. */
  ghost function BigGaps(ps: seq<real>, threshold: real, m: nat): set<nat>
  {
    set k: nat | k < m && IsBigGap(ps, threshold, k)
  }

  predicate IsBigGap(ps: seq<real>, threshold: real, k: nat)
  {
    1 <= k < |ps| && ps[k] - ps[k - 1] > threshold
  }

  /** cluster_1d: sorts the hits by position, gives the first id 0, and
      gives every later hit the id of its predecessor when the gap between
      them is within the threshold and the next id otherwise. Empty input
      is left untouched. */
  method Cluster1d(cells: array<Cell1D>, threshold: real)
    modifies cells
    ensures cells.Length == 0 ==> cells[..] == old(cells[..])
    ensures SortedByPosition(cells[..])
    ensures multiset(Positions(cells[..])) == multiset(Positions(old(cells[..])))
    ensures IdsUpTo(cells[..], Positions(cells[..]), threshold, cells.Length)
  {
    if cells.Length == 0 {
      return;
    }
    SortByPosition(cells);
    PermutationKeepsPositions(cells[..], old(cells[..]));
    AssignIds(cells, threshold, Positions(cells[..]));
  }

  /** The labelling pass over the sorted hits, whose positions are `ps`:
      keeps every position and writes each hit's id from the gap to its
      predecessor. */
  method AssignIds(cells: array<Cell1D>, threshold: real, ghost ps: seq<real>)
    requires cells.Length > 0 && Positions(cells[..]) == ps
    modifies cells
    ensures Positions(cells[..]) == ps
    ensures IdsUpTo(cells[..], ps, threshold, cells.Length)
  {
    var currentClusterId := 0;
    IdStepKeepsLabelling(cells[..], ps, threshold, 0, currentClusterId);
    cells[0] := cells[0].(clusterId := currentClusterId);
    for i := 1 to cells.Length
      invariant Positions(cells[..]) == ps
      invariant IdsUpTo(cells[..], ps, threshold, i)
      invariant currentClusterId == GapId(ps, threshold, i - 1)
    {
      assert cells[i].position == ps[i] && cells[i - 1].position == ps[i - 1];
      if cells[i].position - cells[i - 1].position <= threshold {
        IdStepKeepsLabelling(cells[..], ps, threshold, i, currentClusterId);
        cells[i] := cells[i].(clusterId := currentClusterId);
      } else {
        currentClusterId := currentClusterId + 1;
        IdStepKeepsLabelling(cells[..], ps, threshold, i, currentClusterId);
        cells[i] := cells[i].(clusterId := currentClusterId);
      }
    }
  }

  /** The first `m` hits carry the gap ids of the positions `ps`. */
  ghost predicate IdsUpTo(s: seq<Cell1D>, ps: seq<real>, threshold: real, m: nat)
    requires |ps| == |s|
  {
    forall k :: 0 <= k < m && k < |s| ==> s[k].clusterId == GapId(ps, threshold, k)
  }

  /** Writing the gap id of hit `i` extends the labelled prefix by one and
      leaves every position as it was. */
  lemma IdStepKeepsLabelling(s: seq<Cell1D>, ps: seq<real>, threshold: real, i: nat, id: int)
    requires i < |s| && Positions(s) == ps
    requires IdsUpTo(s, ps, threshold, i) && id == GapId(ps, threshold, i)
    ensures Positions(s[i := s[i].(clusterId := id)]) == ps
    ensures IdsUpTo(s[i := s[i].(clusterId := id)], ps, threshold, i + 1)
  {
  }

  /** The first hit opens cluster 0. */
  lemma FirstIdIsZero(ps: seq<real>, threshold: real)
    requires |ps| > 0
    ensures GapId(ps, threshold, 0) == 0
  {
  }

  /** A hit shares its predecessor's id exactly when the gap between them
      is within the threshold; otherwise its id is one more. */
  lemma IdStep(ps: seq<real>, threshold: real, i: nat)
    requires 1 <= i < |ps|
    ensures GapId(ps, threshold, i) == GapId(ps, threshold, i - 1) <==> ps[i] - ps[i - 1] <= threshold
    ensures ps[i] - ps[i - 1] > threshold ==> GapId(ps, threshold, i) == GapId(ps, threshold, i - 1) + 1
  {
  }

  /** Ids never decrease along the sorted hits. */
  lemma {:induction false} IdsNonDecreasing(ps: seq<real>, threshold: real, i: nat, j: nat)
    requires i <= j < |ps|
    ensures GapId(ps, threshold, i) <= GapId(ps, threshold, j)
    decreases j
  {
    if i < j {
      IdsNonDecreasing(ps, threshold, i, j - 1);
    }
  }

  /** Every id from 0 up to the id of a hit is used by some hit at or
      before it: ids are contiguous from 0. */
  lemma {:induction false} IdsContiguous(ps: seq<real>, threshold: real, i: nat, c: nat)
    requires i < |ps| && c <= GapId(ps, threshold, i)
    ensures exists k :: 0 <= k <= i && GapId(ps, threshold, k) == c
    decreases i
  {
    if c < GapId(ps, threshold, i) {
      IdsContiguous(ps, threshold, i - 1, c);
    }
  }

  /** The id of a hit counts the big gaps up to it; in particular the
      last id is the number of gaps in the whole sequence that exceed the
      threshold. */
  lemma {:induction false} IdCountsBigGaps(ps: seq<real>, threshold: real, i: nat)
    requires i < |ps|
    ensures GapId(ps, threshold, i) == |BigGaps(ps, threshold, i + 1)|
    decreases i
  {
    if i == 0 {
      assert BigGaps(ps, threshold, 1) == {};
    } else {
      IdCountsBigGaps(ps, threshold, i - 1);
      if ps[i] - ps[i - 1] > threshold {
        assert BigGaps(ps, threshold, i + 1) == BigGaps(ps, threshold, i) + {i};
      } else {
        assert BigGaps(ps, threshold, i + 1) == BigGaps(ps, threshold, i);
      }
    }
  }

  /** Two hits share an id exactly when no gap between them exceeds the
      threshold: the clusters are the maximal runs of close hits. */
  lemma {:induction false} SameIdIffNoBigGap(ps: seq<real>, threshold: real, i: nat, j: nat)
    requires i <= j < |ps|
    ensures GapId(ps, threshold, i) == GapId(ps, threshold, j) <==>
            forall k :: i < k <= j ==> ps[k] - ps[k - 1] <= threshold
    decreases j
  {
    if i < j {
      SameIdIffNoBigGap(ps, threshold, i, j - 1);
      IdsNonDecreasing(ps, threshold, i, j - 1);
    }
  }
}
