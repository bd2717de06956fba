/** Silicon cells as the 1-D clustering sees them, and the order the
    clustering expects them in. */
module Cells {

  /** One detector readout: the module it sits on, its two channel
      coordinates and its signal. Channels and module indices are unsigned
      in the detector model; their 32-bit width is not modelled. */
  datatype Cell = Cell(moduleIndex: nat, channel0: nat, channel1: nat, activation: real)

  /** The comparator of the 1-D algorithm: by module first, then by
      channel0; channel1 and the signal play no part. */
  predicate Channel0OnlyOrder(a: Cell, b: Cell)
  {
    if a.moduleIndex != b.moduleIndex then a.moduleIndex < b.moduleIndex
    else a.channel0 < b.channel0
  }

  /** The comparator is a strict order: irreflexive, asymmetric and
      transitive, and two cells it does not separate agree on module and
      channel0. */
  lemma Channel0OnlyOrderIsStrict(a: Cell, b: Cell, c: Cell)
    ensures !Channel0OnlyOrder(a, a)
    ensures Channel0OnlyOrder(a, b) ==> !Channel0OnlyOrder(b, a)
    ensures Channel0OnlyOrder(a, b) && Channel0OnlyOrder(b, c) ==> Channel0OnlyOrder(a, c)
    ensures !Channel0OnlyOrder(a, b) && !Channel0OnlyOrder(b, a) ==>
              a.moduleIndex == b.moduleIndex && a.channel0 == b.channel0
  {
  }

  /** "Is ordered on": no cell is strictly smaller than the cell before it. */
  ghost predicate OrderedOn(cells: seq<Cell>)
  {
    forall i :: 0 < i < |cells| ==> !Channel0OnlyOrder(cells[i], cells[i - 1])
  }

  /** "Is contiguous on the module": the cells of one module form one run. */
  ghost predicate ContiguousOnModule(cells: seq<Cell>)
  {
    forall i, j, k :: 0 <= i < j < k < |cells| && cells[i].moduleIndex == cells[k].moduleIndex ==>
      cells[j].moduleIndex == cells[i].moduleIndex
  }

  /** Every cell is ordered before or level with every later cell. */
  ghost predicate Sorted(cells: seq<Cell>)
  {
    forall i, j :: 0 <= i < j < |cells| ==> !Channel0OnlyOrder(cells[j], cells[i])
  }

  /** Checking neighbouring pairs is enough: ordering on neighbours gives
      the ordering of every pair, and with it the module contiguity. */
  lemma {:induction false} OrderedOnIsSorted(cells: seq<Cell>)
    requires OrderedOn(cells)
    ensures Sorted(cells)
    ensures ContiguousOnModule(cells)
  {
    if |cells| > 1 {
      var front := cells[..|cells| - 1];
      assert OrderedOn(front);
      OrderedOnIsSorted(front);
      var last := |cells| - 1;
      forall i | 0 <= i < last
        ensures !Channel0OnlyOrder(cells[last], cells[i])
      {
        if i < last - 1 {
          assert !Channel0OnlyOrder(front[last - 1], front[i]);
          Channel0OnlyOrderIsStrict(cells[last], cells[last - 1], cells[i]);
        }
      }
    }
    SortedIsContiguous(cells);
  }

  lemma SortedIsContiguous(cells: seq<Cell>)
    requires Sorted(cells)
    ensures ContiguousOnModule(cells)
  {
  }
}
