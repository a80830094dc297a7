/** The scan of a checkpoint table, which both readers make (scar-rs/scar/src/read.rs, scar-c/src/scar-reader.c). */
module Scan {

  /** How many leading positions lie at or below `offset`: where the scan breaks. */
  function Reached(positions: seq<int>, offset: int): (n: nat)
    ensures n <= |positions|
    ensures forall i | 0 <= i < n :: positions[i] <= offset
    ensures n < |positions| ==> positions[n] > offset
  {
    if positions == [] || positions[0] > offset then 0 else 1 + Reached(positions[1..], offset)
  }

  lemma ReachedIs(positions: seq<int>, offset: int, n: nat)
    requires n <= |positions| && forall i | 0 <= i < n :: positions[i] <= offset
    requires n < |positions| ==> positions[n] > offset
    ensures Reached(positions, offset) == n
  {
    hide Reached;
  }

  ghost predicate Ascending(positions: seq<int>) {
    forall i, j | 0 <= i <= j < |positions| :: positions[i] <= positions[j]
  }

  /** In ascending positions the scan stops behind the last one at or below the offset. */
  lemma StopsLast(positions: seq<int>, offset: int, i: nat)
    requires Ascending(positions) && i < |positions| && positions[i] <= offset
    ensures i < Reached(positions, offset)
    ensures positions[i] <= positions[Reached(positions, offset) - 1]
  {
    hide Reached;
    var n := Reached(positions, offset);
    InOrder(positions, n, i);
    InOrder(positions, i, n - 1);
  }

  lemma InOrder(positions: seq<int>, i: int, j: int)
    requires Ascending(positions)
    ensures 0 <= i <= j < |positions| ==> positions[i] <= positions[j]
  {
  }
}
