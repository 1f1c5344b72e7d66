/**
 * The rack/node layout of the Cooley model: the fixed 3-column, 7-row grid a
 * rack holds, the closed form of the slot the layout loop gives the node at
 * each position of the feed, the local coordinates of nodes and racks, and the
 * rack records the scene keeps.
 */
module Grid {
  import opened Feed

  /** Nodes per row of a rack; the layout loop wraps its column counter here. */
  const COLUMNS: int := 3
  /** Rows per rack; the layout loop wraps its row counter here. */
  const ROWS: int := 7
  /** Nodes one rack holds: the loop's hard-coded wrap, not the feed's "nodecards". */
  const PER_RACK: int := COLUMNS * ROWS

  const RACK_HEIGHT: real := 2.0
  const RACK_WIDTH: real := 0.7
  const Y_STEP: real := 0.3
  const Z_STEP: real := 0.2
  /** Local x of every node. */
  const NODE_X: real := -0.2
  /** Gap added to the running z of a node when it is placed. */
  const NODE_Z_GAP: real := 0.1

  datatype Vec3 = Vec3(x: real, y: real, z: real)

  /** A grid cell: column within the row, row within the rack, and the rack. */
  datatype Slot = Slot(col: int, row: int, rack: int)

  predicate InGrid(s: Slot) {
    0 <= s.col < COLUMNS && 0 <= s.row < ROWS && 0 <= s.rack
  }

  /** The index of the node that lands in slot `s`, read as a mixed-radix number. */
  function SlotIndex(s: Slot): int {
    s.rack * PER_RACK + s.row * COLUMNS + s.col
  }

  /**
   * Closed form of the layout: the node at 0-based position `i` goes to
   * column i mod 3, row (i div 3) mod 7 of rack i div 21.
   */
  function SlotOf(i: nat): (s: Slot)
    ensures InGrid(s) && SlotIndex(s) == i
  {
    var q := i / COLUMNS;
    assert i == q * COLUMNS + i % COLUMNS;
    assert q == (q / ROWS) * ROWS + q % ROWS;
    assert i == (q / ROWS) * PER_RACK + (q % ROWS) * COLUMNS + i % COLUMNS;
    assert i / PER_RACK == q / ROWS;
    Slot(i % COLUMNS, q % ROWS, i / PER_RACK)
  }

  /** A grid cell is determined by its index: SlotOf is the only slot of index i. */
  lemma SlotIndexInjective(s: Slot, t: Slot)
    requires InGrid(s) && InGrid(t) && SlotIndex(s) == SlotIndex(t)
    ensures s == t
  {
    var qs := s.rack * ROWS + s.row;
    var qt := t.rack * ROWS + t.row;
    assert SlotIndex(s) == qs * COLUMNS + s.col;
    assert SlotIndex(t) == qt * COLUMNS + t.col;
    assert qs == qt;
  }

  /** Node 21k opens rack k: row 0, column 0. */
  lemma RackStart(k: nat)
    ensures SlotOf(k * PER_RACK) == Slot(0, 0, k)
  {
    SlotIndexInjective(SlotOf(k * PER_RACK), Slot(0, 0, k));
  }

  /** The counters (colNum, rowNum, rackNum) the loop holds when it reaches node i. */
  function CountersBefore(i: nat): Slot {
    if i == 0 then Slot(0, 0, 0)
    else var p := SlotOf(i - 1); Slot(p.col + 1, p.row, p.rack)
  }

  /** The two wrap tests at the top of the layout loop's body, in their order. */
  function Wrap(c: Slot): Slot {
    var afterCol := if c.col == COLUMNS then Slot(0, c.row + 1, c.rack) else c;
    if afterCol.row == ROWS then Slot(afterCol.col, 0, afterCol.rack + 1) else afterCol
  }

  /** The counter state machine computes the closed form at every step. */
  lemma {:induction false} WrapGivesSlot(i: nat)
    ensures Wrap(CountersBefore(i)) == SlotOf(i)
  {
    if i > 0 {
      var p := SlotOf(i - 1);
      var next :=
        if p.col + 1 < COLUMNS then Slot(p.col + 1, p.row, p.rack)
        else if p.row + 1 < ROWS then Slot(0, p.row + 1, p.rack)
        else Slot(0, 0, p.rack + 1);
      assert InGrid(next) && SlotIndex(next) == i;
      SlotIndexInjective(SlotOf(i), next);
    }
  }

  /** Local position of a node placed in slot `s`. */
  function NodePosition(s: Slot): Vec3 {
    Vec3(NODE_X,
         RACK_HEIGHT - s.row as real * Y_STEP,
         s.rack as real * RACK_WIDTH + s.col as real * Z_STEP + NODE_Z_GAP)
  }

  /** Local position of rack `i`: racks stand side by side along z. */
  function RackPosition(i: int): Vec3 {
    Vec3(0.0, 0.0, i as real * RACK_WIDTH)
  }

  /** Every node lies strictly inside the width of its own rack. */
  lemma NodeWithinRack(i: nat)
    ensures RackPosition(SlotOf(i).rack).z < NodePosition(SlotOf(i)).z
    ensures NodePosition(SlotOf(i)).z < RackPosition(SlotOf(i).rack + 1).z
  {
  }

  /** Two different feed positions never share a location in the scene. */
  lemma PositionsDistinct(i: nat, j: nat)
    ensures NodePosition(SlotOf(i)) == NodePosition(SlotOf(j)) ==> i == j
  {
    var s, t := SlotOf(i), SlotOf(j);
    if NodePosition(s) == NodePosition(t) {
      assert s.row as real * Y_STEP == t.row as real * Y_STEP;
      var dr := s.rack - t.rack;
      var dc := t.col - s.col;
      assert dr as real * RACK_WIDTH == dc as real * Z_STEP;
      assert -2 <= dc <= 2;
      assert dr == 0;
      SlotIndexInjective(s, t);
    }
  }

  /** A physical rack object: its active flag and, once laid out, its position. */
  datatype Rack = Rack(active: bool, position: Option<Vec3>)

  /** The first min(n, |racks|) racks with their active flag set to `v`. */
  function WithActive(racks: seq<Rack>, n: int, v: bool): (r: seq<Rack>)
    ensures |r| == |racks|
  {
    seq(|racks|, i requires 0 <= i < |racks| =>
      if i < n then racks[i].(active := v) else racks[i])
  }

  /** The first min(n, |racks|) racks moved to their place in the row of racks. */
  function Positioned(racks: seq<Rack>, n: int): (r: seq<Rack>)
    ensures |r| == |racks|
  {
    seq(|racks|, i requires 0 <= i < |racks| =>
      if i < n then racks[i].(position := Some(RackPosition(i))) else racks[i])
  }

  /** Only min(max(n, 0), |racks|) matters: a count past either end changes nothing more. */
  lemma WithActiveSaturates(racks: seq<Rack>, n: int, m: int, v: bool)
    requires (n == m) || (n <= 0 && m <= 0) || (n >= |racks| && m >= |racks|)
    ensures WithActive(racks, n, v) == WithActive(racks, m, v)
  {
  }

  lemma PositionedSaturates(racks: seq<Rack>, n: int, m: int)
    requires (n == m) || (n <= 0 && m <= 0) || (n >= |racks| && m >= |racks|)
    ensures Positioned(racks, n) == Positioned(racks, m)
  {
  }

  /** Setting the flags to !v and then back to v restores racks whose flags were v. */
  lemma WithActiveTwice(racks: seq<Rack>, n: int, v: bool)
    requires forall i :: 0 <= i < |racks| && i < n ==> racks[i].active == v
    ensures WithActive(WithActive(racks, n, !v), n, v) == racks
  {
    var twice := WithActive(WithActive(racks, n, !v), n, v);
    forall i | 0 <= i < |racks| ensures twice[i] == racks[i] { }
  }

  /** Laying the racks out again changes nothing. */
  lemma PositionedIdempotent(racks: seq<Rack>, n: int)
    ensures Positioned(Positioned(racks, n), n) == Positioned(racks, n)
  {
  }
}
