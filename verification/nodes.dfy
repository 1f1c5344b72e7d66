/**
 * The node table (`nodesDict` / `nodesGameObjects`): one visual node per node
 * id, and the loops over the feed and over the table that create, place,
 * recolour, hide and show those nodes. Each loop is a method that returns the
 * new table. A loop over the feed or over a list is proved equal to a
 * recursive definition that follows the same order, so that a loop stopped by
 * an exception leaves exactly the prefix of the work the C# loop had done; the
 * loop over the table itself, which cannot throw, is specified node by node.
 */
module Nodes {
  import opened Feed
  import opened Grid

  /** The colour given to a node that shows no job. */
  const WHITE: string := "#FFFFFF"

  /** The prefab a node object was cloned from. */
  datatype Prefab = ActivePrefab | InactivePrefab

  /**
   * A node object: its prefab, whether it is active in the scene, the colour
   * its mesh was last given (None: the prefab's own), and its local position
   * (None: not laid out yet).
   */
  datatype VisualNode = VisualNode(
    prefab: Prefab, active: bool, color: Option<string>, position: Option<Vec3>)

  type NodeTable = map<string, VisualNode>

  /** How a loop over the table ended, and the table it left. */
  datatype Step = Step(table: NodeTable, outcome: Outcome)

  /** States whose nodes are cloned from the active prefab. */
  predicate IsUpState(state: string) {
    state == "idle" || state == "allocated"
  }

  /** The freshly cloned object for a feed entry. */
  function FreshNode(e: NodeEntry): (n: VisualNode)
    ensures n.prefab == ActivePrefab <==> IsUpState(e.state)
    ensures n.active && n.color == None && n.position == None
  {
    VisualNode(if IsUpState(e.state) then ActivePrefab else InactivePrefab, true, None, None)
  }

  /**
   * The colour UpdateNodesColors paints a node with; None means the node is
   * skipped and keeps the colour it had.
   */
  function ColorFor(state: string, hint: Option<string>): Option<string> {
    if state == "down" then None
    else if state == "allocated" && hint.Some? then Some(hint.value)
    else Some(WHITE)
  }

  /** The colour rule: down keeps, allocated with a colour uses it, the rest is white. */
  lemma ColorRule(state: string, hint: Option<string>)
    ensures ColorFor(state, hint) == None <==> state == "down"
    ensures state == "allocated" && hint.Some? ==> ColorFor(state, hint) == hint
    ensures state != "down" && !(state == "allocated" && hint.Some?) ==>
              ColorFor(state, hint) == Some(WHITE)
  {
  }

  predicate WellFormedKeys(es: seq<NodeEntry>) {
    forall i :: 0 <= i < |es| ==> |es[i].rawKey| >= NODE_KEY_MIN
  }

  /** The id of entry i of a feed whose keys are all long enough. */
  function IdAt(es: seq<NodeEntry>, i: int): string
    requires WellFormedKeys(es) && 0 <= i < |es|
  {
    NodeKeyId(es[i].rawKey)
  }

  /** The ids a well-formed feed names. */
  function IdsOf(es: seq<NodeEntry>): set<string>
    requires WellFormedKeys(es)
  {
    set i | 0 <= i < |es| :: IdAt(es, i)
  }

  /** No later entry of `es` has the id of entry i. */
  predicate LastWithId(es: seq<NodeEntry>, i: int)
    requires WellFormedKeys(es) && 0 <= i < |es|
  {
    forall j :: i < j < |es| ==> IdAt(es, j) != IdAt(es, i)
  }

  /** The ids of a feed's tail are those of its entries after the first. */
  lemma IdsOfTail(es: seq<NodeEntry>)
    requires WellFormedKeys(es) && es != []
    ensures WellFormedKeys(es[1..])
    ensures forall j :: 0 <= j < |es| - 1 ==> IdAt(es[1..], j) == IdAt(es, j + 1)
    ensures IdsOf(es) == {IdAt(es, 0)} + IdsOf(es[1..])
    ensures forall id :: (forall j :: 0 < j < |es| ==> IdAt(es, j) != id) ==> id !in IdsOf(es[1..])
  {
    assert WellFormedKeys(es[1..]) by {
      forall j | 0 <= j < |es| - 1 ensures |es[1..][j].rawKey| >= NODE_KEY_MIN {
        assert es[1..][j] == es[j + 1];
      }
    }
    forall j | 0 <= j < |es| - 1 ensures IdAt(es[1..], j) == IdAt(es, j + 1) {
      assert es[1..][j] == es[j + 1];
    }
    forall id | id in IdsOf(es) ensures id in {IdAt(es, 0)} + IdsOf(es[1..]) {
      var i :| 0 <= i < |es| && IdAt(es, i) == id;
      if i > 0 { assert IdAt(es[1..], i - 1) == id; }
    }
  }

  // ------------------------------------------------------------------
  // CreateGameObjects: one node per entry, `nodesDict[id] = Instantiate(...)`.
  // ------------------------------------------------------------------

  function Registered(t: NodeTable, es: seq<NodeEntry>): Step
    decreases |es|
  {
    if es == [] then Step(t, Done)
    else if |es[0].rawKey| < NODE_KEY_MIN then Step(t, Threw(KeyTooShort(es[0].rawKey)))
    else Registered(t[NodeKeyId(es[0].rawKey) := FreshNode(es[0])], es[1..])
  }

  method RegisterNodes(t: NodeTable, es: seq<NodeEntry>) returns (t': NodeTable, o: Outcome)
    ensures Step(t', o) == Registered(t, es)
  {
    t' := t;
    var i := 0;
    while i < |es|
      invariant 0 <= i <= |es|
      invariant Registered(t, es) == Registered(t', es[i..])
    {
      assert es[i..][0] == es[i] && es[i..][1..] == es[i + 1..];
      var raw := es[i].rawKey;
      if |raw| < NODE_KEY_MIN {
        return t', Threw(KeyTooShort(raw));
      }
      t' := t'[NodeKeyId(raw) := FreshNode(es[i])];
      i := i + 1;
    }
    o := Done;
  }

  /** CreateGameObjects' node loop throws exactly when some raw key is too short. */
  lemma {:induction false} RegisteredFailsIff(t: NodeTable, es: seq<NodeEntry>)
    ensures Registered(t, es).outcome == Done <==> WellFormedKeys(es)
    decreases |es|
  {
    if es != [] && |es[0].rawKey| >= NODE_KEY_MIN {
      RegisteredFailsIff(t[NodeKeyId(es[0].rawKey) := FreshNode(es[0])], es[1..]);
      forall j | 0 <= j < |es| - 1 ensures es[1..][j] == es[j + 1] { }
    }
  }

  /**
   * What CreateGameObjects leaves in the table: the old keys plus the ids of
   * the feed, each id holding the fresh node of the last entry that names it,
   * and every other node as it was.
   */
  lemma {:induction false} RegisteredTable(t: NodeTable, es: seq<NodeEntry>)
    requires WellFormedKeys(es)
    ensures Registered(t, es).table.Keys == t.Keys + IdsOf(es)
    ensures forall id :: id in t && id !in IdsOf(es) ==> Registered(t, es).table[id] == t[id]
    ensures forall i :: 0 <= i < |es| && LastWithId(es, i) ==>
              Registered(t, es).table[IdAt(es, i)] == FreshNode(es[i])
    decreases |es|
  {
    if es != [] {
      IdsOfTail(es);
      var t1 := t[IdAt(es, 0) := FreshNode(es[0])];
      RegisteredTable(t1, es[1..]);
      var r := Registered(t, es).table;
      assert r == Registered(t1, es[1..]).table;
      forall i | 0 <= i < |es| && LastWithId(es, i)
        ensures r[IdAt(es, i)] == FreshNode(es[i])
      {
        if i > 0 {
          assert LastWithId(es[1..], i - 1);
        } else {
          assert IdAt(es, 0) !in IdsOf(es[1..]);
        }
      }
    }
  }

  // ------------------------------------------------------------------
  // UpdateGameObjects: the counter loop over the feed that positions nodes.
  // ------------------------------------------------------------------

  /** Position the entries of `es`, the first of which is node number `start`. */
  function Placed(t: NodeTable, es: seq<NodeEntry>, start: nat): Step
    decreases |es|
  {
    if es == [] then Step(t, Done)
    else if |es[0].rawKey| < NODE_KEY_MIN then Step(t, Threw(KeyTooShort(es[0].rawKey)))
    else
      var id := NodeKeyId(es[0].rawKey);
      if id !in t then Step(t, Threw(MissingNode(id)))
      else Placed(t[id := t[id].(position := Some(NodePosition(SlotOf(start))))], es[1..], start + 1)
  }

  /**
   * The layout loop of UpdateGameObjects, with its counters: colNum wraps at
   * 3, rowNum at 7, and rackNum counts the racks filled; currentY and currentZ
   * follow them.
   */
  method PlaceNodes(t: NodeTable, es: seq<NodeEntry>) returns (t': NodeTable, o: Outcome)
    ensures Step(t', o) == Placed(t, es, 0)
  {
    var rowNum, colNum, rackNum := 0, 0, 0;
    var currentY: real := RACK_HEIGHT;
    var currentZ: real := 0.0;
    t' := t;
    var i := 0;
    while i < |es|
      invariant 0 <= i <= |es|
      invariant Placed(t, es, 0) == Placed(t', es[i..], i)
      invariant Slot(colNum, rowNum, rackNum) == CountersBefore(i)
      invariant currentY == RACK_HEIGHT - rowNum as real * Y_STEP
      invariant currentZ == rackNum as real * RACK_WIDTH + colNum as real * Z_STEP
    {
      assert es[i..][0] == es[i] && es[i..][1..] == es[i + 1..];
      if colNum == COLUMNS {
        colNum := 0;
        currentZ := rackNum as real * RACK_WIDTH;
        currentY := currentY - Y_STEP;
        rowNum := rowNum + 1;
      }
      if rowNum == ROWS {
        rowNum := 0;
        rackNum := rackNum + 1;
        currentY := RACK_HEIGHT;
        currentZ := rackNum as real * RACK_WIDTH;
      }
      WrapGivesSlot(i);
      assert Slot(colNum, rowNum, rackNum) == SlotOf(i);
      var raw := es[i].rawKey;
      if |raw| < NODE_KEY_MIN {
        return t', Threw(KeyTooShort(raw));
      }
      var nodeId := NodeKeyId(raw);
      if nodeId !in t' {
        return t', Threw(MissingNode(nodeId));
      }
      t' := t'[nodeId := t'[nodeId].(position := Some(Vec3(NODE_X, currentY, currentZ + NODE_Z_GAP)))];
      colNum := colNum + 1;
      currentZ := currentZ + Z_STEP;
      i := i + 1;
    }
    o := Done;
  }

  /** Every id of a well-formed feed is already in the table. */
  predicate AllPresent(t: NodeTable, es: seq<NodeEntry>)
    requires WellFormedKeys(es)
  {
    forall i :: 0 <= i < |es| ==> IdAt(es, i) in t
  }

  /**
   * The position a node ends with after the entries `es` (the first of which
   * is node number `start`) are laid out, given the one it had before.
   */
  function PositionAfter(es: seq<NodeEntry>, start: nat, id: string, before: Option<Vec3>): Option<Vec3>
    requires WellFormedKeys(es)
    decreases |es|
  {
    if es == [] then before
    else PositionAfter(es[1..], start + 1, id,
           if IdAt(es, 0) == id then Some(NodePosition(SlotOf(start))) else before)
  }

  /**
   * Layout of a well-formed feed whose nodes all exist succeeds, keeps the
   * keys, and changes nothing but the positions, each to PositionAfter.
   */
  lemma {:induction false} PlacedPointwise(t: NodeTable, es: seq<NodeEntry>, start: nat)
    requires WellFormedKeys(es) && AllPresent(t, es)
    ensures Placed(t, es, start).outcome == Done
    ensures Placed(t, es, start).table.Keys == t.Keys
    ensures forall id :: id in t ==>
      Placed(t, es, start).table[id] == t[id].(position := PositionAfter(es, start, id, t[id].position))
    decreases |es|
  {
    if es != [] {
      IdsOfTail(es);
      var id0 := IdAt(es, 0);
      var t1 := t[id0 := t[id0].(position := Some(NodePosition(SlotOf(start))))];
      assert AllPresent(t1, es[1..]);
      PlacedPointwise(t1, es[1..], start + 1);
    }
  }

  /** Once a node is named by the feed, its start position is forgotten. */
  lemma {:induction false} PositionAfterForgets(es: seq<NodeEntry>, start: nat, id: string, b1: Option<Vec3>, b2: Option<Vec3>)
    requires WellFormedKeys(es) && id in IdsOf(es)
    ensures PositionAfter(es, start, id, b1) == PositionAfter(es, start, id, b2)
    decreases |es|
  {
    IdsOfTail(es);
    if IdAt(es, 0) != id {
      PositionAfterForgets(es[1..], start + 1, id, b1, b2);
    }
  }

  /** A node the feed does not name keeps its position. */
  lemma {:induction false} PositionAfterUnnamed(es: seq<NodeEntry>, start: nat, id: string, b: Option<Vec3>)
    requires WellFormedKeys(es) && id !in IdsOf(es)
    ensures PositionAfter(es, start, id, b) == b
    decreases |es|
  {
    if es != [] {
      IdsOfTail(es);
      PositionAfterUnnamed(es[1..], start + 1, id, b);
    }
  }

  /**
   * The closed form of the layout: the node named last by entry i sits at the
   * position of slot SlotOf(start + i).
   */
  lemma {:induction false} PositionAfterLast(es: seq<NodeEntry>, start: nat, i: nat, b: Option<Vec3>)
    requires WellFormedKeys(es) && i < |es| && LastWithId(es, i)
    ensures PositionAfter(es, start, IdAt(es, i), b) == Some(NodePosition(SlotOf(start + i)))
    decreases |es|
  {
    var id := IdAt(es, i);
    IdsOfTail(es);
    if i == 0 {
      PositionAfterUnnamed(es[1..], start + 1, id, Some(NodePosition(SlotOf(start))));
    } else {
      assert LastWithId(es[1..], i - 1);
      PositionAfterLast(es[1..], start + 1, i - 1,
        if IdAt(es, 0) == id then Some(NodePosition(SlotOf(start))) else b);
    }
  }

  /**
   * A layout that completes is idempotent: the counters are reset on every
   * call, so running it again on the same feed leaves the table as it is.
   */
  lemma CompletedLayoutIdempotent(t: NodeTable, es: seq<NodeEntry>)
    requires WellFormedKeys(es) && AllPresent(t, es)
    ensures Placed(Placed(t, es, 0).table, es, 0) == Placed(t, es, 0)
  {
    var p := Placed(t, es, 0).table;
    PlacedPointwise(t, es, 0);
    assert AllPresent(p, es);
    PlacedPointwise(p, es, 0);
    var q := Placed(p, es, 0).table;
    forall id | id in p ensures q[id] == p[id] {
      if id in IdsOf(es) {
        PositionAfterForgets(es, 0, id, t[id].position, p[id].position);
      } else {
        PositionAfterUnnamed(es, 0, id, t[id].position);
        PositionAfterUnnamed(es, 0, id, p[id].position);
      }
    }
  }

  /** How many entries the layout gets through before a short key or an id outside `keys`. */
  function Reach(keys: set<string>, es: seq<NodeEntry>): (n: nat)
    ensures n <= |es|
    decreases |es|
  {
    if es == [] || |es[0].rawKey| < NODE_KEY_MIN || NodeKeyId(es[0].rawKey) !in keys then 0
    else 1 + Reach(keys, es[1..])
  }

  /**
   * The layout never adds or removes a node, and whether and where it throws
   * depends only on the ids the table holds, not on the nodes' state.
   */
  lemma {:induction false} PlacedOutcomeByKeys(t: NodeTable, u: NodeTable, es: seq<NodeEntry>, start: nat)
    requires t.Keys == u.Keys
    ensures Placed(t, es, start).table.Keys == t.Keys
    ensures Placed(t, es, start).outcome == Placed(u, es, start).outcome
    decreases |es|
  {
    if es != [] && |es[0].rawKey| >= NODE_KEY_MIN && NodeKeyId(es[0].rawKey) in t {
      var id := NodeKeyId(es[0].rawKey);
      var pos := Some(NodePosition(SlotOf(start)));
      PlacedOutcomeByKeys(t[id := t[id].(position := pos)], u[id := u[id].(position := pos)], es[1..], start + 1);
    }
  }

  /**
   * The table a layout leaves is the one the entries before its stopping
   * point leave, and those entries are well formed and name present nodes.
   */
  lemma {:induction false} PlacedPrefix(t: NodeTable, es: seq<NodeEntry>, start: nat)
    ensures WellFormedKeys(es[..Reach(t.Keys, es)]) && AllPresent(t, es[..Reach(t.Keys, es)])
    ensures Placed(t, es, start).table == Placed(t, es[..Reach(t.Keys, es)], start).table
    decreases |es|
  {
    var n := Reach(t.Keys, es);
    if n == 0 {
      assert es[..n] == [];
    } else {
      var id := NodeKeyId(es[0].rawKey);
      var t1 := t[id := t[id].(position := Some(NodePosition(SlotOf(start))))];
      assert t1.Keys == t.Keys;
      var tail := es[1..];
      PlacedPrefix(t1, tail, start + 1);
      assert es[..n][0] == es[0] && es[..n][1..] == tail[..n - 1];
      forall i | 0 <= i < n ensures |es[..n][i].rawKey| >= NODE_KEY_MIN {
        if i > 0 { assert es[..n][i] == tail[..n - 1][i - 1]; }
      }
      forall i | 0 <= i < n ensures IdAt(es[..n], i) in t {
        if i > 0 {
          assert es[..n][i] == tail[..n - 1][i - 1];
          assert IdAt(tail[..n - 1], i - 1) in t1;
        }
      }
    }
  }

  /**
   * Layout is idempotent on every table and feed: the counters are reset on
   * every call, and a layout that throws stops again at the same entry,
   * having set the same positions before it.
   */
  lemma PlacedIdempotent(t: NodeTable, es: seq<NodeEntry>)
    ensures Placed(Placed(t, es, 0).table, es, 0) == Placed(t, es, 0)
  {
    var p := Placed(t, es, 0).table;
    PlacedOutcomeByKeys(t, t, es, 0);
    PlacedOutcomeByKeys(p, t, es, 0);
    PlacedPrefix(t, es, 0);
    PlacedPrefix(p, es, 0);
    var n := Reach(t.Keys, es);
    CompletedLayoutIdempotent(t, es[..n]);
  }

  /**
   * Where the layout puts each node: entry i, if no later entry names the same
   * node, is at the closed-form position of node i; nodes the feed does not
   * name stay where they were.
   */
  lemma LayoutClosedForm(t: NodeTable, es: seq<NodeEntry>)
    requires WellFormedKeys(es) && AllPresent(t, es)
    ensures Placed(t, es, 0).outcome == Done
    ensures Placed(t, es, 0).table.Keys == t.Keys
    ensures forall i :: 0 <= i < |es| && LastWithId(es, i) ==>
      Placed(t, es, 0).table[IdAt(es, i)].position == Some(NodePosition(SlotOf(i)))
    ensures forall id :: id in t && id !in IdsOf(es) ==> Placed(t, es, 0).table[id] == t[id]
  {
    PlacedPointwise(t, es, 0);
    forall i | 0 <= i < |es| && LastWithId(es, i)
      ensures Placed(t, es, 0).table[IdAt(es, i)].position == Some(NodePosition(SlotOf(i)))
    {
      PositionAfterLast(es, 0, i, t[IdAt(es, i)].position);
    }
    forall id | id in t && id !in IdsOf(es) ensures Placed(t, es, 0).table[id] == t[id] {
      PositionAfterUnnamed(es, 0, id, t[id].position);
    }
  }

  // ------------------------------------------------------------------
  // UpdateNodesColors: paint every node that is not down.
  // ------------------------------------------------------------------

  function Recolored(t: NodeTable, es: seq<NodeEntry>): Step
    decreases |es|
  {
    if es == [] then Step(t, Done)
    else if |es[0].rawKey| < NODE_KEY_MIN then Step(t, Threw(KeyTooShort(es[0].rawKey)))
    else
      var id := NodeKeyId(es[0].rawKey);
      var c := ColorFor(es[0].state, es[0].color);
      if c == None then Recolored(t, es[1..])
      else if id !in t then Step(t, Threw(MissingNode(id)))
      else Recolored(t[id := t[id].(color := c)], es[1..])
  }

  method RecolorNodes(t: NodeTable, es: seq<NodeEntry>) returns (t': NodeTable, o: Outcome)
    ensures Step(t', o) == Recolored(t, es)
  {
    t' := t;
    var i := 0;
    while i < |es|
      invariant 0 <= i <= |es|
      invariant Recolored(t, es) == Recolored(t', es[i..])
    {
      assert es[i..][0] == es[i] && es[i..][1..] == es[i + 1..];
      var raw := es[i].rawKey;
      if |raw| < NODE_KEY_MIN {
        return t', Threw(KeyTooShort(raw));
      }
      var nodeId := NodeKeyId(raw);
      var nodeState := es[i].state;
      if nodeState != "down" {
        var nodeColor := if nodeState == "allocated" && es[i].color.Some? then es[i].color.value else WHITE;
        if nodeId !in t' {
          return t', Threw(MissingNode(nodeId));
        }
        t' := t'[nodeId := t'[nodeId].(color := Some(nodeColor))];
      }
      i := i + 1;
    }
    o := Done;
  }

  /** Every node of a well-formed feed that is not down is in the table. */
  predicate UpNodesPresent(t: NodeTable, es: seq<NodeEntry>)
    requires WellFormedKeys(es)
  {
    forall i :: 0 <= i < |es| && es[i].state != "down" ==> IdAt(es, i) in t
  }

  /**
   * The colours after UpdateNodesColors, for a feed that names each node once
   * and whose nodes exist: each node gets ColorFor of its entry (a down node
   * keeps its colour) and nothing else in the table changes.
   */
  lemma {:induction false} RecoloredColors(t: NodeTable, es: seq<NodeEntry>)
    requires WellFormedKeys(es) && UpNodesPresent(t, es)
    requires forall i :: 0 <= i < |es| ==> LastWithId(es, i)
    ensures Recolored(t, es).outcome == Done
    ensures Recolored(t, es).table.Keys == t.Keys
    ensures forall i :: 0 <= i < |es| && IdAt(es, i) in t ==>
      Recolored(t, es).table[IdAt(es, i)] ==
        t[IdAt(es, i)].(color := if es[i].state == "down" then t[IdAt(es, i)].color
                                 else ColorFor(es[i].state, es[i].color))
    ensures forall id :: id in t && id !in IdsOf(es) ==> Recolored(t, es).table[id] == t[id]
    decreases |es|
  {
    if es != [] {
      IdsOfTail(es);
      var id0 := IdAt(es, 0);
      var c := ColorFor(es[0].state, es[0].color);
      var t1 := if c == None then t else t[id0 := t[id0].(color := c)];
      assert UpNodesPresent(t1, es[1..]);
      forall i | 0 <= i < |es[1..]| ensures LastWithId(es[1..], i) {
        assert LastWithId(es, i + 1);
      }
      RecoloredColors(t1, es[1..]);
      assert LastWithId(es, 0);
      assert id0 !in IdsOf(es[1..]);
      ColorRule(es[0].state, es[0].color);
    }
  }

  // ------------------------------------------------------------------
  // FilterNodeGameObjectsByJobId and ShowAllNodeGameObjects.
  // ------------------------------------------------------------------

  /** Every node with its active flag set to `v`. */
  function AllActive(t: NodeTable, v: bool): (r: NodeTable)
    ensures r.Keys == t.Keys
  {
    map id | id in t :: t[id].(active := v)
  }

  /** The loop `foreach (var n in nodesDict) n.Value.SetActive(v)`. */
  method SetAllActive(t: NodeTable, v: bool) returns (t': NodeTable)
    ensures t'.Keys == t.Keys
    ensures forall id :: id in t ==> t'[id] == t[id].(active := v)
  {
    t' := t;
    var pending := t.Keys;
    while pending != {}
      invariant pending <= t.Keys && t'.Keys == t.Keys
      invariant forall id :: id in t && id !in pending ==> t'[id] == t[id].(active := v)
      invariant forall id :: id in pending ==> t'[id] == t[id]
      decreases pending
    {
      var id :| id in pending;
      t' := t'[id := t'[id].(active := v)];
      pending := pending - {id};
    }
  }

  /** Activate the listed nodes one by one; an id not in the table throws. */
  function Shown(t: NodeTable, ids: seq<string>): Step
    decreases |ids|
  {
    if ids == [] then Step(t, Done)
    else if ids[0] !in t then Step(t, Threw(MissingNode(ids[0])))
    else Shown(t[ids[0] := t[ids[0]].(active := true)], ids[1..])
  }

  method ShowListed(t: NodeTable, ids: seq<string>) returns (t': NodeTable, o: Outcome)
    ensures Step(t', o) == Shown(t, ids)
  {
    t' := t;
    var i := 0;
    while i < |ids|
      invariant 0 <= i <= |ids|
      invariant Shown(t, ids) == Shown(t', ids[i..])
    {
      assert ids[i..][0] == ids[i] && ids[i..][1..] == ids[i + 1..];
      if ids[i] !in t' {
        return t', Threw(MissingNode(ids[i]));
      }
      t' := t'[ids[i] := t'[ids[i]].(active := true)];
      i := i + 1;
    }
    o := Done;
  }

  /**
   * Showing a list succeeds iff every listed id is in the table; then a node
   * is active iff it was already active or is listed, and nothing else changes.
   */
  lemma {:induction false} ShownContents(t: NodeTable, ids: seq<string>)
    ensures Shown(t, ids).outcome == Done <==> (forall k :: 0 <= k < |ids| ==> ids[k] in t)
    ensures Shown(t, ids).table.Keys == t.Keys
    ensures (forall k :: 0 <= k < |ids| ==> ids[k] in t) ==> forall id :: id in t ==>
      Shown(t, ids).table[id] == t[id].(active := t[id].active || id in ids)
    decreases |ids|
  {
    if ids != [] && ids[0] in t {
      var t1 := t[ids[0] := t[ids[0]].(active := true)];
      ShownContents(t1, ids[1..]);
      assert ids == [ids[0]] + ids[1..];
      forall k | 0 <= k < |ids| - 1 ensures ids[1..][k] == ids[k + 1] { }
    }
  }

  /**
   * The filter's effect: after hiding every node and showing the listed ones,
   * a node is active exactly when it is listed.
   */
  lemma FilterShowsExactly(t: NodeTable, ids: seq<string>)
    requires forall k :: 0 <= k < |ids| ==> ids[k] in t
    ensures Shown(AllActive(t, false), ids).outcome == Done
    ensures Shown(AllActive(t, false), ids).table.Keys == t.Keys
    ensures forall id :: id in t ==>
      Shown(AllActive(t, false), ids).table[id] == t[id].(active := id in ids)
  {
    ShownContents(AllActive(t, false), ids);
  }

  /** What the id-collecting loop of the filter produced, or how it stopped. */
  datatype Gathered = Gathered(ids: seq<string>, outcome: Outcome)

  /** `nodesToShow.Add(node.ToString().Substring(0, 5))` over a location list. */
  function Collected(locs: seq<string>): Gathered
    decreases |locs|
  {
    if locs == [] then Gathered([], Done)
    else if |locs[0]| < ID_LENGTH then Gathered([], Threw(KeyTooShort(locs[0])))
    else
      var rest := Collected(locs[1..]);
      Gathered([LocationId(locs[0])] + rest.ids, rest.outcome)
  }

  method CollectLocationIds(locs: seq<string>) returns (ids: seq<string>, o: Outcome)
    ensures o == Collected(locs).outcome
    ensures o == Done ==> ids == Collected(locs).ids
  {
    ids := [];
    var i := 0;
    while i < |locs|
      invariant 0 <= i <= |locs|
      invariant Collected(locs).outcome == Collected(locs[i..]).outcome
      invariant Collected(locs).outcome == Done ==> Collected(locs).ids == ids + Collected(locs[i..]).ids
    {
      assert locs[i..][0] == locs[i] && locs[i..][1..] == locs[i + 1..];
      if |locs[i]| < ID_LENGTH {
        return ids, Threw(KeyTooShort(locs[i]));
      }
      ids := ids + [LocationId(locs[i])];
      i := i + 1;
    }
    assert locs[i..] == [];
    o := Done;
  }

  /** The ids collected are the five-character prefixes of the locations, in order. */
  lemma {:induction false} CollectedIds(locs: seq<string>)
    ensures Collected(locs).outcome == Done <==> (forall k :: 0 <= k < |locs| ==> |locs[k]| >= ID_LENGTH)
    ensures Collected(locs).outcome == Done ==>
      |Collected(locs).ids| == |locs| &&
      forall k :: 0 <= k < |locs| ==> Collected(locs).ids[k] == locs[k][..ID_LENGTH]
    decreases |locs|
  {
    if locs != [] {
      CollectedIds(locs[1..]);
      forall k | 0 <= k < |locs| - 1 ensures locs[1..][k] == locs[k + 1] { }
    }
  }
}
