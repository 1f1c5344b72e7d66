/**
 * The older Cooley manager of Assets/Scripts: the same snapshot, node table
 * and layout as the current one, but one array of rack objects, no jobs
 * menu, and an IsMachineRunning that downloads a fresh payload first.
 */
module Scripts {
  import opened Feed
  import opened Grid
  import opened Nodes
  import Machines

  class CooleyManager {
    /** Whether CreateGameObjects has built the "Cooley" and "Content" objects. */
    var created: bool
    /** Local position of the "Content" object, once laid out. */
    var contentPosition: Option<Vec3>
    var fetchedData: Option<Payload>
    var numOfRacks: int
    var nodesPerRack: int
    var nodesInfo: seq<NodeEntry>
    var runningJobsInfo: seq<RunningJob>
    var queuedJobsInfo: seq<QueuedJob>
    var reservedJobsInfo: seq<ReservedJob>
    /** nodesGameObjects: one node object per node id. */
    var nodes: NodeTable
    /** racksGameObjects: one rack object per rack. */
    var racks: array<Rack>
    var dataCountdown: real
    var racksVisible: bool

    /** Every rack in use is active iff the racks are visible. */
    predicate RacksAgree()
      reads this`numOfRacks, this`racksVisible, this`racks, racks
    {
      forall i :: 0 <= i < numOfRacks && 0 <= i < racks.Length ==> racks[i].active == racksVisible
    }

    /** The kept parts of the last payload that was not a maintenance notice. */
    function Data(): Machines.Snapshot
      reads this`numOfRacks, this`nodesPerRack, this`nodesInfo
      reads this`runningJobsInfo, this`queuedJobsInfo, this`reservedJobsInfo
    {
      Machines.Snapshot(numOfRacks, nodesPerRack, nodesInfo, runningJobsInfo, queuedJobsInfo, reservedJobsInfo)
    }

    /** Start: the racks are visible; nothing is fetched or built yet. */
    constructor ()
      ensures !created && contentPosition == None && fetchedData == None && racksVisible
      ensures nodes == map[] && racks.Length == 0 && dataCountdown == 0.0
      ensures Data() == Machines.Snapshot(0, 0, [], [], [], [])
    {
      created := false;
      contentPosition := None;
      fetchedData := None;
      numOfRacks, nodesPerRack := 0, 0;
      nodesInfo, runningJobsInfo, queuedJobsInfo, reservedJobsInfo := [], [], [], [];
      nodes := map[];
      racks := new Rack[0];
      dataCountdown := 0.0;
      racksVisible := true;
    }

    /**
     * GetData: take a downloaded payload, restart the timer and, unless the
     * machine is under maintenance, keep the payload's dimensions, nodes and jobs.
     */
    method GetData(feed: Payload)
      modifies this`fetchedData, this`dataCountdown, this`numOfRacks, this`nodesPerRack
      modifies this`nodesInfo, this`runningJobsInfo, this`queuedJobsInfo, this`reservedJobsInfo
      ensures fetchedData == Some(feed) && dataCountdown == Machines.DATA_TIMER_VALUE
      ensures Data() == if feed.maint then old(Data()) else Machines.SnapshotOf(feed)
    {
      dataCountdown := Machines.DATA_TIMER_VALUE;
      fetchedData := Some(feed);
      if !feed.maint {
        numOfRacks := feed.racks;
        nodesPerRack := feed.nodecards;
        nodesInfo := feed.nodeinfo;
        runningJobsInfo := feed.running;
        queuedJobsInfo := feed.queued;
        reservedJobsInfo := feed.reservation;
      }
    }

    /** IsMachineRunning: download afresh, then report whether that payload is not a maintenance notice. */
    method IsMachineRunning(feed: Payload) returns (running: bool)
      modifies this`fetchedData, this`dataCountdown, this`numOfRacks, this`nodesPerRack
      modifies this`nodesInfo, this`runningJobsInfo, this`queuedJobsInfo, this`reservedJobsInfo
      ensures running <==> !feed.maint
      ensures fetchedData == Some(feed) && dataCountdown == Machines.DATA_TIMER_VALUE
      ensures Data() == if feed.maint then old(Data()) else Machines.SnapshotOf(feed)
    {
      GetData(feed);
      running := !fetchedData.value.maint;
    }

    /**
     * CreateGameObjects: build the scene (a new content object, not yet laid
     * out), one rack object per rack of the snapshot (each as the prefab leaves
     * it: active) and one node object per feed entry.
     */
    method CreateGameObjects() returns (o: Outcome)
      modifies this`created, this`contentPosition, this`racks, this`nodes
      ensures created && contentPosition == None
      ensures numOfRacks < 0 ==>
        o == Threw(NegativeRackCount(numOfRacks)) && racks == old(racks) && nodes == old(nodes)
      ensures numOfRacks >= 0 ==>
        && fresh(racks) && racks.Length == numOfRacks
        && (forall i :: 0 <= i < numOfRacks ==> racks[i] == Rack(true, None))
        && Step(nodes, o) == Registered(old(nodes), nodesInfo)
    {
      created := true;
      contentPosition := None;
      if numOfRacks < 0 {
        return Threw(NegativeRackCount(numOfRacks));
      }
      var n := numOfRacks;
      var built := new Rack[n];
      var i := 0;
      while i < n
        modifies built
        invariant 0 <= i <= n
        invariant forall j :: 0 <= j < i ==> built[j] == Rack(true, None)
      {
        built[i] := Rack(true, None);
        i := i + 1;
      }
      racks := built;
      var table, registered := RegisterNodes(nodes, nodesInfo);
      nodes := table;
      o := registered;
    }

    /**
     * UpdateGameObjects: lay the racks out side by side, place every node of
     * the feed in its grid slot, then recolour the nodes.
     */
    method UpdateGameObjects() returns (o: Outcome)
      modifies this`contentPosition, this`nodes, racks
      ensures !created ==>
        o == Threw(NoScene) && nodes == old(nodes) && contentPosition == old(contentPosition)
        && racks[..] == old(racks[..])
      ensures created ==>
        contentPosition == Some(Machines.CONTENT_OFFSET) && racks[..] == Positioned(old(racks[..]), numOfRacks)
      ensures created && numOfRacks > racks.Length ==>
        o == Threw(RackIndexOutOfRange(racks.Length)) && nodes == old(nodes)
      ensures created && numOfRacks <= racks.Length && Placed(old(nodes), nodesInfo, 0).outcome.Threw? ==>
        nodes == Placed(old(nodes), nodesInfo, 0).table && o == Placed(old(nodes), nodesInfo, 0).outcome
      ensures created && numOfRacks <= racks.Length && Placed(old(nodes), nodesInfo, 0).outcome == Done ==>
        Step(nodes, o) == Recolored(Placed(old(nodes), nodesInfo, 0).table, nodesInfo)
    {
      if !created {
        return Threw(NoScene);
      }
      contentPosition := Some(Machines.CONTENT_OFFSET);
      var built, n := racks, numOfRacks;
      var i := 0;
      while i < n
        modifies built
        invariant 0 <= i <= built.Length && (n < 0 ==> i == 0) && (n >= 0 ==> i <= n)
        invariant built[..] == Positioned(old(built[..]), i)
      {
        if i == built.Length {
          PositionedSaturates(old(built[..]), i, n);
          return Threw(RackIndexOutOfRange(i));
        }
        built[i] := built[i].(position := Some(RackPosition(i)));
        i := i + 1;
      }
      PositionedSaturates(old(built[..]), i, n);
      var placed, laidOut := PlaceNodes(nodes, nodesInfo);
      nodes := placed;
      if laidOut.Threw? {
        return laidOut;
      }
      o := UpdateNodesColors();
    }

    /** UpdateNodesColors: paint every node of the feed that is not down. */
    method UpdateNodesColors() returns (o: Outcome)
      modifies this`nodes
      ensures Step(nodes, o) == Recolored(old(nodes), nodesInfo)
    {
      var table, recolored := RecolorNodes(nodes, nodesInfo);
      nodes := table;
      o := recolored;
    }

    /** ToggleRacks: flip the visibility flag and set every rack in use to it. */
    method ToggleRacks() returns (o: Outcome)
      modifies this`racksVisible, racks
      ensures racksVisible == !old(racksVisible) && RacksAgree()
      ensures racks[..] == WithActive(old(racks[..]), numOfRacks, racksVisible)
      ensures o == if numOfRacks > racks.Length then Threw(RackIndexOutOfRange(racks.Length)) else Done
    {
      racksVisible := !racksVisible;
      var built, n, shown := racks, numOfRacks, racksVisible;
      var i := 0;
      while i < n
        modifies built
        invariant 0 <= i <= built.Length && (n < 0 ==> i == 0) && (n >= 0 ==> i <= n)
        invariant built[..] == WithActive(old(built[..]), i, shown)
      {
        if i == built.Length {
          WithActiveSaturates(old(built[..]), i, n, shown);
          return Threw(RackIndexOutOfRange(i));
        }
        built[i] := built[i].(active := shown);
        i := i + 1;
      }
      WithActiveSaturates(old(built[..]), i, n, shown);
      o := Done;
    }

    /**
     * Update, once per frame: nothing happens until the scene exists; then the
     * timer runs down and, when it has run out, the manager fetches the payload
     * it is given and recolours the nodes.
     */
    method Update(deltaTime: real, feed: Payload) returns (o: Outcome)
      modifies this`fetchedData, this`dataCountdown, this`numOfRacks, this`nodesPerRack
      modifies this`nodesInfo, this`runningJobsInfo, this`queuedJobsInfo, this`reservedJobsInfo
      modifies this`nodes
      ensures !created ==> dataCountdown == old(dataCountdown)
      ensures created && !Machines.Due(created, old(dataCountdown), deltaTime) ==>
        dataCountdown == Machines.Countdown(old(dataCountdown), deltaTime)
      ensures !Machines.Due(created, old(dataCountdown), deltaTime) ==>
        o == Done && fetchedData == old(fetchedData) && Data() == old(Data()) && nodes == old(nodes)
      ensures Machines.Due(created, old(dataCountdown), deltaTime) ==>
        && dataCountdown == Machines.DATA_TIMER_VALUE && fetchedData == Some(feed)
        && Data() == (if feed.maint then old(Data()) else Machines.SnapshotOf(feed))
        && Step(nodes, o) == Recolored(old(nodes), nodesInfo)
    {
      o := Done;
      if !created {
        return;
      }
      if dataCountdown > 0.0 {
        dataCountdown := dataCountdown - deltaTime;
      }
      if dataCountdown > 0.0 {
        return;
      }
      GetData(feed);
      o := UpdateNodesColors();
    }
  }
}
