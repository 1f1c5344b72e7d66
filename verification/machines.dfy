/**
 * The Cooley manager of Assets/Scripts/Machines: a scene component that keeps
 * the last activity snapshot, the node and rack objects built from it, and
 * the jobs menu's catalogues, and reconciles them every time the data timer
 * runs out. Each Unity call the manager makes is reduced to the state it
 * changes; exceptions end an operation with `Threw`, leaving the partial update.
 */
module Machines {
  import opened Feed
  import opened Grid
  import opened Nodes
  import opened JobCatalog

  /** Seconds between two downloads of the activity feed. */
  const DATA_TIMER_VALUE: real := 10.0
  /** Height of the tracked image above the floor. */
  const IMAGE_PHYSICAL_HEIGHT: real := 0.9
  /** Where the content object sits relative to the image: 2 m to the left, level with the floor. */
  const CONTENT_OFFSET: Vec3 := Vec3(-2.0, -IMAGE_PHYSICAL_HEIGHT, -IMAGE_PHYSICAL_HEIGHT)

  /** The parts of the last non-maintenance payload the manager keeps. */
  datatype Snapshot = Snapshot(
    racks: int, nodecards: int, nodeinfo: seq<NodeEntry>,
    running: seq<RunningJob>, queued: seq<QueuedJob>, reserved: seq<ReservedJob>)

  /** The snapshot a payload provides when the machine is not under maintenance. */
  function SnapshotOf(feed: Payload): Snapshot {
    Snapshot(feed.racks, feed.nodecards, feed.nodeinfo, feed.running, feed.queued, feed.reservation)
  }

  /** The three catalogues of the jobs menu. */
  datatype JobMenus = JobMenus(
    running: map<string, RunningEntry>, queued: map<string, QueuedEntry>,
    reserved: map<string, ReservedEntry>)

  function CatalogsOf(m: Menus): JobMenus {
    JobMenus(m.running, m.queued, m.reserved)
  }

  /** JobMenuCheckUpdate as written: some category has a raw key differing from some stored key. */
  predicate MenuStale(d: Snapshot, c: JobMenus) {
    || Mismatch(RunningIds(d.running), c.running.Keys)
    || Mismatch(QueuedIds(d.queued), c.queued.Keys)
    || Mismatch(ReservedNames(d.reserved), c.reserved.Keys)
  }

  /** CreateJobsMenu as written: the snapshot's rows added to the catalogues it already holds. */
  function RebuildFrom(c: JobMenus, d: Snapshot): Menus {
    Rebuilt(c.running, c.queued, c.reserved, d.running, d.queued, d.reserved)
  }

  /** The data timer after one frame: it only runs down while it is positive. */
  function Countdown(c: real, deltaTime: real): real {
    if c > 0.0 then c - deltaTime else c
  }

  /** Whether a frame fetches new data: the scene exists and the timer has run out. */
  predicate Due(created: bool, c: real, deltaTime: real) {
    created && Countdown(c, deltaTime) <= 0.0
  }

  /** What the refresh part of a frame produced, and how it ended. */
  datatype Refresh = Refresh(
    nodes: NodeTable, catalogs: JobMenus, rebuilt: bool, panel: PanelView, outcome: Outcome)

  /**
   * The refresh after a fetch: recolour the nodes, rebuild the jobs menu if
   * the check says so, then refresh the open info panel. An exception stops
   * the frame where it is raised.
   */
  function Refreshed(nodes: NodeTable, c: JobMenus, d: Snapshot, panelType: string, panelId: string): Refresh {
    var r := Recolored(nodes, d.nodeinfo);
    if r.outcome.Threw? then Refresh(r.table, c, false, NoPanel, r.outcome)
    else if !MenuStale(d, c) then
      Refresh(r.table, c, false, PanelFor(panelType, panelId, d.running, d.queued, d.reserved), Done)
    else
      var m := RebuildFrom(c, d);
      if m.outcome.Threw? then Refresh(r.table, CatalogsOf(m), false, NoPanel, m.outcome)
      else Refresh(r.table, CatalogsOf(m), true, PanelFor(panelType, panelId, d.running, d.queued, d.reserved), Done)
  }

  /**
   * Once two running jobs are in the menu and stay in the feed, every refresh
   * whose recolouring succeeds ends in a duplicate-key exception and leaves
   * the open info panel unrefreshed.
   */
  lemma RefreshStallsOnPersistingJobs(
    nodes: NodeTable, c: JobMenus, d: Snapshot, panelType: string, panelId: string, a: string, b: string)
    requires Recolored(nodes, d.nodeinfo).outcome == Done
    requires a in c.running && b in c.running && a != b
    requires forall k :: k in c.running ==> exists i :: 0 <= i < |d.running| && d.running[i].jobId == k
    ensures Refreshed(nodes, c, d, panelType, panelId).outcome.Threw?
    ensures Refreshed(nodes, c, d, panelType, panelId).outcome.fault.DuplicateKey?
    ensures Refreshed(nodes, c, d, panelType, panelId).panel == NoPanel
  {
    PersistingJobsThrow(c.running, d.running, a, b);
    var i :| 0 <= i < |d.running| && d.running[i].jobId == a;
    assert RunningRows(d.running)[i].0 == a;
    RebuildFailsOnHeldKey(c.running, RunningRows(d.running), i);
  }

  // ------------------------------------------------------------------
  // The intended jobs-menu refresh: compare key sets, rebuild from empty.
  // ------------------------------------------------------------------

  /** The intended staleness test: a category's key set differs from the feed's. */
  predicate KeysStale(d: Snapshot, c: JobMenus) {
    || KeysChanged(RunningIds(d.running), c.running.Keys)
    || KeysChanged(QueuedIds(d.queued), c.queued.Keys)
    || KeysChanged(ReservedNames(d.reserved), c.reserved.Keys)
  }

  /** The intended rebuild: clear each catalogue, then add the snapshot's rows. */
  function FreshCatalogs(d: Snapshot): Menus {
    Rebuilt(map[], map[], map[], d.running, d.queued, d.reserved)
  }

  /** A feed that names each job and reservation once. */
  predicate DistinctJobs(d: Snapshot) {
    && DistinctKeys(RunningRows(d.running))
    && DistinctKeys(QueuedRows(d.queued))
    && DistinctKeys(ReservedRows(d.reserved))
  }

  /**
   * The intended rebuild of a feed with distinct keys never throws, and leaves
   * catalogues whose keys are exactly the feed's, so the next check over the
   * same feed reports no change.
   */
  lemma FreshCatalogsMatchFeed(d: Snapshot)
    requires DistinctJobs(d)
    ensures FreshCatalogs(d).outcome == Done
    ensures FreshCatalogs(d).running.Keys == KeySet(RunningIds(d.running))
    ensures FreshCatalogs(d).queued.Keys == KeySet(QueuedIds(d.queued))
    ensures FreshCatalogs(d).reserved.Keys == KeySet(ReservedNames(d.reserved))
    ensures !KeysStale(d, CatalogsOf(FreshCatalogs(d)))
  {
    AddToEmpty(RunningRows(d.running), RunningIds(d.running));
    AddToEmpty(QueuedRows(d.queued), QueuedIds(d.queued));
    AddToEmpty(ReservedRows(d.reserved), ReservedNames(d.reserved));
  }

  /** The refresh after a fetch with the intended staleness test and rebuild. */
  function IntendedRefresh(nodes: NodeTable, c: JobMenus, d: Snapshot, panelType: string, panelId: string): Refresh {
    var r := Recolored(nodes, d.nodeinfo);
    if r.outcome.Threw? then Refresh(r.table, c, false, NoPanel, r.outcome)
    else if !KeysStale(d, c) then
      Refresh(r.table, c, false, PanelFor(panelType, panelId, d.running, d.queued, d.reserved), Done)
    else
      var m := FreshCatalogs(d);
      if m.outcome.Threw? then Refresh(r.table, CatalogsOf(m), false, NoPanel, m.outcome)
      else Refresh(r.table, CatalogsOf(m), true, PanelFor(panelType, panelId, d.running, d.queued, d.reserved), Done)
  }

  /**
   * With the intended refresh, a feed that names each job once never makes a
   * frame throw in the jobs menu, the open info panel is always refreshed, the
   * menu ends up in step with the feed, and a later refresh over the same
   * jobs rebuilds nothing.
   */
  lemma IntendedRefreshSettles(
    nodes: NodeTable, c: JobMenus, d: Snapshot, panelType: string, panelId: string, later: NodeTable)
    requires DistinctJobs(d) && Recolored(nodes, d.nodeinfo).outcome == Done
    ensures IntendedRefresh(nodes, c, d, panelType, panelId).outcome == Done
    ensures IntendedRefresh(nodes, c, d, panelType, panelId).panel ==
      PanelFor(panelType, panelId, d.running, d.queued, d.reserved)
    ensures !KeysStale(d, IntendedRefresh(nodes, c, d, panelType, panelId).catalogs)
    ensures !IntendedRefresh(later, IntendedRefresh(nodes, c, d, panelType, panelId).catalogs, d, panelType, panelId).rebuilt
  {
    FreshCatalogsMatchFeed(d);
  }

  /**
   * Filtering by a job whose location entries all name nodes in the table
   * succeeds, and afterwards a node is active exactly when some location
   * entry of the first running job with that id names it.
   */
  lemma FilterShowsJobNodes(t: NodeTable, jobs: seq<RunningJob>, jobId: string)
    requires forall k :: 0 <= k < |LocationsOf(jobs, jobId)| ==>
      |LocationsOf(jobs, jobId)[k]| >= ID_LENGTH && LocationsOf(jobs, jobId)[k][..ID_LENGTH] in t
    ensures Collected(LocationsOf(jobs, jobId)).outcome == Done
    ensures Shown(AllActive(t, false), Collected(LocationsOf(jobs, jobId)).ids).outcome == Done
    ensures Shown(AllActive(t, false), Collected(LocationsOf(jobs, jobId)).ids).table.Keys == t.Keys
    ensures forall id :: id in t ==>
      (Shown(AllActive(t, false), Collected(LocationsOf(jobs, jobId)).ids).table[id].active <==>
        exists k :: 0 <= k < |LocationsOf(jobs, jobId)| && LocationsOf(jobs, jobId)[k][..ID_LENGTH] == id)
  {
    var locs := LocationsOf(jobs, jobId);
    CollectedIds(locs);
    var ids := Collected(locs).ids;
    FilterShowsExactly(t, ids);
    forall id | id in t
      ensures id in ids <==> exists k :: 0 <= k < |locs| && locs[k][..ID_LENGTH] == id
    {
      if id in ids {
        var k :| 0 <= k < |ids| && ids[k] == id;
        assert locs[k][..ID_LENGTH] == id;
      }
    }
  }

  /** Filtering by an id no running job has hides every node and throws nothing. */
  lemma FilterUnknownJobHidesAll(t: NodeTable, jobs: seq<RunningJob>, jobId: string)
    requires forall i :: 0 <= i < |jobs| ==> jobs[i].jobId != jobId
    ensures Collected(LocationsOf(jobs, jobId)) == Gathered([], Done)
    ensures Shown(AllActive(t, false), Collected(LocationsOf(jobs, jobId)).ids).outcome == Done
    ensures forall id :: id in t ==>
      Shown(AllActive(t, false), Collected(LocationsOf(jobs, jobId)).ids).table[id] == t[id].(active := false)
  {
    assert FirstMatch(RunningIds(jobs), jobId) == None;
  }

  /**
   * The rack loop of CreateGameObjects: `n` visible and `n` invisible racks,
   * each showing itself iff its kind matches the current visibility.
   */
  method BuildRacks(n: nat, shown: bool) returns (visible: array<Rack>, invisible: array<Rack>)
    ensures fresh(visible) && fresh(invisible) && visible != invisible
    ensures visible.Length == n && invisible.Length == n
    ensures forall i :: 0 <= i < n ==> visible[i] == Rack(shown, None) && invisible[i] == Rack(!shown, None)
  {
    visible := new Rack[n];
    invisible := new Rack[n];
    var i := 0;
    while i < n
      invariant 0 <= i <= n
      invariant forall j :: 0 <= j < i ==> visible[j] == Rack(shown, None) && invisible[j] == Rack(!shown, None)
    {
      visible[i] := Rack(shown, None);
      invisible[i] := Rack(!shown, None);
      i := i + 1;
    }
  }

  /**
   * The Cooley manager component. The fields hold what the C# object holds;
   * scene objects are values in its tables and arrays, and `created` says
   * whether the "Cooley" scene object exists.
   */
  class CooleyManager {
    /** Whether CreateGameObjects has built the "Cooley" and "Content" objects. */
    var created: bool
    /** Local position of the "Content" object, once laid out. */
    var contentPosition: Option<Vec3>
    var fetchedData: Option<Payload>
    var numOfRacks: int
    var nodesPerRack: int
    var nodesInfo: seq<NodeEntry>
    var runningJobsInfo: seq<RunningJob>
    var queuedJobsInfo: seq<QueuedJob>
    var reservedJobsInfo: seq<ReservedJob>
    var runningJobs: map<string, RunningEntry>
    var queuedJobs: map<string, QueuedEntry>
    var reservedJobs: map<string, ReservedEntry>
    var nodes: NodeTable
    var visibleRacks: array<Rack>
    var invisibleRacks: array<Rack>
    var dataCountdown: real
    var racksVisible: bool
    /**
     * CurrentInfoPanel["type"] and CurrentInfoPanel["id"]: a public property that only
     * Start writes in the code shown; public fields here, so that any writer can be assumed.
     */
    var panelType: string
    var panelId: string
    /** The settings menu's toggle-racks button, and the jobs menu's two buttons. */
    var toggleRacksInteractable: bool
    var jobsMenuButtonActive: bool
    var showAllNodesButtonActive: bool

    /** The rack arrays are two distinct arrays of the same length. */
    predicate Valid()
      reads this`visibleRacks, this`invisibleRacks
    {
      visibleRacks != invisibleRacks && visibleRacks.Length == invisibleRacks.Length
    }

    /** Every rack in use shows the visible model iff the racks are visible. */
    predicate RacksAgree()
      reads this`numOfRacks, this`racksVisible, this`visibleRacks, this`invisibleRacks
      reads visibleRacks, invisibleRacks
    {
      forall i :: 0 <= i < numOfRacks && 0 <= i < visibleRacks.Length && i < invisibleRacks.Length ==>
        visibleRacks[i].active == racksVisible && invisibleRacks[i].active == !racksVisible
    }

    /** The kept parts of the last payload that was not a maintenance notice. */
    function Data(): Snapshot
      reads this`numOfRacks, this`nodesPerRack, this`nodesInfo
      reads this`runningJobsInfo, this`queuedJobsInfo, this`reservedJobsInfo
    {
      Snapshot(numOfRacks, nodesPerRack, nodesInfo, runningJobsInfo, queuedJobsInfo, reservedJobsInfo)
    }

    /** The jobs menu's three catalogues. */
    function Catalogs(): JobMenus
      reads this`runningJobs, this`queuedJobs, this`reservedJobs
    {
      JobMenus(runningJobs, queuedJobs, reservedJobs)
    }

    /** Start: racks visible, no info panel open, the three buttons off. */
    constructor ()
      ensures Valid() && RacksAgree()
      ensures !created && contentPosition == None && fetchedData == None
      ensures racksVisible && panelType == "none" && panelId == "none"
      ensures !toggleRacksInteractable && !jobsMenuButtonActive && !showAllNodesButtonActive
      ensures nodes == map[] && Catalogs() == JobMenus(map[], map[], map[])
      ensures Data() == Snapshot(0, 0, [], [], [], [])
      ensures dataCountdown == 0.0 && visibleRacks.Length == 0
    {
      created := false;
      contentPosition := None;
      fetchedData := None;
      numOfRacks, nodesPerRack := 0, 0;
      nodesInfo, runningJobsInfo, queuedJobsInfo, reservedJobsInfo := [], [], [], [];
      runningJobs, queuedJobs, reservedJobs := map[], map[], map[];
      nodes := map[];
      visibleRacks := new Rack[0];
      invisibleRacks := new Rack[0];
      dataCountdown := 0.0;
      racksVisible := true;
      panelType, panelId := "none", "none";
      toggleRacksInteractable := false;
      jobsMenuButtonActive := false;
      showAllNodesButtonActive := false;
    }

    /**
     * GetData: take a downloaded payload, restart the timer and, unless the
     * machine is under maintenance, keep the payload's dimensions, nodes and jobs.
     */
    method GetData(feed: Payload)
      modifies this`fetchedData, this`dataCountdown, this`numOfRacks, this`nodesPerRack
      modifies this`nodesInfo, this`runningJobsInfo, this`queuedJobsInfo, this`reservedJobsInfo
      ensures fetchedData == Some(feed) && dataCountdown == DATA_TIMER_VALUE
      ensures Data() == if feed.maint then old(Data()) else SnapshotOf(feed)
    {
      dataCountdown := DATA_TIMER_VALUE;
      fetchedData := Some(feed);
      if !feed.maint {
        numOfRacks := feed.racks;
        nodesPerRack := feed.nodecards;
        nodesInfo := feed.nodeinfo;
        runningJobsInfo := feed.running;
        queuedJobsInfo := feed.queued;
        reservedJobsInfo := feed.reservation;
      }
    }

    /** IsMachineRunning: the last payload is not a maintenance notice; the toggle button follows. */
    method IsMachineRunning() returns (running: bool)
      requires fetchedData.Some?
      modifies this`toggleRacksInteractable
      ensures running <==> !fetchedData.value.maint
      ensures toggleRacksInteractable == running
    {
      running := !fetchedData.value.maint;
      toggleRacksInteractable := running;
    }

    /**
     * CreateGameObjects: build the scene (a new content object, not yet laid
     * out), one visible and one invisible rack per rack of the snapshot showing
     * the current visibility, one node object per feed entry, then the jobs menu.
     */
    method CreateGameObjects() returns (o: Outcome)
      requires Valid()
      modifies this`created, this`contentPosition, this`visibleRacks, this`invisibleRacks, this`nodes
      modifies this`runningJobs, this`queuedJobs, this`reservedJobs, this`jobsMenuButtonActive
      ensures Valid() && created && contentPosition == None
      ensures numOfRacks < 0 ==>
        && o == Threw(NegativeRackCount(numOfRacks))
        && visibleRacks == old(visibleRacks) && invisibleRacks == old(invisibleRacks)
        && nodes == old(nodes) && Catalogs() == old(Catalogs())
        && jobsMenuButtonActive == old(jobsMenuButtonActive)
      ensures numOfRacks >= 0 ==>
        && fresh(visibleRacks) && fresh(invisibleRacks) && visibleRacks.Length == numOfRacks
        && RacksAgree()
        && (forall i :: 0 <= i < numOfRacks ==>
              visibleRacks[i].position == None && invisibleRacks[i].position == None)
        && nodes == Registered(old(nodes), nodesInfo).table
      ensures numOfRacks >= 0 && Registered(old(nodes), nodesInfo).outcome.Threw? ==>
        && o == Registered(old(nodes), nodesInfo).outcome
        && Catalogs() == old(Catalogs()) && jobsMenuButtonActive == old(jobsMenuButtonActive)
      ensures numOfRacks >= 0 && Registered(old(nodes), nodesInfo).outcome == Done ==>
        && Catalogs() == CatalogsOf(RebuildFrom(old(Catalogs()), Data()))
        && o == RebuildFrom(old(Catalogs()), Data()).outcome
        && jobsMenuButtonActive == (old(jobsMenuButtonActive) || o == Done)
    {
      created := true;
      contentPosition := None;
      if numOfRacks < 0 {
        return Threw(NegativeRackCount(numOfRacks));
      }
      CreateRacks();
      o := CreateNodesAndMenu();
    }

    /** The rack step of CreateGameObjects: one visible and one invisible rack per rack in use. */
    method CreateRacks()
      requires numOfRacks >= 0
      modifies this`visibleRacks, this`invisibleRacks
      ensures Valid() && RacksAgree()
      ensures fresh(visibleRacks) && fresh(invisibleRacks) && visibleRacks.Length == numOfRacks
      ensures forall i :: 0 <= i < numOfRacks ==>
        visibleRacks[i].position == None && invisibleRacks[i].position == None
    {
      visibleRacks, invisibleRacks := BuildRacks(numOfRacks, racksVisible);
    }

    /** The rest of CreateGameObjects once the racks exist: the node objects, then the jobs menu. */
    method CreateNodesAndMenu() returns (o: Outcome)
      modifies this`nodes, this`runningJobs, this`queuedJobs, this`reservedJobs, this`jobsMenuButtonActive
      ensures nodes == Registered(old(nodes), nodesInfo).table
      ensures Registered(old(nodes), nodesInfo).outcome.Threw? ==>
        && o == Registered(old(nodes), nodesInfo).outcome
        && Catalogs() == old(Catalogs()) && jobsMenuButtonActive == old(jobsMenuButtonActive)
      ensures Registered(old(nodes), nodesInfo).outcome == Done ==>
        && Catalogs() == CatalogsOf(RebuildFrom(old(Catalogs()), Data()))
        && o == RebuildFrom(old(Catalogs()), Data()).outcome
        && jobsMenuButtonActive == (old(jobsMenuButtonActive) || o == Done)
    {
      var table, registered := RegisterNodes(nodes, nodesInfo);
      nodes := table;
      if registered.Threw? {
        return registered;
      }
      o := CreateJobsMenu();
    }

    /**
     * UpdateGameObjects: lay the racks out side by side, place every node of
     * the feed in its grid slot, then recolour the nodes.
     */
    method UpdateGameObjects() returns (o: Outcome)
      requires Valid()
      modifies this`contentPosition, this`nodes, visibleRacks, invisibleRacks
      ensures !created ==>
        && o == Threw(NoScene) && nodes == old(nodes) && contentPosition == old(contentPosition)
        && visibleRacks[..] == old(visibleRacks[..]) && invisibleRacks[..] == old(invisibleRacks[..])
      ensures created ==>
        && contentPosition == Some(CONTENT_OFFSET)
        && visibleRacks[..] == Positioned(old(visibleRacks[..]), numOfRacks)
        && invisibleRacks[..] == Positioned(old(invisibleRacks[..]), numOfRacks)
      ensures created && numOfRacks > visibleRacks.Length ==>
        o == Threw(RackIndexOutOfRange(visibleRacks.Length)) && nodes == old(nodes)
      ensures created && numOfRacks <= visibleRacks.Length && Placed(old(nodes), nodesInfo, 0).outcome.Threw? ==>
        nodes == Placed(old(nodes), nodesInfo, 0).table && o == Placed(old(nodes), nodesInfo, 0).outcome
      ensures created && numOfRacks <= visibleRacks.Length && Placed(old(nodes), nodesInfo, 0).outcome == Done ==>
        Step(nodes, o) == Recolored(Placed(old(nodes), nodesInfo, 0).table, nodesInfo)
    {
      if !created {
        return Threw(NoScene);
      }
      contentPosition := Some(CONTENT_OFFSET);
      var visible, invisible, n := visibleRacks, invisibleRacks, numOfRacks;
      var i := 0;
      while i < n
        modifies visible, invisible
        invariant 0 <= i <= visible.Length && (n < 0 ==> i == 0) && (n >= 0 ==> i <= n)
        invariant visible[..] == Positioned(old(visible[..]), i)
        invariant invisible[..] == Positioned(old(invisible[..]), i)
      {
        if i == visible.Length {
          PositionedSaturates(old(visible[..]), i, n);
          PositionedSaturates(old(invisible[..]), i, n);
          return Threw(RackIndexOutOfRange(i));
        }
        visible[i] := visible[i].(position := Some(RackPosition(i)));
        invisible[i] := invisible[i].(position := Some(RackPosition(i)));
        i := i + 1;
      }
      PositionedSaturates(old(visible[..]), i, n);
      PositionedSaturates(old(invisible[..]), i, n);
      var placed, laidOut := PlaceNodes(nodes, nodesInfo);
      nodes := placed;
      if laidOut.Threw? {
        return laidOut;
      }
      o := UpdateNodesColors();
    }

    /** UpdateNodesColors: paint every node of the feed that is not down. */
    method UpdateNodesColors() returns (o: Outcome)
      modifies this`nodes
      ensures Step(nodes, o) == Recolored(old(nodes), nodesInfo)
    {
      var table, recolored := RecolorNodes(nodes, nodesInfo);
      nodes := table;
      o := recolored;
    }

    /** JobMenuCheckUpdate: whether any category has a raw key unlike some stored key. */
    method JobMenuCheckUpdate() returns (changed: bool)
      ensures changed <==> MenuStale(Data(), Catalogs())
    {
      changed := MismatchSearch(RunningIds(runningJobsInfo), runningJobs.Keys);
      if changed {
        return;
      }
      changed := MismatchSearch(QueuedIds(queuedJobsInfo), queuedJobs.Keys);
      if changed {
        return;
      }
      changed := MismatchSearch(ReservedNames(reservedJobsInfo), reservedJobs.Keys);
    }

    /**
     * CreateJobsMenu: add the snapshot's running, queued and reserved jobs to
     * the catalogues, then show the jobs-menu button.
     */
    method CreateJobsMenu() returns (o: Outcome)
      modifies this`runningJobs, this`queuedJobs, this`reservedJobs, this`jobsMenuButtonActive
      ensures Catalogs() == CatalogsOf(RebuildFrom(old(Catalogs()), Data()))
      ensures o == RebuildFrom(old(Catalogs()), Data()).outcome
      ensures jobsMenuButtonActive == (old(jobsMenuButtonActive) || o == Done)
    {
      var running, r := AddAll(runningJobs, RunningRows(runningJobsInfo));
      runningJobs := running;
      if r.Threw? {
        return r;
      }
      var queued, q := AddAll(queuedJobs, QueuedRows(queuedJobsInfo));
      queuedJobs := queued;
      if q.Threw? {
        return q;
      }
      var reserved, s := AddAll(reservedJobs, ReservedRows(reservedJobsInfo));
      reservedJobs := reserved;
      if s.Threw? {
        return s;
      }
      jobsMenuButtonActive := true;
      o := Done;
    }

    /** UpdateJobsMenu: rebuild the jobs menu when the check reports a change. */
    method UpdateJobsMenu() returns (o: Outcome)
      modifies this`runningJobs, this`queuedJobs, this`reservedJobs, this`jobsMenuButtonActive
      ensures !MenuStale(Data(), old(Catalogs())) ==>
        o == Done && Catalogs() == old(Catalogs()) && jobsMenuButtonActive == old(jobsMenuButtonActive)
      ensures MenuStale(Data(), old(Catalogs())) ==>
        && Catalogs() == CatalogsOf(RebuildFrom(old(Catalogs()), Data()))
        && o == RebuildFrom(old(Catalogs()), Data()).outcome
        && jobsMenuButtonActive == (old(jobsMenuButtonActive) || o == Done)
    {
      var changed := JobMenuCheckUpdate();
      if !changed {
        return Done;
      }
      o := CreateJobsMenu();
    }

    /**
     * ToggleRacks: flip the visibility flag and show the matching model of
     * every rack in use; a rack count beyond the arrays throws part-way.
     */
    method ToggleRacks() returns (o: Outcome)
      requires Valid()
      modifies this`racksVisible, visibleRacks, invisibleRacks
      ensures racksVisible == !old(racksVisible) && RacksAgree()
      ensures visibleRacks[..] == WithActive(old(visibleRacks[..]), numOfRacks, racksVisible)
      ensures invisibleRacks[..] == WithActive(old(invisibleRacks[..]), numOfRacks, !racksVisible)
      ensures o == if numOfRacks > visibleRacks.Length then Threw(RackIndexOutOfRange(visibleRacks.Length)) else Done
    {
      racksVisible := !racksVisible;
      var visible, invisible, n, shown := visibleRacks, invisibleRacks, numOfRacks, racksVisible;
      var i := 0;
      while i < n
        modifies visible, invisible
        invariant 0 <= i <= visible.Length && (n < 0 ==> i == 0) && (n >= 0 ==> i <= n)
        invariant visible[..] == WithActive(old(visible[..]), i, shown)
        invariant invisible[..] == WithActive(old(invisible[..]), i, !shown)
      {
        if i == visible.Length {
          WithActiveSaturates(old(visible[..]), i, n, shown);
          WithActiveSaturates(old(invisible[..]), i, n, !shown);
          return Threw(RackIndexOutOfRange(i));
        }
        visible[i] := visible[i].(active := shown);
        invisible[i] := invisible[i].(active := !shown);
        i := i + 1;
      }
      WithActiveSaturates(old(visible[..]), i, n, shown);
      WithActiveSaturates(old(invisible[..]), i, n, !shown);
      o := Done;
    }

    /**
     * FilterNodeGameObjectsByJobId: hide every node, show the nodes the first
     * running job with this id is allocated, and open its info panel.
     */
    method FilterNodeGameObjectsByJobId(jobId: string) returns (panel: PanelView, o: Outcome)
      modifies this`nodes, this`showAllNodesButtonActive
      ensures Collected(LocationsOf(runningJobsInfo, jobId)).outcome.Threw? ==>
        && o == Collected(LocationsOf(runningJobsInfo, jobId)).outcome
        && nodes == old(nodes) && panel == NoPanel
        && showAllNodesButtonActive == old(showAllNodesButtonActive)
      ensures Collected(LocationsOf(runningJobsInfo, jobId)).outcome == Done ==>
        Step(nodes, o) == Shown(AllActive(old(nodes), false), Collected(LocationsOf(runningJobsInfo, jobId)).ids)
      ensures Collected(LocationsOf(runningJobsInfo, jobId)).outcome == Done && o.Threw? ==>
        panel == NoPanel && showAllNodesButtonActive == old(showAllNodesButtonActive)
      ensures Collected(LocationsOf(runningJobsInfo, jobId)).outcome == Done && o == Done ==>
        panel == RunningPanel(FindRunning(runningJobsInfo, jobId)) && showAllNodesButtonActive
    {
      var i := 0;
      while i < |runningJobsInfo| && runningJobsInfo[i].jobId != jobId
        invariant 0 <= i <= |runningJobsInfo|
        invariant forall j :: 0 <= j < i ==> runningJobsInfo[j].jobId != jobId
      {
        i := i + 1;
      }
      var locations := if i < |runningJobsInfo| then runningJobsInfo[i].location else [];
      assert locations == LocationsOf(runningJobsInfo, jobId);
      var toShow, collected := CollectLocationIds(locations);
      if collected.Threw? {
        return NoPanel, collected;
      }
      var hidden := SetAllActive(nodes, false);
      assert hidden == AllActive(nodes, false);
      var shown, outcome := ShowListed(hidden, toShow);
      nodes := shown;
      if outcome.Threw? {
        return NoPanel, outcome;
      }
      showAllNodesButtonActive := true;
      var job := ShowFilteredRunningJobInfo(jobId);
      return RunningPanel(job), Done;
    }

    /** ShowAllNodeGameObjects: make every node visible and hide the show-all button. */
    method ShowAllNodeGameObjects()
      modifies this`nodes, this`showAllNodesButtonActive
      ensures nodes == AllActive(old(nodes), true) && !showAllNodesButtonActive
    {
      var shown := SetAllActive(nodes, true);
      nodes := shown;
      showAllNodesButtonActive := false;
    }

    /** ShowFilteredRunningJobInfo: the first running job with this id, if any. */
    method ShowFilteredRunningJobInfo(jobId: string) returns (job: Option<RunningJob>)
      ensures job == FindRunning(runningJobsInfo, jobId)
    {
      var i := 0;
      while i < |runningJobsInfo| && runningJobsInfo[i].jobId != jobId
        invariant 0 <= i <= |runningJobsInfo|
        invariant forall j :: 0 <= j < i ==> runningJobsInfo[j].jobId != jobId
      {
        i := i + 1;
      }
      job := if i < |runningJobsInfo| then Some(runningJobsInfo[i]) else None;
    }

    /** ShowQueuedJobInfo: the first queued job with this id, if any. */
    method ShowQueuedJobInfo(jobId: string) returns (job: Option<QueuedJob>)
      ensures job == FindQueued(queuedJobsInfo, jobId)
    {
      var i := 0;
      while i < |queuedJobsInfo| && queuedJobsInfo[i].jobId != jobId
        invariant 0 <= i <= |queuedJobsInfo|
        invariant forall j :: 0 <= j < i ==> queuedJobsInfo[j].jobId != jobId
      {
        i := i + 1;
      }
      job := if i < |queuedJobsInfo| then Some(queuedJobsInfo[i]) else None;
    }

    /** ShowReservedJobInfo: the first reservation with this name, if any. */
    method ShowReservedJobInfo(jobName: string) returns (job: Option<ReservedJob>)
      ensures job == FindReserved(reservedJobsInfo, jobName)
    {
      var i := 0;
      while i < |reservedJobsInfo| && reservedJobsInfo[i].name != jobName
        invariant 0 <= i <= |reservedJobsInfo|
        invariant forall j :: 0 <= j < i ==> reservedJobsInfo[j].name != jobName
      {
        i := i + 1;
      }
      job := if i < |reservedJobsInfo| then Some(reservedJobsInfo[i]) else None;
    }

    /** The end of a data refresh: refresh whichever info panel CurrentInfoPanel names. */
    method RefreshInfoPanel() returns (panel: PanelView)
      ensures panel == PanelFor(panelType, panelId, runningJobsInfo, queuedJobsInfo, reservedJobsInfo)
    {
      panel := NoPanel;
      if panelType == "running" {
        var job := ShowFilteredRunningJobInfo(panelId);
        panel := RunningPanel(job);
      } else if panelType == "queued" {
        var job := ShowQueuedJobInfo(panelId);
        panel := QueuedPanel(job);
      } else if panelType == "reserved" {
        var job := ShowReservedJobInfo(panelId);
        panel := ReservedPanel(job);
      }
    }

    /**
     * The body of Update once the timer has run out: fetch, recolour the
     * nodes, refresh the jobs menu, then refresh the open info panel.
     */
    method RefreshData(feed: Payload) returns (panel: PanelView, o: Outcome)
      modifies this`fetchedData, this`dataCountdown, this`numOfRacks, this`nodesPerRack
      modifies this`nodesInfo, this`runningJobsInfo, this`queuedJobsInfo, this`reservedJobsInfo
      modifies this`nodes, this`runningJobs, this`queuedJobs, this`reservedJobs, this`jobsMenuButtonActive
      ensures dataCountdown == DATA_TIMER_VALUE && fetchedData == Some(feed)
      ensures Data() == if feed.maint then old(Data()) else SnapshotOf(feed)
      ensures
        var f := Refreshed(old(nodes), old(Catalogs()), Data(), panelType, panelId);
        && nodes == f.nodes && Catalogs() == f.catalogs && panel == f.panel && o == f.outcome
        && jobsMenuButtonActive == (old(jobsMenuButtonActive) || f.rebuilt)
    {
      panel := NoPanel;
      GetData(feed);
      o := UpdateNodesColors();
      if o.Threw? {
        return;
      }
      o := UpdateJobsMenu();
      if o.Threw? {
        return;
      }
      panel := RefreshInfoPanel();
    }

    /**
     * Update, once per frame: nothing happens until the scene exists; then the
     * timer runs down and, when it has run out, the manager refreshes its data
     * from the payload it is given.
     */
    method Update(deltaTime: real, feed: Payload) returns (panel: PanelView, o: Outcome)
      modifies this`fetchedData, this`dataCountdown, this`numOfRacks, this`nodesPerRack
      modifies this`nodesInfo, this`runningJobsInfo, this`queuedJobsInfo, this`reservedJobsInfo
      modifies this`nodes, this`runningJobs, this`queuedJobs, this`reservedJobs, this`jobsMenuButtonActive
      ensures !created ==> dataCountdown == old(dataCountdown)
      ensures created && !Due(created, old(dataCountdown), deltaTime) ==>
        dataCountdown == Countdown(old(dataCountdown), deltaTime)
      ensures !Due(created, old(dataCountdown), deltaTime) ==>
        && panel == NoPanel && o == Done
        && fetchedData == old(fetchedData) && Data() == old(Data())
        && nodes == old(nodes) && Catalogs() == old(Catalogs())
        && jobsMenuButtonActive == old(jobsMenuButtonActive)
      ensures Due(created, old(dataCountdown), deltaTime) ==>
        && dataCountdown == DATA_TIMER_VALUE && fetchedData == Some(feed)
        && Data() == (if feed.maint then old(Data()) else SnapshotOf(feed))
      ensures Due(created, old(dataCountdown), deltaTime) ==>
        var f := Refreshed(old(nodes), old(Catalogs()), Data(), panelType, panelId);
        && nodes == f.nodes && Catalogs() == f.catalogs && panel == f.panel && o == f.outcome
        && jobsMenuButtonActive == (old(jobsMenuButtonActive) || f.rebuilt)
    {
      panel, o := NoPanel, Done;
      if !created {
        return;
      }
      if dataCountdown > 0.0 {
        dataCountdown := dataCountdown - deltaTime;
      }
      if dataCountdown > 0.0 {
        return;
      }
      panel, o := RefreshData(feed);
    }
  }
}
