# Cooley manager: state reconciliation

This project models the `CooleyManager` component of the ALCF machine
visualisation app. The component downloads an activity snapshot of the
Cooley machine every ten seconds. It keeps three kinds of state:

- the node and rack objects of an AR scene;
- the three catalogues of the jobs menu (running, queued and reserved jobs);
- the info panel that is open.

It reconciles all of them with each new snapshot. Two versions of the
component are modelled:

- `Assets/Scripts/Machines/CooleyManager.cs`, the current version, is the
  class `Machines.CooleyManager`.
- `Assets/Scripts/CooleyManager.cs`, the older version, is the class
  `Scripts.CooleyManager`. It has a single rack array and no jobs menu, and its
  `IsMachineRunning` downloads a fresh payload first.

Modules:

- `Feed` (feed.dfy): the parsed payload and the fault kinds. It also holds the
  five-character node ids cut from node property names (`Substring(1, 5)`) and
  from job location entries (`Substring(0, 5)`).
- `Grid` (grid.dfy): the rack layout. A rack holds a fixed grid of 3 columns and
  7 rows. The module gives the closed form of the slot the counter loop assigns
  to each node, the local positions of nodes and racks, and the rack records.
- `Nodes` (nodes.dfy): the node table (`nodesDict` / `nodesGameObjects`) and
  every loop over it: create, lay out, recolour, hide all, show a list, and
  collect a job's location ids. Each loop over the feed or over a list is a
  method proved equal to a recursive definition in the same order; the loop
  that sets every node's active flag is proved node by node.
- `JobCatalog` (job_catalog.dfy): the `Dictionary.Add` fold that fills the
  jobs-menu catalogues, the change check of `JobMenuCheckUpdate` as written,
  the set comparison it was meant to be, and the first-match lookups behind
  the info panels.
- `Machines` (machines.dfy): the current component as a class whose methods
  update its fields, plus the per-frame refresh as a function (`Refreshed`).
  It also holds the intended jobs-menu refresh (`IntendedRefresh`).
- `Scripts` (scripts.dfy): the older component.

Modelling decisions:

- A C# exception (a too-short key, a missing dictionary key, a duplicate
  `Dictionary.Add`, an array index past the end) ends an operation with
  `Threw(fault)`. The state keeps whatever the operation had already changed,
  just as the C# object does after the uncaught exception ends the frame.
- Scene objects are values: a node is a `VisualNode` in a map keyed by node id,
  and a rack is a `Rack` in an array.
- The download is a parameter: `GetData`, `Update` and the older
  `IsMachineRunning` take the payload the web request would have returned.
  `Time.deltaTime` is also a parameter.
- Coordinates are exact reals. Every constant of the layout (3 columns, 7 rows,
  rack height 2.0, rack width 0.7, steps 0.3 and 0.2, node x of -0.2, z gap 0.1,
  content offset (-2, -0.9, -0.9), timer of 10 s) is the source's own.

## Model

| member | source | states |
|---|---|---|
| Feed.NodeKeyIdOfProperty | Assets/Scripts/Machines/CooleyManager.cs:397 | Cutting characters 1 to 5 from a node property text `"id...` recovers the five-character node id whatever follows it |
| Feed.LocationIdOfEntry | Assets/Scripts/Machines/CooleyManager.cs:740 | Cutting the first five characters of a location entry recovers the node id it starts with |
| Grid.SlotOf | Assets/Scripts/Machines/CooleyManager.cs:466-508 | The closed-form slot of node i lies inside the 3x7 grid and reads back as index i |
| Grid.SlotIndexInjective | Assets/Scripts/Machines/CooleyManager.cs:466-508 | Two grid slots with the same index are the same slot |
| Grid.RackStart | Assets/Scripts/Machines/CooleyManager.cs:485-495 | Node 21k opens rack k at row 0, column 0 |
| Grid.WrapGivesSlot | Assets/Scripts/Machines/CooleyManager.cs:466-506 | The column and row wrap tests, applied to the counters the loop holds at node i, give the closed-form slot of node i |
| Grid.PositionsDistinct | Assets/Scripts/Machines/CooleyManager.cs:466-508 | Two different feed positions are never laid out at the same point |
| Grid.NodeWithinRack | Assets/Scripts/Machines/CooleyManager.cs:458-502 | Every node lies strictly between its own rack's position and the next rack's |
| Grid.PositionedIdempotent | Assets/Scripts/Machines/CooleyManager.cs:458-463 | Laying the racks out a second time changes nothing |
| Grid.WithActiveTwice | Assets/Scripts/Machines/CooleyManager.cs:711-721 | Toggling the racks twice restores racks whose flags agreed with the visibility |
| Nodes.FreshNode | Assets/Scripts/Machines/CooleyManager.cs:399-411 | A new node comes from the active prefab iff its state is idle or allocated; it starts active, uncoloured and not laid out |
| Nodes.ColorRule | Assets/Scripts/Machines/CooleyManager.cs:543-557 | A down node keeps its colour; an allocated node with a colour gets that colour; every other node is white |
| Nodes.RegisterNodes | Assets/Scripts/Machines/CooleyManager.cs:394-422 | The node loop of CreateGameObjects leaves the table and outcome of the recursive definition `Registered`, stopping at the first short key |
| Nodes.RegisteredFailsIff | Assets/Scripts/Machines/CooleyManager.cs:394-422 | Node creation throws iff some raw key is too short to cut an id from |
| Nodes.RegisteredTable | Assets/Scripts/Machines/CooleyManager.cs:394-422 | After node creation the keys are the old ones plus the feed's ids, each id holds the fresh node of its last entry, and other nodes are untouched |
| Nodes.PlaceNodes | Assets/Scripts/Machines/CooleyManager.cs:436-508 | The counter loop of UpdateGameObjects, with its column, row, rack, y and z counters, leaves the table and outcome of `Placed`, which puts node i at the position of slot `SlotOf(i)` |
| Nodes.PlacedPointwise | Assets/Scripts/Machines/CooleyManager.cs:466-508 | Laying out a feed whose keys all have at least six characters and whose nodes are all in the table succeeds, keeps the keys, and changes only positions |
| Nodes.PositionAfterForgets | Assets/Scripts/Machines/CooleyManager.cs:466-508 | A node the feed names ends at a position that does not depend on where it was before |
| Nodes.PositionAfterUnnamed | Assets/Scripts/Machines/CooleyManager.cs:466-508 | A node the feed does not name keeps its position |
| Nodes.PositionAfterLast | Assets/Scripts/Machines/CooleyManager.cs:466-508 | The node of the last entry naming an id sits at the closed-form position of that entry's index |
| Nodes.CompletedLayoutIdempotent | Assets/Scripts/Machines/CooleyManager.cs:436-508 | For a feed whose keys all have at least six characters and whose nodes are all in the table, laying the nodes out a second time changes nothing |
| Nodes.PlacedOutcomeByKeys | Assets/Scripts/Machines/CooleyManager.cs:466-508 | The layout never adds or removes a node, and whether and where it throws depends only on which ids the table holds |
| Nodes.PlacedPrefix | Assets/Scripts/Machines/CooleyManager.cs:466-508 | The layout leaves the table the entries before its stopping point leave, and those entries have long enough keys and name nodes in the table |
| Nodes.PlacedIdempotent | Assets/Scripts/Machines/CooleyManager.cs:436-508 | Laying the nodes out a second time changes nothing, for every table and feed: a layout that throws stops again at the same entry with the same positions set |
| Nodes.LayoutClosedForm | Assets/Scripts/Machines/CooleyManager.cs:436-508 | For a feed whose keys all have at least six characters and whose nodes are all in the table, the layout succeeds; the node of entry i, when no later entry names the same node, sits at the position of slot i; nodes the feed does not name are unchanged |
| Nodes.RecolorNodes | Assets/Scripts/Machines/CooleyManager.cs:528-560 | The colour loop leaves the table and outcome of `Recolored`: a short key or a missing up node throws, and down nodes are skipped |
| Nodes.RecoloredColors | Assets/Scripts/Machines/CooleyManager.cs:528-560 | For a feed naming each node once, with its up nodes present, recolouring succeeds, keeps the keys, gives each node the colour rule of its entry, and leaves other nodes as they were |
| Nodes.SetAllActive | Assets/Scripts/Machines/CooleyManager.cs:750-755 | The loop over the table sets every node's active flag to the given value and changes nothing else |
| Nodes.ShowListed | Assets/Scripts/Machines/CooleyManager.cs:758-761 | The show loop leaves the table and outcome of `Shown`, throwing at the first id the table lacks |
| Nodes.ShownContents | Assets/Scripts/Machines/CooleyManager.cs:758-761 | Showing a list succeeds iff every listed id is in the table; a node is then active iff it was already active or is listed |
| Nodes.FilterShowsExactly | Assets/Scripts/Machines/CooleyManager.cs:750-761 | After hiding every node and showing a list of present ids, a node is active exactly when it is listed |
| Nodes.CollectLocationIds | Assets/Scripts/Machines/CooleyManager.cs:732-746 | The collecting loop gives the ids and outcome of `Collected`, stopping at the first location shorter than five characters |
| Nodes.CollectedIds | Assets/Scripts/Machines/CooleyManager.cs:732-746 | Collection succeeds iff every location has five characters; the ids are then the locations' five-character prefixes, in order |
| JobCatalog.AddAll | Assets/Scripts/Machines/CooleyManager.cs:637-679 | One category's `Dictionary.Add` loop leaves the catalogue and outcome of `InsertAll`, throwing at the first key already held |
| JobCatalog.InsertAllContents | Assets/Scripts/Machines/CooleyManager.cs:637-679 | The adds succeed iff no row's key is held and the rows' keys are distinct; on success the keys are the old ones plus the rows', old entries are kept and each row's entry is stored; no key is ever removed |
| JobCatalog.InsertAllFault | Assets/Scripts/Machines/CooleyManager.cs:637-679 | A run of adds can only stop on a duplicate key |
| JobCatalog.RebuildFailsOnHeldKey | Assets/Scripts/Machines/CooleyManager.cs:637-679 | Adding rows that share a key with the catalogue always throws a duplicate-key exception |
| JobCatalog.AddToEmpty | Assets/Scripts/Machines/CooleyManager.cs:637-679 | Adding rows with distinct keys to an empty catalogue succeeds and leaves exactly those keys |
| JobCatalog.MismatchSearch | Assets/Scripts/Machines/CooleyManager.cs:575-586 | The nested loop of one category returns true iff some raw id differs from some stored key |
| JobCatalog.MismatchDegenerate | Assets/Scripts/Machines/CooleyManager.cs:571-621 | The check reports a change unless there are no raw ids, or no stored keys, or the only stored key equals every raw id |
| JobCatalog.UnchangedJobsReadAsChange | Assets/Scripts/Machines/CooleyManager.cs:575-586 | The same two jobs in the feed and in the catalogue read as a change |
| JobCatalog.NewJobUnnoticed | Assets/Scripts/Machines/CooleyManager.cs:575-586 | A new job in a category whose catalogue is empty is not noticed |
| JobCatalog.RemovedJobUnnoticed | Assets/Scripts/Machines/CooleyManager.cs:575-586 | The last job leaving a category is not noticed |
| JobCatalog.PersistingJobsThrow | Assets/Scripts/Machines/CooleyManager.cs:571-687 | With two or more running jobs that stay in the feed, the check always fires and the rebuild always throws |
| JobCatalog.KeysChangedDetects | Assets/Scripts/Machines/CooleyManager.cs:563-621 | The intended set comparison reports no change for the same keys in any order, a change when a job joins the feed, and a change when a catalogued job leaves the feed |
| JobCatalog.ReorderedJobsUnchanged | Assets/Scripts/Machines/CooleyManager.cs:563-621 | Under the set comparison, the same jobs listed in another order are not a change |
| JobCatalog.FirstMatch | Assets/Scripts/Machines/CooleyManager.cs:800-808 | The index found holds the requested key and no earlier index does; there is no result iff no entry has the key |
| Machines.RefreshStallsOnPersistingJobs | Assets/Scripts/Machines/CooleyManager.cs:244-271 | Once two running jobs are catalogued and stay in the feed, every refresh whose recolouring succeeds throws a duplicate-key exception before the info panel is refreshed |
| Machines.FreshCatalogsMatchFeed | Assets/Scripts/Machines/CooleyManager.cs:628-687 | Rebuilding from empty catalogues never throws for a feed with distinct keys, and leaves exactly the feed's keys, so the set check then reports no change |
| Machines.IntendedRefreshSettles | Assets/Scripts/Machines/CooleyManager.cs:255-271 | With the intended check and rebuild, the refresh succeeds, refreshes the open panel, leaves the catalogues in step with the feed, and a later refresh over the same jobs rebuilds nothing |
| Machines.FilterShowsJobNodes | Assets/Scripts/Machines/CooleyManager.cs:728-771 | Filtering by a job whose locations name present nodes succeeds, and afterwards a node is active iff some location of the first job with that id names it |
| Machines.FilterUnknownJobHidesAll | Assets/Scripts/Machines/CooleyManager.cs:728-761 | Filtering by an id no running job has hides every node without throwing |
| Machines.BuildRacks | Assets/Scripts/Machines/CooleyManager.cs:368-391 | The rack loop builds n visible and n invisible racks, each showing itself iff its kind matches the current visibility |
| Machines.CooleyManager.constructor | Assets/Scripts/Machines/CooleyManager.cs:221-236 | Start: racks visible, no info panel open, the toggle, jobs-menu and show-all buttons off, nothing fetched or built |
| Machines.CooleyManager.GetData | Assets/Scripts/Machines/CooleyManager.cs:283-316 | The timer restarts at ten seconds; a maintenance notice keeps the old snapshot, any other payload replaces it |
| Machines.CooleyManager.IsMachineRunning | Assets/Scripts/Machines/CooleyManager.cs:328-341 | True iff the last payload is not a maintenance notice; the toggle-racks button becomes interactable exactly then |
| Machines.CooleyManager.CreateGameObjects | Assets/Scripts/Machines/CooleyManager.cs:355-425 | A new content object, not yet laid out; a negative rack count throws; otherwise fresh rack arrays that agree with the visibility, nodes as `Registered` gives them, then the jobs menu built as `RebuildFrom` gives it |
| Machines.CooleyManager.CreateRacks | Assets/Scripts/Machines/CooleyManager.cs:368-391 | Two fresh, distinct rack arrays of the snapshot's rack count, agreeing with the visibility and not yet laid out |
| Machines.CooleyManager.CreateNodesAndMenu | Assets/Scripts/Machines/CooleyManager.cs:394-424 | The node table becomes `Registered` over the feed; a short key throws before the jobs menu, otherwise the menu is rebuilt as `RebuildFrom` gives it |
| Machines.CooleyManager.UpdateGameObjects | Assets/Scripts/Machines/CooleyManager.cs:436-514 | Without a scene it throws; otherwise the content is offset, the racks are laid out side by side, a rack count past the arrays throws, and then the nodes are laid out and recoloured |
| Machines.CooleyManager.UpdateNodesColors | Assets/Scripts/Machines/CooleyManager.cs:528-560 | The node table and outcome are those of `Recolored` over the current feed |
| Machines.CooleyManager.JobMenuCheckUpdate | Assets/Scripts/Machines/CooleyManager.cs:571-621 | Reports a change iff some category has a raw key differing from some stored key |
| Machines.CooleyManager.CreateJobsMenu | Assets/Scripts/Machines/CooleyManager.cs:628-687 | The catalogues become the old ones plus the snapshot's rows, stopping at the first duplicate key; the jobs-menu button is shown only on success |
| Machines.CooleyManager.UpdateJobsMenu | Assets/Scripts/Machines/CooleyManager.cs:695-704 | Nothing changes unless the check reports a change; otherwise the jobs menu is rebuilt |
| Machines.CooleyManager.ToggleRacks | Assets/Scripts/Machines/CooleyManager.cs:711-721 | The visibility flips, every rack in use shows the matching model, and a rack count past the arrays throws part-way |
| Machines.CooleyManager.FilterNodeGameObjectsByJobId | Assets/Scripts/Machines/CooleyManager.cs:728-771 | A short location throws before anything changes; otherwise every node is hidden and the job's nodes shown, and on success the show-all button and the job's info panel appear |
| Machines.CooleyManager.ShowAllNodeGameObjects | Assets/Scripts/Machines/CooleyManager.cs:777-788 | Every node becomes active and the show-all button is hidden |
| Machines.CooleyManager.ShowFilteredRunningJobInfo | Assets/Scripts/Machines/CooleyManager.cs:796-811 | The panel shows the first running job with the id, or none |
| Machines.CooleyManager.ShowQueuedJobInfo | Assets/Scripts/Machines/CooleyManager.cs:819-839 | The panel shows the first queued job with the id, or none |
| Machines.CooleyManager.ShowReservedJobInfo | Assets/Scripts/Machines/CooleyManager.cs:847-862 | The panel shows the first reservation with the name, or none |
| Machines.CooleyManager.RefreshInfoPanel | Assets/Scripts/Machines/CooleyManager.cs:265-270 | The panel named by the current panel type is refreshed with the job of the current panel id |
| Machines.CooleyManager.RefreshData | Assets/Scripts/Machines/CooleyManager.cs:255-271 | Fetch, recolour, jobs-menu update and panel refresh, as `Refreshed` gives them, each stopped by an earlier exception |
| Machines.CooleyManager.Update | Assets/Scripts/Machines/CooleyManager.cs:244-273 | Nothing happens before the scene exists; the timer only runs down while positive; when it runs out, the data is refreshed as `RefreshData` states |
| Scripts.CooleyManager.constructor | Assets/Scripts/CooleyManager.cs:193-201 | Start: racks visible, nothing fetched or built |
| Scripts.CooleyManager.GetData | Assets/Scripts/CooleyManager.cs:262-295 | The timer restarts; a maintenance notice keeps the old snapshot, any other payload replaces it |
| Scripts.CooleyManager.IsMachineRunning | Assets/Scripts/CooleyManager.cs:307-317 | Downloads afresh, then reports true iff that payload is not a maintenance notice |
| Scripts.CooleyManager.CreateGameObjects | Assets/Scripts/CooleyManager.cs:331-397 | A new content object, not yet laid out; a negative rack count throws; otherwise one active rack per rack and nodes as `Registered` gives them |
| Scripts.CooleyManager.UpdateGameObjects | Assets/Scripts/CooleyManager.cs:408-492 | Without a scene it throws; otherwise the racks are laid out, a count past the array throws, then the nodes are laid out and recoloured |
| Scripts.CooleyManager.UpdateNodesColors | Assets/Scripts/CooleyManager.cs:506-538 | The node table and outcome are those of `Recolored` over the current feed |
| Scripts.CooleyManager.ToggleRacks | Assets/Scripts/CooleyManager.cs:601-610 | The visibility flips and every rack in use follows it; a count past the array throws part-way |
| Scripts.CooleyManager.Update | Assets/Scripts/CooleyManager.cs:206-226 | Nothing happens before the scene exists; when the timer runs out the payload is taken and the nodes recoloured |

## Left out

- The web request, JSON parsing and `Debug.Log` are not modelled. The payload is a parameter, already parsed into records.
- Unity scene calls are not modelled: `GameObject.Find`, parenting, `Instantiate` transforms, Euler rotations and the image's transform. Only the state they leave (active flags, colours, local positions) is kept.
- Floating point is not modelled: positions and the timer are exact reals, so float rounding of the layout and of `dataCountdown` is not captured.
- The queued job's score is kept as the feed's text. `Mathf.Round(float.Parse(score) * 10) * 0.1` and a score that does not parse are not modelled.
- The text label on each node object and the widgets the jobs menu builds (`UpdateRunningJobsMenu` and the rest) are not modelled. The jobs-menu catalogues and button flags are what the model keeps of them.
- A null JSON list before the first fetch, and null arrays before the scene exists, are modelled as empty.
- Unity's destroyed-object null checks are not modelled. A node missing from the table throws, as a dictionary lookup would.
- `Scripts.CooleyManager.CreateGameObjects` assumes the rack prefab is active when cloned, so new racks start active.
- Machines.CooleyManager.CreateGameObjects and Scripts.CooleyManager.CreateGameObjects: scene objects that no field holds any more stay in the scene and are not modelled. These are the "Cooley", "Content" and rack objects of an earlier call, and a node object replaced when a later entry repeats its id. Only the objects the fields hold are kept, and a new "Content" object starts without the layout offset.
- Nodes.FreshNode: assumes both node prefabs are active when cloned, so new nodes start active; neither version calls `SetActive` on a new node.
- `ColorUtility.TryParseHtmlString` is not modelled: a node stores the colour text itself, so a colour text that does not parse, or two spellings of the same colour such as "#ffffff" and "#FFFFFF", are not treated as the parsed colour would be.
- The legend, its timer and the filter code of the older file are commented out in the source and are not modelled.
- The AR image tracking that calls `CreateGameObjects` and `UpdateGameObjects`, the settings and jobs-menu managers, and `CooleyTest` are outside this model.
- Nodes.RecoloredColors: states the colours only for a feed that names each node once; with repeated ids the last entry wins, and that is not stated.
- Machines.CooleyManager.IsMachineRunning: requires that a payload was fetched; before the first fetch the C# code would throw a null-reference exception, which is not modelled.
- `CurrentInfoPanel` is a public property that nothing in the code shown writes after `Start` sets it to "none"; the model keeps its type and id as two public fields, so a writer outside the code shown can be assumed.

## Findings

| source | as written | input that shows it | evidently intended | confidence | as-written member | corrected member |
|---|---|---|---|---|---|---|
| Assets/Scripts/Machines/CooleyManager.cs:571-621 | `JobMenuCheckUpdate` returns true as soon as one raw id differs from one stored key | the feed lists jobs "1" and "2" and the running catalogue holds "1" and "2": the check reports a change; a new job in an empty catalogue is not noticed | report a change iff the feed's key set differs from the catalogue's | not executed | JobCatalog.MismatchDegenerate | JobCatalog.KeysChangedDetects |
| Assets/Scripts/Machines/CooleyManager.cs:628-687 | `CreateJobsMenu` calls `Dictionary.Add` on catalogues that are never cleared | two running jobs that stay in the feed across two refreshes: the second rebuild adds a key already held and throws, so the info panel is never refreshed | clear each catalogue, then add the snapshot's rows | not executed | Machines.RefreshStallsOnPersistingJobs | Machines.IntendedRefreshSettles |
