/**
 * The jobs menu's three catalogues (running, queued and reserved jobs keyed by
 * job id or reservation name), the check that decides whether to rebuild
 * them, and the first-match lookups that feed the job info panels.
 */
module JobCatalog {
  import opened Feed

  /** What the running-jobs menu keeps per job id. */
  datatype RunningEntry = RunningEntry(projectName: string, hexColor: string)
  /** What the queued-jobs menu keeps per job id; `score` is the feed's text. */
  datatype QueuedEntry = QueuedEntry(projectName: string, score: string)
  /** What the reserved-jobs menu keeps per reservation name. */
  datatype ReservedEntry = ReservedEntry(queue: string, nodePartitions: string)

  function RunningIds(jobs: seq<RunningJob>): (ids: seq<string>)
    ensures |ids| == |jobs| && forall i :: 0 <= i < |jobs| ==> ids[i] == jobs[i].jobId
  {
    seq(|jobs|, i requires 0 <= i < |jobs| => jobs[i].jobId)
  }

  function QueuedIds(jobs: seq<QueuedJob>): (ids: seq<string>)
    ensures |ids| == |jobs| && forall i :: 0 <= i < |jobs| ==> ids[i] == jobs[i].jobId
  {
    seq(|jobs|, i requires 0 <= i < |jobs| => jobs[i].jobId)
  }

  function ReservedNames(jobs: seq<ReservedJob>): (names: seq<string>)
    ensures |names| == |jobs| && forall i :: 0 <= i < |jobs| ==> names[i] == jobs[i].name
  {
    seq(|jobs|, i requires 0 <= i < |jobs| => jobs[i].name)
  }

  /** The (key, entry) pairs CreateJobsMenu adds for the running jobs, in feed order. */
  function RunningRows(jobs: seq<RunningJob>): seq<(string, RunningEntry)> {
    seq(|jobs|, i requires 0 <= i < |jobs| =>
      (jobs[i].jobId, RunningEntry(jobs[i].project, jobs[i].color)))
  }

  function QueuedRows(jobs: seq<QueuedJob>): seq<(string, QueuedEntry)> {
    seq(|jobs|, i requires 0 <= i < |jobs| =>
      (jobs[i].jobId, QueuedEntry(jobs[i].project, jobs[i].score)))
  }

  function ReservedRows(jobs: seq<ReservedJob>): seq<(string, ReservedEntry)> {
    seq(|jobs|, i requires 0 <= i < |jobs| =>
      (jobs[i].name, ReservedEntry(jobs[i].queue, jobs[i].partitions)))
  }

  // ------------------------------------------------------------------
  // Dictionary.Add over a list of rows.
  // ------------------------------------------------------------------

  /** A catalogue after a run of adds, and how the run ended. */
  datatype Added<V> = Added(table: map<string, V>, outcome: Outcome)

  /** `Dictionary.Add` of each row in turn: a key already held throws. */
  function InsertAll<V>(m: map<string, V>, rows: seq<(string, V)>): Added<V>
    decreases |rows|
  {
    if rows == [] then Added(m, Done)
    else if rows[0].0 in m then Added(m, Threw(DuplicateKey(rows[0].0)))
    else InsertAll(m[rows[0].0 := rows[0].1], rows[1..])
  }

  /** One category's `foreach (...) dict.Add(key, entry)` loop of CreateJobsMenu. */
  method AddAll<V>(m: map<string, V>, rows: seq<(string, V)>) returns (m': map<string, V>, o: Outcome)
    ensures Added(m', o) == InsertAll(m, rows)
  {
    m' := m;
    var i := 0;
    while i < |rows|
      invariant 0 <= i <= |rows|
      invariant InsertAll(m, rows) == InsertAll(m', rows[i..])
    {
      assert rows[i..][0] == rows[i] && rows[i..][1..] == rows[i + 1..];
      var (key, entry) := rows[i];
      if key in m' {
        return m', Threw(DuplicateKey(key));
      }
      m' := m'[key := entry];
      i := i + 1;
    }
    o := Done;
  }

  function KeysOf<V>(rows: seq<(string, V)>): set<string> {
    set i | 0 <= i < |rows| :: rows[i].0
  }

  predicate DistinctKeys<V>(rows: seq<(string, V)>) {
    forall i, j :: 0 <= i < j < |rows| ==> rows[i].0 != rows[j].0
  }

  /**
   * The adds succeed iff no row's key is already held and no two rows share a
   * key; on success the keys are the old keys plus the rows' keys, each row's
   * key holds that row's entry and the old entries are untouched. Whatever
   * happens, no key is ever removed.
   */
  lemma {:induction false} InsertAllContents<V>(m: map<string, V>, rows: seq<(string, V)>)
    ensures m.Keys <= InsertAll(m, rows).table.Keys
    ensures InsertAll(m, rows).outcome == Done <==>
              (forall i :: 0 <= i < |rows| ==> rows[i].0 !in m) && DistinctKeys(rows)
    ensures InsertAll(m, rows).outcome == Done ==>
              && InsertAll(m, rows).table.Keys == m.Keys + KeysOf(rows)
              && (forall k :: k in m ==> InsertAll(m, rows).table[k] == m[k])
              && (forall i :: 0 <= i < |rows| ==> InsertAll(m, rows).table[rows[i].0] == rows[i].1)
    decreases |rows|
  {
    if rows != [] && rows[0].0 !in m {
      var m1 := m[rows[0].0 := rows[0].1];
      var tail := rows[1..];
      InsertAllContents(m1, tail);
      assert forall i :: 0 <= i < |tail| ==> tail[i] == rows[i + 1];
      assert KeysOf(rows) == {rows[0].0} + KeysOf(tail) by {
        forall k | k in KeysOf(rows) ensures k in {rows[0].0} + KeysOf(tail) {
          var i :| 0 <= i < |rows| && rows[i].0 == k;
          if i > 0 { assert tail[i - 1].0 == k; }
        }
      }
      if (forall i :: 0 <= i < |rows| ==> rows[i].0 !in m) && DistinctKeys(rows) {
        assert forall i :: 0 <= i < |tail| ==> tail[i].0 !in m1;
      }
      if InsertAll(m, rows).outcome == Done {
        forall i, j | 0 <= i < j < |rows| ensures rows[i].0 != rows[j].0 {
          if i > 0 { assert rows[i].0 == tail[i - 1].0 && rows[j].0 == tail[j - 1].0; }
          else { assert rows[j].0 == tail[j - 1].0; }
        }
      }
    }
  }

  /** Adding a snapshot that shares a key with the catalogue always throws. */
  lemma RebuildFailsOnHeldKey<V>(m: map<string, V>, rows: seq<(string, V)>, i: nat)
    requires i < |rows| && rows[i].0 in m
    ensures InsertAll(m, rows).outcome.Threw?
    ensures InsertAll(m, rows).outcome.fault.DuplicateKey?
  {
    InsertAllContents(m, rows);
    InsertAllFault(m, rows);
  }

  /**
   * Adding rows with distinct keys to an empty catalogue succeeds and leaves
   * exactly the rows' keys, whatever sequence of keys they were listed from.
   */
  lemma AddToEmpty<V>(rows: seq<(string, V)>, keys: seq<string>)
    requires |rows| == |keys| && forall i :: 0 <= i < |rows| ==> rows[i].0 == keys[i]
    requires DistinctKeys(rows)
    ensures InsertAll(map[], rows).outcome == Done
    ensures InsertAll(map[], rows).table.Keys == KeySet(keys)
  {
    InsertAllContents(map[], rows);
    assert KeysOf(rows) == KeySet(keys);
  }

  /** A run of adds can only stop on a duplicate key. */
  lemma {:induction false} InsertAllFault<V>(m: map<string, V>, rows: seq<(string, V)>)
    ensures InsertAll(m, rows).outcome.Threw? ==> InsertAll(m, rows).outcome.fault.DuplicateKey?
    decreases |rows|
  {
    if rows != [] && rows[0].0 !in m {
      InsertAllFault(m[rows[0].0 := rows[0].1], rows[1..]);
    }
  }

  /** The three catalogues after CreateJobsMenu, and how it ended. */
  datatype Menus = Menus(
    running: map<string, RunningEntry>, queued: map<string, QueuedEntry>,
    reserved: map<string, ReservedEntry>, outcome: Outcome)

  /**
   * CreateJobsMenu: running rows first, then queued, then reserved, each added
   * to what the catalogue already holds; the first exception stops the rest.
   */
  function Rebuilt(
    running: map<string, RunningEntry>, queued: map<string, QueuedEntry>,
    reserved: map<string, ReservedEntry>,
    runningJobs: seq<RunningJob>, queuedJobs: seq<QueuedJob>, reservedJobs: seq<ReservedJob>): Menus
  {
    var r := InsertAll(running, RunningRows(runningJobs));
    if r.outcome.Threw? then Menus(r.table, queued, reserved, r.outcome)
    else
      var q := InsertAll(queued, QueuedRows(queuedJobs));
      if q.outcome.Threw? then Menus(r.table, q.table, reserved, q.outcome)
      else
        var s := InsertAll(reserved, ReservedRows(reservedJobs));
        Menus(r.table, q.table, s.table, s.outcome)
  }

  // ------------------------------------------------------------------
  // JobMenuCheckUpdate, as written: a nested search for any differing pair.
  // ------------------------------------------------------------------

  /** Some raw id differs from some stored key. */
  predicate Mismatch(ids: seq<string>, keys: set<string>) {
    exists i, k :: 0 <= i < |ids| && k in keys && ids[i] != k
  }

  /**
   * One category of JobMenuCheckUpdate: for each raw id, for each stored key,
   * return true on the first pair that differs.
   */
  method MismatchSearch(ids: seq<string>, keys: set<string>) returns (found: bool)
    ensures found <==> Mismatch(ids, keys)
  {
    var i := 0;
    while i < |ids|
      invariant 0 <= i <= |ids|
      invariant forall j, k :: 0 <= j < i && k in keys ==> ids[j] == k
    {
      var pending := keys;
      while pending != {}
        invariant pending <= keys
        invariant forall k :: k in keys && k !in pending ==> ids[i] == k
        decreases pending
      {
        var k :| k in pending;
        if ids[i] != k {
          return true;
        }
        pending := pending - {k};
      }
      i := i + 1;
    }
    return false;
  }

  /**
   * What the check really computes: it reports a change unless there are no
   * raw ids, or no stored keys, or the only stored key equals every raw id.
   */
  lemma MismatchDegenerate(ids: seq<string>, keys: set<string>)
    ensures Mismatch(ids, keys) <==>
      ids != [] && keys != {} &&
      !(keys == {ids[0]} && forall i :: 0 <= i < |ids| ==> ids[i] == ids[0])
  {
    if ids != [] && keys != {} {
      if keys != {ids[0]} {
        var k :| k in keys && k != ids[0];
        assert ids[0] != k;
      } else if !(forall i :: 0 <= i < |ids| ==> ids[i] == ids[0]) {
        var i :| 0 <= i < |ids| && ids[i] != ids[0];
        assert ids[0] in keys;
      }
    }
  }

  /** The same two jobs in the feed and in the menu still read as a change. */
  lemma UnchangedJobsReadAsChange()
    ensures Mismatch(["1", "2"], {"1", "2"})
  {
    assert ["1", "2"][0] != "2";
  }

  /** A job appearing in a category whose menu is empty goes unnoticed. */
  lemma NewJobUnnoticed()
    ensures !Mismatch(["7"], {})
  {
  }

  /** The last job leaving a category goes unnoticed. */
  lemma RemovedJobUnnoticed()
    ensures !Mismatch([], {"7"})
  {
  }

  /**
   * With two or more running jobs that stay in the feed, the check always
   * fires, and the rebuild it triggers always throws on a key it still holds.
   */
  lemma PersistingJobsThrow(m: map<string, RunningEntry>, jobs: seq<RunningJob>, a: string, b: string)
    requires a in m && b in m && a != b
    requires forall k :: k in m ==> exists i :: 0 <= i < |jobs| && jobs[i].jobId == k
    ensures Mismatch(RunningIds(jobs), m.Keys)
    ensures InsertAll(m, RunningRows(jobs)).outcome.Threw?
  {
    var i :| 0 <= i < |jobs| && jobs[i].jobId == a;
    var ids := RunningIds(jobs);
    MismatchDegenerate(ids, m.Keys);
    assert ids[0] != a || ids[0] != b;
    RebuildFailsOnHeldKey(m, RunningRows(jobs), i);
  }

  // ------------------------------------------------------------------
  // The intended check: compare the key sets.
  // ------------------------------------------------------------------

  function KeySet(ids: seq<string>): set<string> {
    set i | 0 <= i < |ids| :: ids[i]
  }

  /** The menu is stale iff the feed's keys differ from the stored ones. */
  predicate KeysChanged(ids: seq<string>, keys: set<string>) {
    KeySet(ids) != keys
  }

  /**
   * The set comparison reports no change for the same keys in any order, a
   * change when a job joins the feed, and a change when a catalogued job
   * leaves it; it also notices a catalogue that lost a key the feed still has.
   */
  lemma KeysChangedDetects(ids: seq<string>, keys: set<string>, x: string)
    requires KeySet(ids) == keys
    ensures !KeysChanged(ids, keys)
    ensures x !in keys ==> KeysChanged(ids + [x], keys)
    ensures forall left :: x in keys && KeySet(left) == keys - {x} ==> KeysChanged(left, keys)
    ensures x in keys ==> KeysChanged(ids, keys - {x})
  {
    if x !in keys {
      assert (ids + [x])[|ids|] == x;
      assert x in KeySet(ids + [x]);
    }
  }

  /** The key set ignores order: the example the as-written check gets wrong. */
  lemma ReorderedJobsUnchanged()
    ensures !KeysChanged(["2", "1"], {"1", "2"})
  {
    var ids := ["2", "1"];
    assert ids[0] == "2" && ids[1] == "1";
    assert "1" in KeySet(ids) && "2" in KeySet(ids);
  }

  // ------------------------------------------------------------------
  // Show*JobInfo: the first job of the feed with the requested key.
  // ------------------------------------------------------------------

  /** The index of the first occurrence of `id` in `keys`, if any. */
  function FirstMatch(keys: seq<string>, id: string): (r: Option<nat>)
    ensures r.Some? ==> r.value < |keys| && keys[r.value] == id
    ensures r.Some? ==> forall j :: 0 <= j < r.value ==> keys[j] != id
    ensures r.None? <==> forall j :: 0 <= j < |keys| ==> keys[j] != id
    decreases |keys|
  {
    if keys == [] then None
    else if keys[0] == id then Some(0)
    else match FirstMatch(keys[1..], id)
      case None => None
      case Some(k) => Some(k + 1)
  }

  function FindRunning(jobs: seq<RunningJob>, id: string): Option<RunningJob> {
    match FirstMatch(RunningIds(jobs), id)
    case None => None
    case Some(k) => Some(jobs[k])
  }

  function FindQueued(jobs: seq<QueuedJob>, id: string): Option<QueuedJob> {
    match FirstMatch(QueuedIds(jobs), id)
    case None => None
    case Some(k) => Some(jobs[k])
  }

  function FindReserved(jobs: seq<ReservedJob>, name: string): Option<ReservedJob> {
    match FirstMatch(ReservedNames(jobs), name)
    case None => None
    case Some(k) => Some(jobs[k])
  }

  /** The locations of the first running job with this id; none if it is absent. */
  function LocationsOf(jobs: seq<RunningJob>, id: string): seq<string> {
    match FindRunning(jobs, id)
    case None => []
    case Some(job) => job.location
  }

  /** Which info panel a frame refreshed, and with what job (None: not found). */
  datatype PanelView =
    | NoPanel
    | RunningPanel(running: Option<RunningJob>)
    | QueuedPanel(queued: Option<QueuedJob>)
    | ReservedPanel(reserved: Option<ReservedJob>)

  /** The dispatch on CurrentInfoPanel["type"] at the end of a data refresh. */
  function PanelFor(
    panelType: string, panelId: string,
    running: seq<RunningJob>, queued: seq<QueuedJob>, reserved: seq<ReservedJob>): PanelView
  {
    if panelType == "running" then RunningPanel(FindRunning(running, panelId))
    else if panelType == "queued" then QueuedPanel(FindQueued(queued, panelId))
    else if panelType == "reserved" then ReservedPanel(FindReserved(reserved, panelId))
    else NoPanel
  }
}
