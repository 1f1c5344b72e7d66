/**
 * The Cooley activity feed, already deserialised: one download of
 * status.alcf.anl.gov/cooley/activity.json as the manager reads it, plus the
 * fixed-offset substring rules that turn raw node keys into node ids, and the
 * exceptions the manager can raise while it works through a payload.
 */
module Feed {

  datatype Option<T> = None | Some(value: T)

  /** The .NET exceptions that can escape the manager's operations part-way. */
  datatype Fault =
    | KeyTooShort(raw: string)          // String.Substring reading past the end of the text
    | MissingNode(id: string)            // Dictionary indexer on an id it does not hold
    | DuplicateKey(key: string)          // Dictionary.Add of a key it already holds
    | RackIndexOutOfRange(index: int)    // a rack array indexed past its length
    | NegativeRackCount(count: int)      // a rack array allocated with a negative size
    | NoScene                            // the scene objects used before they are created

  /** How an operation ended: normally, or with the exception that stopped it. */
  datatype Outcome = Done | Threw(fault: Fault)

  /**
   * One property of the "nodeinfo" object. `rawKey` is the property's text as
   * the JSON library prints it, so it starts with the quote that opens the
   * property name (`"cc001.cooley": {...}`); `color` is the optional "color" field.
   */
  datatype NodeEntry = NodeEntry(rawKey: string, state: string, color: Option<string>)

  /** One element of "running": its "location" lists the nodes it is allocated. */
  datatype RunningJob = RunningJob(
    jobId: string, project: string, color: string,
    runtime: string, walltime: string, location: seq<string>)

  /** One element of "queued"; `score` is the feed's text for the score. */
  datatype QueuedJob = QueuedJob(
    jobId: string, project: string, score: string, queue: string,
    walltime: string, queuedTime: string, nodes: string, mode: string)

  /** One element of "reservation"; a reservation is identified by its name. */
  datatype ReservedJob = ReservedJob(
    name: string, queue: string, partitions: string,
    start: string, duration: string, tminus: string)

  /**
   * A whole payload. `maint` says whether the "maint" key is present; when it
   * is, the manager reads none of the other fields.
   */
  datatype Payload = Payload(
    maint: bool, racks: int, nodecards: int,
    nodeinfo: seq<NodeEntry>, running: seq<RunningJob>,
    queued: seq<QueuedJob>, reservation: seq<ReservedJob>)

  /** Node ids are the five characters that precede ".cooley". */
  const ID_LENGTH: nat := 5

  /** The least length of a raw node key that `Substring(1, 5)` accepts. */
  const NODE_KEY_MIN: nat := ID_LENGTH + 1

  /** `Substring(1, 5)` of a node property's text: skips the opening quote. */
  function NodeKeyId(raw: string): (id: string)
    requires |raw| >= NODE_KEY_MIN
    ensures |id| == ID_LENGTH
  {
    raw[1..NODE_KEY_MIN]
  }

  /** `Substring(0, 5)` of an entry of a running job's "location" list. */
  function LocationId(raw: string): (id: string)
    requires |raw| >= ID_LENGTH
    ensures |id| == ID_LENGTH
  {
    raw[..ID_LENGTH]
  }

  /** The property text of node `id` recovers `id`, whatever follows it. */
  lemma NodeKeyIdOfProperty(id: string, rest: string)
    requires |id| == ID_LENGTH
    ensures |['"'] + id + rest| >= NODE_KEY_MIN
    ensures NodeKeyId(['"'] + id + rest) == id
  {
    assert (['"'] + id + rest)[1..NODE_KEY_MIN] == id;
  }

  /** A location entry `id` + suffix recovers `id`. */
  lemma LocationIdOfEntry(id: string, rest: string)
    requires |id| == ID_LENGTH
    ensures LocationId(id + rest) == id
  {
    assert (id + rest)[..ID_LENGTH] == id;
  }
}
