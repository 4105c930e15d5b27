/**
 The read path as the front-end file controller answers it: the plain file
 lookup, and the simulated GET that decides, from the current component
 statuses and file placements, whether a read succeeds and which components
 the request reached.
 */
module ReadPath {
  import opened Basics
  import opened Cluster

  /** `i` is the first file whose name equals `filename` ignoring case. */
  predicate FirstMatch(files: seq<FileEntry>, filename: string, i: int) {
    && 0 <= i < |files|
    && EqualsIgnoreCase(files[i].name, filename)
    && forall j :: 0 <= j < i ==> !EqualsIgnoreCase(files[j].name, filename)
  }

  /** No file's name equals `filename` ignoring case. */
  predicate NoMatch(files: seq<FileEntry>, filename: string) {
    forall j :: 0 <= j < |files| ==> !EqualsIgnoreCase(files[j].name, filename)
  }

  /** The stream search `filter(equalsIgnoreCase).findFirst()`, as a position. */
  function FindFile(files: seq<FileEntry>, filename: string): (r: Option<nat>)
    ensures r.Some? ==> FirstMatch(files, filename, r.value)
    ensures r.None? <==> NoMatch(files, filename)
  {
    if |files| == 0 then None
    else if EqualsIgnoreCase(files[0].name, filename) then Some(0)
    else
      match FindFile(files[1..], filename)
      case None => None
      case Some(k) => Some(k + 1)
  }

  /** Reply of the plain lookup: 200 with name and location, or 404; always three progress steps. */
  datatype FileReply = FileReply(code: int, name: Option<string>, location: Option<string>, steps: seq<string>)

  const StepFrontEnd := "Contacting Front-End Service..."
  const StepPartitionManager := "Partition Manager locating file..."
  const NotFoundMessage := "File not found in any Extent Node."

  /**
   The plain lookup. It consults only the file placements: component
   statuses play no part, which the signature makes explicit.
   */
  function GetFile(files: seq<FileEntry>, filename: string): (r: FileReply)
    ensures r.code == 200 || r.code == 404
    ensures r.code == 404 <==> NoMatch(files, filename)
    ensures forall i :: FirstMatch(files, filename, i) ==>
              r.name == Some(files[i].name) && r.location == Some(files[i].location)
    ensures r.code == 404 ==> r.name == None && r.location == None
    ensures r.code == 200 ==> r.name.Some? && r.location.Some?
    ensures |r.steps| == 3 && r.steps[0] == StepFrontEnd && r.steps[1] == StepPartitionManager
    ensures r.steps[2] == if r.code == 200 then r.location.value + " serving file..." else NotFoundMessage
  {
    var steps := [StepFrontEnd, StepPartitionManager];
    match FindFile(files, filename)
    case Some(i) =>
      var f := files[i];
      FileReply(200, Some(f.name), Some(f.location), steps + [f.location + " serving file..."])
    case None =>
      FileReply(404, None, None, steps + [NotFoundMessage])
  }

  /** Reply of the simulated GET. */
  datatype SimReply = SimReply(components: seq<ComponentView>, path: seq<string>, result: string, message: string)

  const FrontEndDownMessage := "Front-End Service is down. System unavailable."
  const PartitionManagerDownMessage := "Partition Manager is down. Cannot locate file."

  function NodeDownMessage(node: string): string {
    node + " is down. File unavailable. (No replica present)"
  }

  function FoundMessage(node: string): string {
    "File found at " + node + ". System is available."
  }

  /** The simulated GET tests for exactly "down"; any other status passes. */
  predicate IsDown(s: ClusterState, c: string) {
    c in s.status && s.status[c] == "down"
  }

  function RequestedFile(body: map<string, string>): string {
    MapGetOr(body, "filename", "")
  }

  /**
   The simulated GET. It first records the outcome of the file lookup, then
   overrides it in a fixed precedence: Front-End down, else Partition Manager
   down, else the file's node down, else a found file succeeds. The controller
   dereferences the statuses of both front components and of the file's node,
   so it needs a well-formed state, which every reachable state is.
   */
  function SimulateGet(s: ClusterState, body: map<string, string>): (r: SimReply)
    requires Wf(s)
    ensures r.components == SystemStatus(s.status)
    ensures r.result == "success" || r.result == "failure"
    ensures r.result == "success" <==>
              && !IsDown(s, FrontEnd)
              && !IsDown(s, PartitionManager)
              && exists i :: FirstMatch(s.files, RequestedFile(body), i) && !IsDown(s, s.files[i].location)
    ensures IsDown(s, FrontEnd) ==>
              r.result == "failure" && r.path == [FrontEnd] && r.message == FrontEndDownMessage
    ensures !IsDown(s, FrontEnd) && IsDown(s, PartitionManager) ==>
              r.result == "failure" && r.path == [FrontEnd, PartitionManager] && r.message == PartitionManagerDownMessage
    ensures !IsDown(s, FrontEnd) && !IsDown(s, PartitionManager) && NoMatch(s.files, RequestedFile(body)) ==>
              r.result == "failure" && r.path == [FrontEnd, PartitionManager] && r.message == NotFoundMessage
    ensures forall i :: FirstMatch(s.files, RequestedFile(body), i) && !IsDown(s, FrontEnd) && !IsDown(s, PartitionManager) ==>
              && r.path == [FrontEnd, PartitionManager, s.files[i].location]
              && (IsDown(s, s.files[i].location) ==> r.message == NodeDownMessage(s.files[i].location))
              && (!IsDown(s, s.files[i].location) ==> r.message == FoundMessage(s.files[i].location))
  {
    assert "success"[0] != "failure"[0];
    var filename := RequestedFile(body);
    var components := SystemStatus(s.status);
    // The outcome of the lookup, overridden below by the availability checks.
    var fileNode: Option<string> := match FindFile(s.files, filename) case Some(i) => Some(s.files[i].location) case None => None;
    if s.status[FrontEnd] == "down" then
      SimReply(components, [FrontEnd], "failure", FrontEndDownMessage)
    else if s.status[PartitionManager] == "down" then
      SimReply(components, [FrontEnd, PartitionManager], "failure", PartitionManagerDownMessage)
    else
      match fileNode
      case None =>
        SimReply(components, [FrontEnd, PartitionManager], "failure", NotFoundMessage)
      case Some(node) =>
        if s.status[node] == "down" then
          SimReply(components, [FrontEnd, PartitionManager, node], "failure", NodeDownMessage(node))
        else
          SimReply(components, [FrontEnd, PartitionManager, node], "success", FoundMessage(node))
  }

  /** The path of a simulated GET is always a non-empty prefix of Front-End, Partition Manager, file node. */
  lemma PathIsPrefixOfRoute(s: ClusterState, body: map<string, string>)
    requires Wf(s)
    ensures var r := SimulateGet(s, body);
      && 1 <= |r.path| <= 3
      && r.path[0] == FrontEnd
      && (|r.path| >= 2 ==> r.path[1] == PartitionManager)
      && (|r.path| == 3 ==> r.path[2] in ExtentNodes)
      && (r.result == "success" ==> |r.path| == 3)
  {
  }

  /**
   The two lookups agree once both front components are not down: the
   simulated GET finds no file exactly when the plain lookup answers 404,
   and otherwise it reaches the node the plain lookup reports.
   */
  lemma ReadPathsAgree(s: ClusterState, body: map<string, string>)
    requires Wf(s)
    requires !IsDown(s, FrontEnd) && !IsDown(s, PartitionManager)
    ensures var g := GetFile(s.files, RequestedFile(body));
      var r := SimulateGet(s, body);
      && (g.code == 404 <==> r.message == NotFoundMessage)
      && (g.code == 200 ==> |r.path| == 3 && r.path[2] == g.location.value)
  {
  }

  /**
   Taking an up Extent Node down while another Extent Node is up loses no
   read: every file the simulated GET served before, it still serves after.
   */
  lemma MigrationKeepsReadsServed(s: ClusterState, body: map<string, string>, pick: nat -> nat, read: map<string, string>)
    requires Wf(s)
    requires MigrationTriggered(s, Cluster.RequestedName(body), Cluster.RequestedStatus(body))
    requires |Available(s.status, Cluster.RequestedName(body))| > 0
    requires SimulateGet(s, read).result == "success"
    ensures Wf(SetComponentStatus(s, body, pick).0)
    ensures SimulateGet(SetComponentStatus(s, body, pick).0, read).result == "success"
  {
    var name := Cluster.RequestedName(body);
    var s' := SetComponentStatus(s, body, pick).0;
    var fn := RequestedFile(read);
    NotFrontComponent(name);
    var i :| FirstMatch(s.files, fn, i) && !IsDown(s, s.files[i].location);
    assert FirstMatch(s'.files, fn, i) by {
      assert forall j :: 0 <= j < |s.files| ==> s'.files[j].name == s.files[j].name;
    }
    assert !IsDown(s', s'.files[i].location) by {
      if s.files[i].location == name {
        assert s'.files[i].location in Available(s.status, name);
      } else {
        assert s'.files[i] == s.files[i];
      }
    }
    SucceedsAt(s', read, i);
  }

  /** An Extent Node name is neither of the two front components. */
  lemma NotFrontComponent(name: string)
    requires StartsWith(name, "Extent Node")
    ensures name != FrontEnd && name != PartitionManager
  {
    assert name[0] == 'E';
    assert FrontEnd[0] != 'E' && PartitionManager[0] != 'E';
  }

  /** A file found, with every component on its route not down, is served. */
  lemma SucceedsAt(s: ClusterState, body: map<string, string>, i: int)
    requires Wf(s)
    requires FirstMatch(s.files, RequestedFile(body), i)
    requires !IsDown(s, FrontEnd) && !IsDown(s, PartitionManager) && !IsDown(s, s.files[i].location)
    ensures SimulateGet(s, body).result == "success"
  {
  }

  /**
   Taking an Extent Node down makes a file unreadable only if it stayed on
   that node, which happens only when no other Extent Node was up.
   */
  lemma StrandedFileFailsRead(s: ClusterState, body: map<string, string>, pick: nat -> nat, read: map<string, string>, i: nat)
    requires Wf(s)
    requires MigrationTriggered(s, Cluster.RequestedName(body), Cluster.RequestedStatus(body))
    requires |Available(s.status, Cluster.RequestedName(body))| == 0
    requires !IsDown(s, FrontEnd) && !IsDown(s, PartitionManager)
    requires FirstMatch(s.files, RequestedFile(read), i) && s.files[i].location == Cluster.RequestedName(body)
    ensures Wf(SetComponentStatus(s, body, pick).0)
    ensures SimulateGet(SetComponentStatus(s, body, pick).0, read).result == "failure"
    ensures SimulateGet(SetComponentStatus(s, body, pick).0, read).message == NodeDownMessage(Cluster.RequestedName(body))
  {
  }
}
