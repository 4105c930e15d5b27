/**
 The cluster's control-plane state as the front-end file controller keeps it:
 a status per component name, the placement of every file on an Extent Node,
 and an append-only log of file migrations. Operations: seeding the state,
 reporting component statuses, and the status toggle that re-homes the files
 of an Extent Node that goes down.
 */
module Cluster {
  import opened Basics

  const FrontEnd := "Front-End Service"
  const PartitionManager := "Partition Manager"
  const ExtentNode1 := "Extent Node 1"
  const ExtentNode2 := "Extent Node 2"
  const ExtentNode3 := "Extent Node 3"

  /** The components the status endpoints report, in report order. */
  const Components: seq<string> := [FrontEnd, PartitionManager, ExtentNode1, ExtentNode2, ExtentNode3]

  /** The Extent Nodes a file can be re-homed to, in the order they are scanned. */
  const ExtentNodes: seq<string> := [ExtentNode1, ExtentNode2, ExtentNode3]

  datatype FileEntry = FileEntry(name: string, location: string)

  datatype Migration = Migration(file: string, from: string, to: string)

  datatype ClusterState = ClusterState(
    status: map<string, string>,
    files: seq<FileEntry>,
    log: seq<Migration>)

  /** One `{name, status}` element of the status report. */
  datatype ComponentView = ComponentView(name: string, status: string)

  /** The reply to a status toggle: the echoed name and status and this toggle's migrations. */
  datatype StatusReply = StatusReply(name: string, status: string, migrations: seq<Migration>)

  /**
   The invariant of every reachable state: the status map has exactly the five
   seeded components as keys (a toggle never adds one), and every file sits on
   one of the three Extent Nodes. Status values are arbitrary strings: a toggle
   stores whatever status it is sent.
   */
  predicate Wf(s: ClusterState) {
    && s.status.Keys == {FrontEnd, PartitionManager, ExtentNode1, ExtentNode2, ExtentNode3}
    && forall i :: 0 <= i < |s.files| ==> s.files[i].location in ExtentNodes
  }

  /** The state after start-up: every component up, one file per Extent Node, empty log. */
  function Init(): (s: ClusterState)
    ensures forall c :: c in Components ==> c in s.status && s.status[c] == "up"
    ensures |s.files| == 3
    ensures forall i, j :: 0 <= i < j < |s.files| ==> s.files[i].location != s.files[j].location
    ensures s.log == []
    ensures Wf(s)
  {
    ClusterState(
      map[FrontEnd := "up", PartitionManager := "up",
          ExtentNode1 := "up", ExtentNode2 := "up", ExtentNode3 := "up"],
      [FileEntry("report.pdf", ExtentNode1),
       FileEntry("photo.jpg", ExtentNode2),
       FileEntry("notes.txt", ExtentNode3)],
      [])
  }

  /** The status report: each of the five components with its status, absent ones shown as up. */
  function SystemStatus(status: map<string, string>): (r: seq<ComponentView>)
    ensures |r| == |Components|
    ensures forall i :: 0 <= i < |r| ==> r[i].name == Components[i]
    ensures forall i :: 0 <= i < |r| && Components[i] in status ==> r[i].status == status[Components[i]]
    ensures forall i :: 0 <= i < |r| && Components[i] !in status ==> r[i].status == "up"
  {
    seq(|Components|, i requires 0 <= i < |Components| => ComponentView(Components[i], MapGetOr(status, Components[i], "up")))
  }

  /** The Extent Nodes among `nodes` other than `down` whose status is exactly "up" (absent counts as up). */
  function AvailableFrom(nodes: seq<string>, status: map<string, string>, down: string): (r: seq<string>)
    ensures forall x :: x in r <==> x in nodes && x != down && MapGetOr(status, x, "up") == "up"
    ensures |r| <= |nodes|
  {
    if |nodes| == 0 then []
    else
      var head := if nodes[0] != down && MapGetOr(status, nodes[0], "up") == "up" then [nodes[0]] else [];
      head + AvailableFrom(nodes[1..], status, down)
  }

  function Available(status: map<string, string>, down: string): (r: seq<string>)
    ensures forall x :: x in r <==> x in ExtentNodes && x != down && MapGetOr(status, x, "up") == "up"
  {
    AvailableFrom(ExtentNodes, status, down)
  }

  /**
   The admissible outcomes of re-homing the files of node `down` onto `avail`:
   same files in the same order with the same names; a file on `down` moves to
   some node of `avail` when there is one and stays otherwise; every other file
   is untouched.
   */
  predicate IsRehoming(before: seq<FileEntry>, after: seq<FileEntry>, down: string, avail: seq<string>) {
    && |after| == |before|
    && forall i :: 0 <= i < |before| ==>
         && after[i].name == before[i].name
         && if before[i].location == down && |avail| > 0 then after[i].location in avail
            else after[i] == before[i]
  }

  /** Number of files placed on `node`. */
  function CountOn(files: seq<FileEntry>, node: string): nat {
    if |files| == 0 then 0
    else CountOn(files[..|files| - 1], node) + (if files[|files| - 1].location == node then 1 else 0)
  }

  /**
   The migration record that takes `before` to `after`: one entry per file
   whose location changed, in file order.
   */
  function Diff(before: seq<FileEntry>, after: seq<FileEntry>): seq<Migration>
    requires |before| == |after|
  {
    if |before| == 0 then []
    else
      var n := |before| - 1;
      Diff(before[..n], after[..n])
      + (if before[n].location != after[n].location
         then [Migration(before[n].name, before[n].location, after[n].location)] else [])
  }

  /**
   The file loop of the toggle: each file on `down` moves to
   `avail[pick(i) % |avail|]` (the random draw of the file at position `i`),
   and each move is recorded, in file order. `pick` stands for the random
   number generator: any `pick` is a possible run.
   */
  function MoveFiles(files: seq<FileEntry>, down: string, avail: seq<string>, pick: nat -> nat)
    : (r: (seq<FileEntry>, seq<Migration>))
    ensures IsRehoming(files, r.0, down, avail)
    ensures forall m :: m in r.1 ==> m.from == down && m.to in avail
    ensures |avail| > 0 ==> |r.1| == CountOn(files, down)
    ensures |avail| == 0 ==> r.1 == []
  {
    if |files| == 0 then ([], [])
    else
      var n := |files| - 1;
      var prev := MoveFiles(files[..n], down, avail, pick);
      var f := files[n];
      if f.location == down && |avail| > 0 then
        var to := avail[pick(n) % |avail|];
        (prev.0 + [FileEntry(f.name, to)], prev.1 + [Migration(f.name, down, to)])
      else
        (prev.0 + [f], prev.1)
  }

  /** The record of moves is exactly the change of locations, provided no file moves onto `down`. */
  lemma {:induction false} MoveFilesLogsDiff(files: seq<FileEntry>, down: string, avail: seq<string>, pick: nat -> nat)
    requires down !in avail
    ensures |MoveFiles(files, down, avail, pick).0| == |files|
    ensures MoveFiles(files, down, avail, pick).1 == Diff(files, MoveFiles(files, down, avail, pick).0)
  {
    if |files| > 0 {
      var n := |files| - 1;
      MoveFilesLogsDiff(files[..n], down, avail, pick);
      var r := MoveFiles(files, down, avail, pick);
      assert r.0[..n] == MoveFiles(files[..n], down, avail, pick).0;
    }
  }

  lemma {:induction false} DiffOfSameIsEmpty(files: seq<FileEntry>)
    ensures Diff(files, files) == []
  {
    if |files| > 0 {
      DiffOfSameIsEmpty(files[..|files| - 1]);
    }
  }

  lemma EmptyIffNoMember(xs: seq<string>)
    ensures xs == [] <==> forall x :: x !in xs
  {
    if xs != [] {
      assert xs[0] in xs;
    }
  }

  /** Position of `x` in `xs`. */
  function IndexOf(xs: seq<string>, x: string): (k: nat)
    requires x in xs
    ensures k < |xs| && xs[k] == x
  {
    if xs[0] == x then 0 else 1 + IndexOf(xs[1..], x)
  }

  /** A `pick` that sends each moved file to the node `after` names for it. */
  lemma {:induction false} MoveFilesFollowsPick(
    before: seq<FileEntry>, after: seq<FileEntry>, down: string, avail: seq<string>, pick: nat -> nat)
    requires IsRehoming(before, after, down, avail)
    requires forall i :: 0 <= i < |before| && before[i].location == down && |avail| > 0 ==>
               avail[pick(i) % |avail|] == after[i].location
    ensures MoveFiles(before, down, avail, pick).0 == after
  {
    if |before| > 0 {
      var n := |before| - 1;
      MoveFilesFollowsPick(before[..n], after[..n], down, avail, pick);
      assert after == after[..n] + [after[n]];
    }
  }

  /** The draw that sends the file at position `i` to the node `after` names for it. */
  function DrawFor(after: seq<FileEntry>, avail: seq<string>, i: nat): (k: nat)
    ensures i < |after| && after[i].location in avail ==> k < |avail| && avail[k] == after[i].location
  {
    if i < |after| && after[i].location in avail then IndexOf(avail, after[i].location) else 0
  }

  /** Each moved file's draw selects its destination: a draw below `|avail|` is its own remainder. */
  lemma DrawsReachTargets(before: seq<FileEntry>, after: seq<FileEntry>, down: string, avail: seq<string>)
    requires IsRehoming(before, after, down, avail)
    ensures forall i :: 0 <= i < |before| && before[i].location == down && |avail| > 0 ==>
              avail[DrawFor(after, avail, i) % |avail|] == after[i].location
  {
    forall i | 0 <= i < |before| && before[i].location == down && |avail| > 0
      ensures avail[DrawFor(after, avail, i) % |avail|] == after[i].location
    {
      var k := DrawFor(after, avail, i);
      assert k % |avail| == k;
    }
  }

  /** Every admissible re-homing is the outcome of some sequence of random draws. */
  lemma MoveFilesComplete(before: seq<FileEntry>, after: seq<FileEntry>, down: string, avail: seq<string>)
    returns (pick: nat -> nat)
    requires IsRehoming(before, after, down, avail)
    ensures MoveFiles(before, down, avail, pick).0 == after
  {
    pick := (i: nat) => DrawFor(after, avail, i);
    DrawsReachTargets(before, after, down, avail);
    MoveFilesFollowsPick(before, after, down, avail, pick);
  }

  function RequestedName(body: map<string, string>): string {
    MapGetOr(body, "name", "")
  }

  function RequestedStatus(body: map<string, string>): string {
    MapGetOr(body, "status", "up")
  }

  /** Files are migrated only when an up Extent Node is set to "down". */
  predicate MigrationTriggered(s: ClusterState, name: string, status: string) {
    && name in s.status
    && StartsWith(name, "Extent Node")
    && status == "down"
    && s.status[name] == "up"
  }

  /**
   The status toggle. An unknown name changes nothing. A known name gets the
   requested status; if it is an Extent Node going from "up" to "down", each
   of its files is re-homed to another up Extent Node, and the moves are both
   returned and appended to the log.
   */
  function SetComponentStatus(s: ClusterState, body: map<string, string>, pick: nat -> nat)
    : (r: (ClusterState, StatusReply))
    ensures r.1.name == RequestedName(body)
    ensures RequestedName(body) !in s.status ==> r.0 == s && r.1.status == "up" && r.1.migrations == []
    ensures RequestedName(body) in s.status ==>
              && r.0.status == s.status[RequestedName(body) := RequestedStatus(body)]
              && r.1.status == RequestedStatus(body)
    ensures !MigrationTriggered(s, RequestedName(body), RequestedStatus(body)) ==>
              r.0.files == s.files && r.1.migrations == []
    ensures MigrationTriggered(s, RequestedName(body), RequestedStatus(body)) ==>
              IsRehoming(s.files, r.0.files, RequestedName(body), Available(s.status, RequestedName(body)))
    ensures |r.0.files| == |s.files|
    ensures r.0.log == s.log + r.1.migrations
    ensures forall m :: m in r.1.migrations ==>
              && m.from == RequestedName(body)
              && m.to != m.from
              && m.to in ExtentNodes
              && MapGetOr(s.status, m.to, "up") == "up"
    ensures Wf(s) ==> Wf(r.0)
  {
    var name := RequestedName(body);
    var status := RequestedStatus(body);
    if name in s.status then
      var moved :=
        if MigrationTriggered(s, name, status) then MoveFiles(s.files, name, Available(s.status, name), pick)
        else (s.files, []);
      var st := s.status[name := status];
      (ClusterState(st, moved.0, s.log + moved.1), StatusReply(name, MapGetOr(st, name, "up"), moved.1))
    else
      (s, StatusReply(name, MapGetOr(s.status, name, "up"), []))
  }

  /** The migrations a toggle reports are exactly the change it makes to file locations. */
  lemma MigrationsAreDiff(s: ClusterState, body: map<string, string>, pick: nat -> nat)
    ensures |SetComponentStatus(s, body, pick).0.files| == |s.files|
    ensures SetComponentStatus(s, body, pick).1.migrations == Diff(s.files, SetComponentStatus(s, body, pick).0.files)
  {
    var name := RequestedName(body);
    if MigrationTriggered(s, name, RequestedStatus(body)) {
      MoveFilesLogsDiff(s.files, name, Available(s.status, name), pick);
    } else {
      DiffOfSameIsEmpty(s.files);
    }
  }

  /**
   The toggle as a relation, with the random choice left open: `s'` is a
   possible state after the request `body` in state `s`.
   */
  predicate Step(s: ClusterState, body: map<string, string>, s': ClusterState) {
    var name := RequestedName(body);
    var status := RequestedStatus(body);
    if name !in s.status then s' == s
    else
      && s'.status == s.status[name := status]
      && (if MigrationTriggered(s, name, status)
          then IsRehoming(s.files, s'.files, name, Available(s.status, name))
          else s'.files == s.files)
      && |s'.files| == |s.files|
      && s'.log == s.log + Diff(s.files, s'.files)
  }

  /** Whatever the random draws, the toggle takes a step the relation allows. */
  lemma StepSound(s: ClusterState, body: map<string, string>, pick: nat -> nat)
    ensures Step(s, body, SetComponentStatus(s, body, pick).0)
  {
    MigrationsAreDiff(s, body, pick);
  }

  /** Every step the relation allows is taken by the toggle for some random draws. */
  lemma StepComplete(s: ClusterState, body: map<string, string>, s': ClusterState) returns (pick: nat -> nat)
    requires Step(s, body, s')
    ensures SetComponentStatus(s, body, pick).0 == s'
  {
    var name := RequestedName(body);
    if name !in s.status {
      pick := (i: nat) => 0;
    } else if MigrationTriggered(s, name, RequestedStatus(body)) {
      pick := MoveFilesComplete(s.files, s'.files, name, Available(s.status, name));
      MoveFilesLogsDiff(s.files, name, Available(s.status, name), pick);
    } else {
      pick := (i: nat) => 0;
      DiffOfSameIsEmpty(s.files);
    }
  }

  /** If no other Extent Node is up, the files of the downed node stay where they are and nothing is logged. */
  lemma StrandedWhenNoneAvailable(s: ClusterState, body: map<string, string>, pick: nat -> nat)
    requires MigrationTriggered(s, RequestedName(body), RequestedStatus(body))
    requires forall x :: x in ExtentNodes && x != RequestedName(body) ==> MapGetOr(s.status, x, "up") != "up"
    ensures SetComponentStatus(s, body, pick).0.files == s.files
    ensures SetComponentStatus(s, body, pick).1.migrations == []
    ensures SetComponentStatus(s, body, pick).0.status[RequestedName(body)] == "down"
  {
    var avail := Available(s.status, RequestedName(body));
    EmptyIffNoMember(avail);
    var r := SetComponentStatus(s, body, pick);
    assert |r.0.files| == |s.files|;
    assert forall i :: 0 <= i < |s.files| ==> r.0.files[i] == s.files[i];
  }

  /** After the toggle of component `i`, the status report shows the requested status for it and nothing else changes. */
  lemma StatusReportShowsToggle(s: ClusterState, body: map<string, string>, pick: nat -> nat, i: nat)
    requires i < |Components| && Components[i] == RequestedName(body) && Components[i] in s.status
    ensures SystemStatus(SetComponentStatus(s, body, pick).0.status)[i].status == RequestedStatus(body)
    ensures forall j :: 0 <= j < |Components| && j != i ==>
              SystemStatus(SetComponentStatus(s, body, pick).0.status)[j] == SystemStatus(s.status)[j]
  {
  }

  /** Runs a sequence of toggles, each with its own random draws. */
  function Run(s: ClusterState, requests: seq<(map<string, string>, nat -> nat)>): ClusterState
    decreases |requests|
  {
    if |requests| == 0 then s
    else Run(SetComponentStatus(s, requests[0].0, requests[0].1).0, requests[1..])
  }

  /** Every state reachable from start-up is well formed, keeps the file count, and extends the log. */
  lemma {:induction false} RunPreserves(s: ClusterState, requests: seq<(map<string, string>, nat -> nat)>)
    requires Wf(s)
    ensures Wf(Run(s, requests))
    ensures |Run(s, requests).files| == |s.files|
    ensures |s.log| <= |Run(s, requests).log| && Run(s, requests).log[..|s.log|] == s.log
    decreases |requests|
  {
    if |requests| > 0 {
      var next := SetComponentStatus(s, requests[0].0, requests[0].1).0;
      RunPreserves(next, requests[1..]);
      assert next.log[..|s.log|] == s.log;
      assert Run(s, requests).log[..|next.log|][..|s.log|] == Run(s, requests).log[..|s.log|];
    }
  }

  lemma ReachableIsWf(requests: seq<(map<string, string>, nat -> nat)>)
    ensures Wf(Run(Init(), requests))
    ensures |Run(Init(), requests).files| == 3
  {
    RunPreserves(Init(), requests);
  }
}
