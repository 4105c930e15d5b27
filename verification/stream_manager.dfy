/**
 The Stream Manager file fetch of the front-end module: it looks up the
 ordered list of Extent Nodes holding a file's extents and answers with the
 first of them whose status is "up", or 503 when there is none. The status
 map and the file-to-extent-nodes map are parameters: the controller reads
 them from shared state of the file controller.
 */
module StreamManager {
  import opened Basics
  import ExtentNode

  const AllDownError := "All extent nodes for this file are down (HTTP 503)"

  /** A node counts as up when its status is exactly "up" or it has no status at all. */
  predicate NodeUp(status: map<string, string>, node: string) {
    node !in status || status[node] == "up"
  }

  /** `k` is the first up node of `nodes`. */
  predicate FirstUpAt(nodes: seq<string>, status: map<string, string>, k: int) {
    && 0 <= k < |nodes|
    && NodeUp(status, nodes[k])
    && forall j :: 0 <= j < k ==> !NodeUp(status, nodes[j])
  }

  /** The scan of the extent list, stopping at the first up node. */
  function FirstUp(nodes: seq<string>, status: map<string, string>): (r: Option<nat>)
    ensures r.Some? ==> FirstUpAt(nodes, status, r.value)
    ensures r.None? <==> forall j :: 0 <= j < |nodes| ==> !NodeUp(status, nodes[j])
  {
    if |nodes| == 0 then None
    else if MapGetOr(status, nodes[0], "up") == "up" then Some(0)
    else
      match FirstUp(nodes[1..], status)
      case None => None
      case Some(k) => Some(k + 1)
  }

  /** The extent list of a file; an unknown file has none. */
  function ExtentsOf(extents: map<string, seq<string>>, filename: string): seq<string> {
    MapGetOr(extents, filename, [])
  }

  /**
   The fetch. `filename` is `None` when the request carries no filename (or a
   null one); it is echoed as the empty string.
   */
  function GetFile(status: map<string, string>, extents: map<string, seq<string>>, filename: Option<string>)
    : (r: Response)
    ensures "filename" in r.fields && r.fields["filename"] == filename.GetOr("")
    ensures r.code == 200 || r.code == 503
    ensures r.code == 200 <==>
              exists i :: 0 <= i < |ExtentsOf(extents, filename.GetOr(""))|
                          && NodeUp(status, ExtentsOf(extents, filename.GetOr(""))[i])
    ensures r.code == 200 ==> r.fields.Keys == {"filename", "extentNodeId"}
    ensures forall k :: FirstUpAt(ExtentsOf(extents, filename.GetOr("")), status, k) ==>
              r.fields["extentNodeId"] == ExtentsOf(extents, filename.GetOr(""))[k]
    ensures r.code == 503 ==> r.fields == map["filename" := filename.GetOr(""), "error" := AllDownError]
  {
    var name := filename.GetOr("");
    var nodes := ExtentsOf(extents, name);
    match FirstUp(nodes, status)
    case Some(k) => Response(200, map["filename" := name, "extentNodeId" := nodes[k]])
    case None => Response(503, map["filename" := name, "error" := AllDownError])
  }

  /** The node the Stream Manager hands out always serves its chunk. */
  lemma SelectedReplicaServes(status: map<string, string>, extents: map<string, seq<string>>, filename: Option<string>)
    requires GetFile(status, extents, filename).code == 200
    ensures ExtentNode.Retrieve(status, GetFile(status, extents, filename).fields["extentNodeId"]).code == 200
  {
  }

  /**
   The fetch succeeds exactly when some Extent Node holding the file would
   serve its chunk; in particular an unknown file always gets 503.
   */
  lemma FoundIffSomeReplicaServes(status: map<string, string>, extents: map<string, seq<string>>, filename: Option<string>)
    ensures GetFile(status, extents, filename).code == 200 <==>
              exists n :: n in ExtentsOf(extents, filename.GetOr("")) && ExtentNode.Retrieve(status, n).code == 200
  {
    var nodes := ExtentsOf(extents, filename.GetOr(""));
    if GetFile(status, extents, filename).code == 200 {
      var k := FirstUp(nodes, status).value;
      assert nodes[k] in nodes && ExtentNode.Retrieve(status, nodes[k]).code == 200;
    }
    if exists n :: n in nodes && ExtentNode.Retrieve(status, n).code == 200 {
      var n :| n in nodes && ExtentNode.Retrieve(status, n).code == 200;
      var i :| 0 <= i < |nodes| && nodes[i] == n;
      assert NodeUp(status, nodes[i]);
    }
  }
}
