/**
 The Extent Node chunk retrieval of the front-end module: a chunk is served
 when the node's status is exactly "up" (a node the status map does not know
 counts as up) and refused with 503 otherwise.
 */
module ExtentNode {
  import opened Basics

  const Chunk := "dummy-chunk-data"
  const DownError := "Extent Node is down"

  function Retrieve(status: map<string, string>, id: string): (r: Response)
    ensures r.code == 200 || r.code == 503
    ensures r.code == 200 <==> id !in status || status[id] == "up"
    ensures "extentNodeId" in r.fields && r.fields["extentNodeId"] == id
    ensures ("chunk" in r.fields) != ("error" in r.fields)
    ensures "chunk" in r.fields <==> r.code == 200
    ensures "chunk" in r.fields ==> r.fields["chunk"] == Chunk
    ensures "error" in r.fields ==> r.fields["error"] == DownError
    ensures r.fields.Keys <= {"extentNodeId", "chunk", "error"}
  {
    var base := map["extentNodeId" := id];
    if MapGetOr(status, id, "up") == "up" then Response(200, base["chunk" := Chunk])
    else Response(503, base["error" := DownError])
  }
}
