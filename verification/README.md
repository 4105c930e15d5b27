# Object-storage simulation: control plane and read path

A Dafny model of the control plane of the simulated object-storage cluster
and of the decisions its read path makes. It covers:

- the cluster state the front-end file controller keeps: a status string per
  component, the placement of each file on an Extent Node, and the migration
  log (`Cluster`, in `cluster.dfy`);
- fault injection: the status toggle that re-homes the files of an Extent Node
  taken down onto the other up Extent Nodes and logs every move;
- the plain file lookup and the simulated GET with its failure precedence
  (Front-End, then Partition Manager, then missing file or down node, then
  success), in `ReadPath` (`read_path.dfy`);
- the Stream Manager's replica selection (first up node of a file's extent
  list, or 503) and the Extent Node's status-gated chunk retrieval
  (`StreamManager`, `ExtentNode`);
- the web page's MIME-type icon classifier (`FileIcon`).

The state is an immutable `ClusterState`; every operation is a pure function.
The random choice of a target node is a parameter `pick: nat -> nat`: the file
at position `i` goes to `avail[pick(i) % |avail|]`. Any `pick` is a possible
run, and `Cluster.StepComplete` shows that every re-homing the relation
`Cluster.Step` allows is reached by some `pick`. So the model covers exactly
the outcomes the random generator can produce.

Status values are arbitrary strings, as in the code: a toggle stores whatever
status it is sent. The checks differ on purpose. The simulated GET treats only
`"down"` as down. Migration targets, the Stream Manager and the Extent Node
treat everything except `"up"` as down. A component missing from the map
counts as `"up"`.

`StreamManagerController` and `ExtentNodeController` read a static status map
and a static file-to-extent-nodes map from the file controller. The file
controller as written has only a private instance status map and no
file-to-extent-nodes map at all. The model passes both maps in as parameters.

## Model

| member | source | states |
|---|---|---|
| Cluster.Init | object-storage-simulation/modules/frontend/src/main/java/com/objectstorage/frontend/controller/FileController.java:24-35 | after start-up all five components are "up", the three files sit on three distinct Extent Nodes, the log is empty, and the state satisfies the invariant `Wf` |
| Cluster.SystemStatus | object-storage-simulation/modules/frontend/src/main/java/com/objectstorage/frontend/controller/FileController.java:39-45 | the report lists the five components in fixed order, each with its stored status, or "up" when none is stored |
| Cluster.StatusReportShowsToggle | object-storage-simulation/modules/frontend/src/main/java/com/objectstorage/frontend/controller/FileController.java:41-42 | after a toggle of a known component, the status report shows the requested status for it and the same entries as before for the other four |
| Cluster.AvailableFrom | object-storage-simulation/modules/frontend/src/main/java/com/objectstorage/frontend/controller/FileController.java:56-61 | a node is a migration target iff it is one of the scanned nodes, is not the node going down, and its status is exactly "up" (absent counts as up) |
| Cluster.Available | object-storage-simulation/modules/frontend/src/main/java/com/objectstorage/frontend/controller/FileController.java:57-60 | the targets are exactly the three Extent Nodes other than the downed one whose status is "up" |
| Cluster.MoveFiles | object-storage-simulation/modules/frontend/src/main/java/com/objectstorage/frontend/controller/FileController.java:63-77 | the file loop re-homes: same files, same order, same names. A file on the downed node moves to a target when there is one. Every other file is untouched. Every move is logged from the downed node to a target, one per file on that node, and nothing is logged when there is no target |
| Cluster.MoveFilesLogsDiff | object-storage-simulation/modules/frontend/src/main/java/com/objectstorage/frontend/controller/FileController.java:67-74 | the recorded moves are exactly the files whose location changed, in file order, each with its old and new location |
| Cluster.MoveFilesFollowsPick | object-storage-simulation/modules/frontend/src/main/java/com/objectstorage/frontend/controller/FileController.java:66-68 | draws that name each moved file's destination produce exactly that placement |
| Cluster.MoveFilesComplete | object-storage-simulation/modules/frontend/src/main/java/com/objectstorage/frontend/controller/FileController.java:63-68 | every admissible re-homing is produced by some sequence of random draws |
| Cluster.SetComponentStatus | object-storage-simulation/modules/frontend/src/main/java/com/objectstorage/frontend/controller/FileController.java:48-86 | an unknown name changes nothing and echoes "up" with no migrations. A known name gets the requested status. Files move only when an "Extent Node" goes from "up" to "down". Each move goes from the downed node to another Extent Node that was up. The file count is kept. The returned migrations are appended to the log. The invariant is preserved |
| Cluster.MigrationsAreDiff | object-storage-simulation/modules/frontend/src/main/java/com/objectstorage/frontend/controller/FileController.java:69-74 | the migrations a toggle returns and logs are exactly the change it makes to file locations |
| Cluster.StepSound | object-storage-simulation/modules/frontend/src/main/java/com/objectstorage/frontend/controller/FileController.java:48-80 | for any random draws, the toggle takes a step the nondeterministic relation `Step` allows |
| Cluster.StepComplete | object-storage-simulation/modules/frontend/src/main/java/com/objectstorage/frontend/controller/FileController.java:48-80 | every step the relation allows is taken by the toggle for some random draws |
| Cluster.StrandedWhenNoneAvailable | object-storage-simulation/modules/frontend/src/main/java/com/objectstorage/frontend/controller/FileController.java:65 | when no other Extent Node is up, the downed node's files stay on it, nothing is logged, and the node is still marked down |
| Cluster.RunPreserves | object-storage-simulation/modules/frontend/src/main/java/com/objectstorage/frontend/controller/FileController.java:52-79 | any sequence of toggles from a well-formed state keeps the invariant and the file count, and the log only grows (the old log is a prefix of the new) |
| Cluster.ReachableIsWf | object-storage-simulation/modules/frontend/src/main/java/com/objectstorage/frontend/controller/FileController.java:24-35 | every state reachable from start-up is well formed and holds three files |
| ReadPath.FindFile | object-storage-simulation/modules/frontend/src/main/java/com/objectstorage/frontend/controller/FileController.java:129 | the search returns the first file whose name equals the request ignoring case, and returns nothing iff no file matches |
| ReadPath.GetFile | object-storage-simulation/modules/frontend/src/main/java/com/objectstorage/frontend/controller/FileController.java:94-115 | the reply is 404 iff no file matches. Otherwise it is 200 with the first match's name and location. There are always three steps, the last naming the serving node or saying the file was not found. Component statuses play no part |
| ReadPath.SimulateGet | object-storage-simulation/modules/frontend/src/main/java/com/objectstorage/frontend/controller/FileController.java:118-165 | the result is success iff Front-End and Partition Manager are not down, a file matches, and its node is not down; the path is then [FE, PM, node]. The failures follow this precedence: Front-End down gives [FE]; else Partition Manager down gives [FE, PM]; else a missing file gives [FE, PM]; else a down node gives [FE, PM, node]. Each failure has its fixed message, and the component report is attached |
| ReadPath.PathIsPrefixOfRoute | object-storage-simulation/modules/frontend/src/main/java/com/objectstorage/frontend/controller/FileController.java:127-158 | the path is a non-empty prefix of Front-End, Partition Manager, an Extent Node, and a success always reaches the node |
| ReadPath.SucceedsAt | object-storage-simulation/modules/frontend/src/main/java/com/objectstorage/frontend/controller/FileController.java:155-157 | a found file is served when no component on its route is down |
| ReadPath.ReadPathsAgree | object-storage-simulation/modules/frontend/src/main/java/com/objectstorage/frontend/controller/FileController.java:129-137 | with the front components not down, the simulated GET reports "not found" iff the plain lookup answers 404. Otherwise it reaches the node the plain lookup names |
| ReadPath.MigrationKeepsReadsServed | object-storage-simulation/modules/frontend/src/main/java/com/objectstorage/frontend/controller/FileController.java:54-79 | taking an up Extent Node down while another is up loses no read: every GET that succeeded before still succeeds after the toggle |
| ReadPath.StrandedFileFailsRead | object-storage-simulation/modules/frontend/src/main/java/com/objectstorage/frontend/controller/FileController.java:148-152 | a file left on a downed node, because no other node was up, fails with that node's "no replica" message |
| StreamManager.FirstUp | object-storage-simulation/modules/frontend/src/main/java/com/objectstorage/frontend/controller/StreamManagerController.java:22-28 | the scan stops at the first node whose status is "up" or absent, and finds none iff no listed node is up |
| StreamManager.GetFile | object-storage-simulation/modules/frontend/src/main/java/com/objectstorage/frontend/controller/StreamManagerController.java:19-37 | the filename is always echoed, with a missing one shown as "". The reply is 200 iff some listed node is up, and then names the first up node. Otherwise it is 503 with the fixed error, which includes an unknown file with no extents |
| StreamManager.SelectedReplicaServes | object-storage-simulation/modules/frontend/src/main/java/com/objectstorage/frontend/controller/StreamManagerController.java:24-33 | the node the Stream Manager hands out is one the Extent Node retrieval serves with 200 |
| StreamManager.FoundIffSomeReplicaServes | object-storage-simulation/modules/frontend/src/main/java/com/objectstorage/frontend/controller/StreamManagerController.java:21-36 | the fetch succeeds exactly when some node in the file's extent list would serve its chunk |
| ExtentNode.Retrieve | object-storage-simulation/modules/frontend/src/main/java/com/objectstorage/frontend/controller/ExtentNodeController.java:17-27 | the reply always carries the requested id. It is 200 with the dummy chunk iff the status is "up" or absent. Otherwise it is 503 with "Extent Node is down". Exactly one of chunk and error is present |
| FileIcon.GetFileIcon | ui/src/main.js:166-173 | the icon is Image, Video or Audio iff the type has that media prefix. It is Pdf iff there is no media prefix and the type contains "pdf". It is Text iff, in addition, it does not contain "pdf" but contains "text". Otherwise it is the paper clip |
| FileIcon.FileIconGlyph | ui/src/main.js:166-173 | the returned emoji is the first match in this order: U+1F5BC U+FE0F (framed picture) for "image/", U+1F3A5 (movie camera) for "video/", U+1F3B5 (musical note) for "audio/", U+1F4C4 (page) for a type containing "pdf", U+1F4DD (memo) for one containing "text", and U+1F4CE (paper clip) otherwise |
| FileIcon.MediaPrefixesExclusive | ui/src/main.js:167-169 | at most one media prefix applies to a type, so the order of the three prefix tests does not matter |
| FileIcon.PrefixBeatsSubstring | ui/src/main.js:167-170 | a type with a media prefix gets the image, video or audio icon, whatever substrings it also contains, so "image/pdf" gets the image icon |
| FileIcon.PdfBeatsText | ui/src/main.js:170-171 | a type without a media prefix that contains "pdf" gets the PDF icon, even if it also contains "text" |
| FileIcon.IconExamples | ui/src/main.js:167-171 | illustrations on concrete types: "image/pdf" gets Image, "audio/x-text" Audio, "text/pdf" Pdf and "text/plain" Text |
| FileIcon.FallbackExamples | ui/src/main.js:172 | illustrations of the fallback: both "" and "application/zip" get the paper clip |

## Left out

- HTTP routing, Spring annotations, CORS and `ResponseEntity`: a reply is a datatype holding a status code and its fields.
- `listFiles` returns the state's file list unchanged. There is nothing to state beyond the `files` field of `ClusterState`.
- Concurrency: the controller keeps its state in unsynchronised collections and may serve requests in parallel. The model applies requests one at a time.
- `java.util.Random`: the model replaces it with the `pick` parameter and does not model the uniform distribution.
- Case-insensitive matching: `EqualsIgnoreCase` folds only the ASCII letters A-Z. Java also folds non-ASCII letters.
- JSON `null` values in a request body are not modelled; request bodies are maps without nulls. In the controller a null `name` in a status toggle matches no component, so the reply is that name, "up" and no migrations. A null `filename` in the simulated GET matches no file, so it behaves like the name of a missing file. A null `status` fails at once for an Extent Node name. For any other component the null is stored, and the next status report or simulated GET then fails.
- StreamManager.GetFile: a filename given as a non-string JSON value (which Java converts with `toString`) is not modelled. The request's filename is an optional string.
- ReadPath.SimulateGet: the Java code dereferences the statuses of both front components and of the file's node, and fails on a state where any of them is missing. The model requires the reachable-state invariant `Wf`.
- The link between the Stream Manager's file-to-extent-nodes map and the file controller's placements is not modelled, because no such map exists in the file controller.
- Stub controllers with constant answers are not modelled: partition-for-key, the front-end partition server's metadata, the object controller, and the modules' `/health` endpoints.
- The rest of the web page is not modelled: DOM rendering, upload progress timers, file sizes (floating point), and upload ids (clock and `Math.random`).
- Cluster.AvailableFrom: states which nodes are targets but not their order. Order only affects which index a draw selects, and the draws are arbitrary anyway.
