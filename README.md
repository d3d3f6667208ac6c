# A verified model of a generic in-memory undirected graph

The modelled graph keeps two hash maps, both keyed by vertex id:

- `connectionsMap` maps each vertex to the list of its directly connected vertices;
- `vertexValuesMap` maps each vertex to the value stored in it.

`AbstractGraph` provides the vertex operations: add and remove a vertex, read its value, list all ids, connect a vertex to every other, and count vertices and edges. `UnDirectedGraph` adds the edge rules: an edge `a-b` appears as `b` in the list of `a` and as `a` in the list of `b`. This project folds the two classes into one Dafny class, `Graphs.UnDirectedGraph<T, E>`, with the same two fields as a `map<T, seq<T>>` and a `map<T, E>`. Each method changes them as the Java code does, except `DeleteAllEdgesForVertex`, which models the intended walk over a snapshot of the neighbour list (see Findings); `LiveIteration.LiveDeleteAll` models that operation as written. Each exception becomes an error value, returned before anything changes: `VertexAlreadyExists`, `NoSuchVertex`, `EdgeAlreadyExists` and `NoSuchEdge`. A method returns an `Outcome` (`Pass` or `Fail(error)`); a function returns a `Result` (`Success(value)` or `Failure(error)`).

Files:

- `lists.dfy` (`Lists`): `List.remove(Object)` as `RemoveFirst`, which removes the first occurrence only, with its properties.
- `graph_errors.dfy` (`GraphErrors`): the error and result datatypes.
- `adjacency.dfy` (`Adjacency`): the adjacency map as a value, and its invariants.
  - `Closed`: no dangling id.
  - `Symmetric`: `b` is in the list of `a` exactly when `a` is in the list of `b`.
  - `NoMultiEdges`: a neighbour is listed once, and a self-loop exactly twice.
  - `WellFormed`: the three together.
  - `Simple`: well formed, and no list holds an id twice.
  - The mutations of `addEdge`, `removeEdge` and `removeVertex` as functions, with the proofs that they keep the invariants.
- `edge_count.dfy` (`EdgeCount`): `getEdgesNumber` as the sum of all list lengths. It proves how each operation changes that sum and that the sum is even.
- `edge_sweeps.dfy` (`EdgeSweeps`): the loop invariants of the two loops that call `addEdge` or `removeEdge` vertex by vertex.
- `undirected_graph.dfy` (`Graphs`): the class.
  - `Valid()` is the class invariant: equal key sets and `WellFormed`. Every method keeps it.
  - `IsSimple()` (`Simple`) is kept by every method, except by `addEdge(a, a)`.
- `live_iteration.dfy` (`LiveIteration`): `deleteAllEdgesForVertex` exactly as written, over Java's fail-fast list iterator (see Findings).
- `scenarios.dfy` (`Scenarios`): short client sequences and what they return.

The code allows two things the invariants have to account for:

- **Self-loops.** `addEdge(a, a)` is not refused: the checks at `UnDirectedGraph.java:21-26` let it through, and lines 27-28 append `a` to its own list twice. `WellFormed` therefore allows a self-loop, listed exactly twice. `AddEdge` promises simplicity only for an edge between two different vertices, and `Adjacency.SelfLoopDuplicates` proves that a self-loop breaks it.
- **`removeVertex`.** `list.remove(vertexId)` at `AbstractGraph.java:51` removes only the first occurrence of the id from each remaining list. Under `WellFormed` this removes every occurrence: `Adjacency.DropVertexPreserves` proves that the id is in no list afterwards.

In both cases the class follows the code. One operation is modelled twice:

- **`deleteAllEdgesForVertex`.** The for-each loop at `UnDirectedGraph.java:72` iterates the live neighbour list while `removeEdge` shrinks it, so the as-written operation stops early or throws ConcurrentModificationException. `LiveIteration.LiveDeleteAll` models it as written; `Graphs.UnDirectedGraph.DeleteAllEdgesForVertex` models the intended behaviour, a walk over a snapshot of the list that removes every edge (see Findings).

## Model

| member | source | states |
|---|---|---|
| `Graphs.UnDirectedGraph.constructor` | src/com/company/Graphs/AbstractGraph.java:21-22 | a new graph has two empty maps; it is valid and simple |
| `Graphs.UnDirectedGraph.GetVertexNumber` | src/com/company/Graphs/AbstractGraph.java:135-137 | the vertex count is the number of keys of the adjacency map, which are also the keys of the value map |
| `Graphs.UnDirectedGraph.GetEdgesNumber` | src/com/company/Graphs/AbstractGraph.java:143-145 | the total length of all adjacency lists; in a valid graph it is always even, since every edge is counted from both ends |
| `Graphs.UnDirectedGraph.GetVertexValue` | src/com/company/Graphs/AbstractGraph.java:60-64 | succeeds exactly when the id is a vertex, with its stored value; otherwise NoSuchVertex |
| `Graphs.UnDirectedGraph.GetAllVertexesIds` | src/com/company/Graphs/AbstractGraph.java:82-84 | the returned list holds exactly the vertex ids, each once, so its length is the vertex count |
| `Graphs.UnDirectedGraph.AddVertex` | src/com/company/Graphs/AbstractGraph.java:31-36 | VertexAlreadyExists with both maps unchanged when the id exists. Otherwise the id gets the value and an empty list, nothing else changes, and validity, simplicity and the edge count are kept |
| `Graphs.UnDirectedGraph.RemoveVertex` | src/com/company/Graphs/AbstractGraph.java:45-53 | NoSuchVertex with nothing changed when the id is absent. Otherwise the id leaves both maps and every other list loses its first occurrence of it. Afterwards the id is in no list, validity and simplicity are kept, and in a simple graph the edge count drops by twice its degree |
| `Graphs.UnDirectedGraph.CalculateShortestDistanceBetweenVertexes` | src/com/company/Graphs/AbstractGraph.java:123-128 | NoSuchVertex exactly when either endpoint is absent. Otherwise the answer is the algorithm's entry for the second vertex, or none when it has no entry |
| `Graphs.UnDirectedGraph.ConnectVertexWithNotDirectlyConnectedVertexes` | src/com/company/Graphs/AbstractGraph.java:93-101 | NoSuchVertex with nothing changed when the id is absent. Otherwise every other vertex becomes a neighbour: the old list is kept as a prefix and followed by the missing vertices, each once; every other list gains the id exactly when it lacked it. Values, vertex count, validity and simplicity are kept |
| `Graphs.UnDirectedGraph.AddEdge` | src/com/company/Graphs/Implementations/UnDirectedGraph.java:20-29 | NoSuchVertex, then EdgeAlreadyExists, in the source's order, each with nothing changed. Otherwise each endpoint is appended to the other's list, the edge count grows by 2, the vertex count is kept, and the graph stays valid (and simple when the endpoints differ) |
| `Graphs.UnDirectedGraph.RemoveEdge` | src/com/company/Graphs/Implementations/UnDirectedGraph.java:40-49 | NoSuchVertex, then NoSuchEdge, each with nothing changed. Otherwise the first occurrence of each endpoint leaves the other's list, the edge is gone, the edge count drops by 2, and the vertex count, validity and simplicity are kept |
| `Graphs.UnDirectedGraph.GetAllDirectlyConnectedVertexes` | src/com/company/Graphs/Implementations/UnDirectedGraph.java:57-61 | NoSuchVertex exactly when the id is absent. Otherwise exactly its adjacency list, every member of which is a vertex that lists the id back |
| `Graphs.UnDirectedGraph.DeleteAllEdgesForVertex` | src/com/company/Graphs/Implementations/UnDirectedGraph.java:69-78 | NoSuchVertex when the id is absent. Otherwise, walking a snapshot of its list, it leaves the list of the id empty and the id in no list. Exactly its old neighbours lose their first entry for it; values, vertex count, validity and simplicity are kept |
| `Lists.RemoveFirst` | src/com/company/Graphs/Implementations/UnDirectedGraph.java:47-48 | `List.remove(Object)` shortens the list by one exactly when the element is present |
| `Lists.RemoveFirstCount` | src/com/company/Graphs/AbstractGraph.java:50-52 | exactly one copy of the element goes, if there is one, and nothing else changes |
| `Lists.RemoveFirstAt` | src/com/company/Graphs/Implementations/UnDirectedGraph.java:47-48 | the entry removed is the one at the element's first index; the rest keep their order |
| `Lists.RemoveFirstAbsent` | src/com/company/Graphs/AbstractGraph.java:50-52 | removing an id that a list does not hold leaves the list as it was |
| `Lists.RemoveFirstAppended` | src/com/company/Graphs/Implementations/UnDirectedGraph.java:27-28 | appending an element the list lacks and removing it again gives the list back |
| `Adjacency.InsertEdge` | src/com/company/Graphs/Implementations/UnDirectedGraph.java:27-28 | the keys are kept; the list of `a` gains `b` at its end and the list of `b` gains `a` (both on the one list for a self-loop); every other list is unchanged |
| `Adjacency.DeleteEdge` | src/com/company/Graphs/Implementations/UnDirectedGraph.java:47-48 | the keys are kept; for two different endpoints each loses its first entry for the other, for a self-loop the list loses its first two entries for the id; every other list is unchanged |
| `Adjacency.DropVertex` | src/com/company/Graphs/AbstractGraph.java:49-52 | the key set loses exactly the removed id |
| `Adjacency.InsertEdgePreserves` | src/com/company/Graphs/Implementations/UnDirectedGraph.java:27-28 | adding a new edge to a well-formed map keeps it closed, symmetric and free of multi-edges, and links both endpoints |
| `Adjacency.InsertEdgePreservesSimple` | src/com/company/Graphs/Implementations/UnDirectedGraph.java:27-28 | an edge between two different vertices keeps a simple map simple |
| `Adjacency.SelfLoopDuplicates` | src/com/company/Graphs/Implementations/UnDirectedGraph.java:27-28 | `addEdge(a, a)` lists `a` twice in its own list, so the result is not duplicate-free |
| `Adjacency.InsertEdgeAt` | src/com/company/Graphs/Implementations/UnDirectedGraph.java:27-28 | each list gains exactly the one entry for the other endpoint (two for a self-loop); no other list changes |
| `Adjacency.DeleteEdgeAt` | src/com/company/Graphs/Implementations/UnDirectedGraph.java:47-48 | the list of each endpoint loses one entry for the other endpoint, if it holds one (a self-loop's list loses two); in multiset terms nothing else changes |
| `Adjacency.DeleteEdgePreserves` | src/com/company/Graphs/Implementations/UnDirectedGraph.java:47-48 | removing an existing edge keeps the map well formed, and duplicate-free if it was, and leaves the endpoints unlinked |
| `Adjacency.InsertThenDelete` | src/com/company/Graphs/Implementations/UnDirectedGraph.java:47-48 | `removeEdge(a, b)` right after a successful `addEdge(a, b)` restores every list exactly, self-loops included |
| `Adjacency.AddVertexPreserves` | src/com/company/Graphs/AbstractGraph.java:34-35 | a new vertex with an empty list keeps a map well formed and simple |
| `Adjacency.DropVertexAt` | src/com/company/Graphs/AbstractGraph.java:50-52 | after removing a vertex, each remaining list holds the same other ids as before, the same number of times |
| `Adjacency.DropVertexPreserves` | src/com/company/Graphs/AbstractGraph.java:48-52 | removing a vertex keeps the map well formed, and duplicate-free if it was, and leaves its id in no list |
| `EdgeCount.SumLengths` | src/com/company/Graphs/AbstractGraph.java:144 | the edge count is at least the length of every list, and it is 0 exactly when every list is empty |
| `EdgeCount.AddVertexCount` | src/com/company/Graphs/AbstractGraph.java:34-35 | a new vertex leaves the edge count unchanged |
| `EdgeCount.InsertEdgeCount` | src/com/company/Graphs/Implementations/UnDirectedGraph.java:27-28 | a new edge adds 2 to the edge count |
| `EdgeCount.DeleteEdgeCount` | src/com/company/Graphs/Implementations/UnDirectedGraph.java:47-48 | removing an existing edge from a well-formed map removes 2 from the edge count |
| `EdgeCount.SumLengthsSplit` | src/com/company/Graphs/AbstractGraph.java:143-145 | the sum of the list lengths does not depend on the order in which the lists are visited |
| `EdgeCount.DropVertexCount` | src/com/company/Graphs/AbstractGraph.java:48-52 | removing a vertex lowers the edge count by twice its number of other neighbours, plus 2 for a self-loop |
| `EdgeCount.DropVertexCountSimple` | src/com/company/Graphs/AbstractGraph.java:48-52 | in a simple graph, removing a vertex lowers the edge count by twice its degree |
| `EdgeCount.EdgeCountEven` | src/com/company/Graphs/AbstractGraph.java:143-145 | in every well-formed map the edge count is even |
| `EdgeSweeps.ConnectAdd` | src/com/company/Graphs/AbstractGraph.java:97-99 | visiting a vertex that is neither the id nor a neighbour adds the edge, and the loop invariant holds with that vertex visited |
| `EdgeSweeps.ConnectSkip` | src/com/company/Graphs/AbstractGraph.java:97-98 | skipping the id itself or a vertex already connected keeps the loop invariant |
| `EdgeSweeps.ConnectDone` | src/com/company/Graphs/AbstractGraph.java:96-100 | once all entries are visited, the id is adjacent to every other vertex; each list gained the id exactly when it lacked it |
| `EdgeSweeps.DeleteNextHasEdge` | src/com/company/Graphs/Implementations/UnDirectedGraph.java:72-76 | the next snapshot entry still lists the id, except the second entry of a self-loop, which is the one NoSuchEdge the loop ignores |
| `EdgeSweeps.DeleteStep` | src/com/company/Graphs/Implementations/UnDirectedGraph.java:72-77 | one turn, either with the edge removed or with NoSuchEdge ignored, keeps the loop invariant with one more entry handled |
| `EdgeSweeps.DeleteDone` | src/com/company/Graphs/Implementations/UnDirectedGraph.java:72-77 | once every snapshot entry is handled, the list of the id is empty, the id is in no list, and exactly its old neighbours lost their entry for it |
| `LiveIteration.LiveLoop` | src/com/company/Graphs/Implementations/UnDirectedGraph.java:72-77 | the fail-fast iterator loop (`hasNext` is `cursor != size`, `next` fails once the list was changed) never adds or removes a vertex, whether it returns or throws |
| `LiveIteration.LiveDeleteAll` | src/com/company/Graphs/Implementations/UnDirectedGraph.java:69-71 | the as-written operation throws NoSuchVertex for an absent id and never adds or removes a vertex |
| `LiveIteration.LiveDeleteAllNeverEmpties` | src/com/company/Graphs/Implementations/UnDirectedGraph.java:72-77 | as written, for a vertex with at least one edge, only the first edge is removed. Then the loop either throws ConcurrentModificationException or returns with one entry still in the list |
| `LiveIteration.TwoNeighboursKeepOneEdge` | src/com/company/Graphs/Implementations/UnDirectedGraph.java:72-77 | for the vertex 0 with neighbours 1 and 2, the as-written call returns normally and the edge 0-2 survives |
| `LiveIteration.OneNeighbourThrows` | src/com/company/Graphs/Implementations/UnDirectedGraph.java:72-77 | for the vertex 0 with the single neighbour 1, the as-written call removes the edge and then throws ConcurrentModificationException |
| `Scenarios.AddEdgeTwice` | src/com/company/Graphs/Implementations/UnDirectedGraph.java:25-26 | a second `addEdge(a, b)` right after a success fails with EdgeAlreadyExists and leaves the state of the first call |
| `Scenarios.AddThenRemoveEdge` | src/com/company/Graphs/Implementations/UnDirectedGraph.java:40-49 | `removeEdge(a, b)` right after `addEdge(a, b)` succeeds whenever the add did not fail with NoSuchVertex; after a successful add it restores every list |
| `Scenarios.ThreeVertices` | src/com/company/Graphs/AbstractGraph.java:31-36 | three added vertices are exactly the keys and have empty lists; vertex 2 holds its value; there are 3 vertices and 0 edges |
| `Scenarios.FirstEdge` | src/com/company/Graphs/Implementations/UnDirectedGraph.java:27-28 | the edge 0-1 makes the lists `[1]` and `[0]` and gives an edge count of 2 |
| `Scenarios.PathOfThree` | src/com/company/Graphs/AbstractGraph.java:143-145 | the path 0-1-2 has 3 vertices and an edge count of 4; the middle vertex lists `[0, 2]` |
| `Scenarios.RemoveMiddle` | src/com/company/Graphs/AbstractGraph.java:45-53 | removing the middle of the path leaves 2 vertices without neighbours, 0 edges, and NoSuchVertex for the removed id |

## Left out

- `runAlgorithm`, `isGraphConnected` and the two breadth-first-search algorithm classes are not part of this model, because their source is not available.
- Graphs.UnDirectedGraph.CalculateShortestDistanceBetweenVertexes: the map the shortest-distance algorithm would build from `firstVertex` is a parameter. Only the two NoSuchVertex checks and the lookup of the second vertex are modelled.
- Graphs.UnDirectedGraph.GetEdgesNumber: it is a ghost function, because the sum picks keys with `:|`. The overflow of Java's `int` sum is not modelled.
- Graphs.UnDirectedGraph.GetVertexNumber: the `int` result is an unbounded `nat`, so a count above 2^31 - 1 is not modelled.
- Graphs.UnDirectedGraph.RemoveVertex: the edge count is stated only for a simple graph. The general count, including the two entries of a self-loop, is `EdgeCount.DropVertexCount` on the map.
- Graphs.UnDirectedGraph.RemoveVertex: the loop edits a local copy of the map and stores it at the end. The Java method edits the list objects in place, but no caller can observe the difference.
- Graphs.UnDirectedGraph.GetAllDirectlyConnectedVertexes: it returns the list as a value. The Java method returns the live list, and a caller that changes it changes the graph; that aliasing is not modelled.
- Graphs.UnDirectedGraph.GetAllVertexesIds: Java's HashMap iteration order is unspecified. The method picks the next key with `:|`, and its contract states the set of ids, not their order.
- Graphs.UnDirectedGraph.ConnectVertexWithNotDirectlyConnectedVertexes: the order in which vertices are visited is left open in the same way. The method's `EdgeAlreadyExistsException` cannot occur, which is proved: every inner `addEdge` passes.
- Exception message strings, the `Graph` interface, the exception classes and any directed variant are not modelled.
- Java `null` ids and values, and `equals`/`hashCode` beyond Dafny's equality on `T`, are not modelled.

## Findings

| source | as written | input that shows it | evidently intended | confidence | as-written member | corrected member |
|---|---|---|---|---|---|---|
| src/com/company/Graphs/Implementations/UnDirectedGraph.java:72-77 | the for-each loop runs over the live neighbour list of `vertexId` with its fail-fast iterator, while every successful `removeEdge(vertex, vertexId)` removes an entry from that same list | vertex 0 with neighbours `[1, 2]`: the call returns normally and the edge 0-2 is left. Vertex 0 with the single neighbour `[1]`: the edge is removed, then `next()` throws ConcurrentModificationException | every edge of the vertex is removed, every neighbour having been visited (a snapshot of the list) | not executed; follows from `ArrayList`'s iterator, whose `hasNext` compares the cursor with the current size and whose `next` fails after a change | `LiveIteration.LiveDeleteAllNeverEmpties` | `Graphs.UnDirectedGraph.DeleteAllEdgesForVertex` |
