/** `deleteAllEdgesForVertex` as written: its for-each loop walks the live list of the
    vertex with the list's fail-fast iterator, while `removeEdge` shrinks that same list.
    The iterator stops when its cursor equals the current size and, once the list has
    been changed behind its back, throws ConcurrentModificationException on the next
    step. `Graphs.UnDirectedGraph.DeleteAllEdgesForVertex` is the intended behaviour:
    every entry of the list as it was on entry is handled. */
module LiveIteration {
  import opened Lists
  import opened GraphErrors
  import opened Adjacency

  /** What can escape the as-written loop. */
  datatype Raised = GraphFailure(error: GraphError) | ConcurrentModification

  /** How the as-written operation ends, with the adjacency map it leaves behind (an
      exception does not undo the edges already removed). */
  datatype Ending<T> = Returned(adj: map<T, seq<T>>) | Threw(adj: map<T, seq<T>>, raised: Raised)

  /** The loop from iterator position `cursor`; `modified` says whether the list of `id`
      has been changed since the iterator was created. `hasNext()` is `cursor != size`;
      `next()` first checks for a change, then reads the entry at the cursor. */
  function LiveLoop<T(==)>(adj: map<T, seq<T>>, id: T, cursor: nat, modified: bool): (r: Ending<T>)
    requires id in adj
    requires !modified ==> cursor <= |adj[id]|
    ensures r.adj.Keys == adj.Keys
    decreases if modified then 0 else 1, |adj[id]| - cursor
  {
    if cursor == |adj[id]| then Returned(adj)
    else if modified then Threw(adj, ConcurrentModification)
    else
      var v := adj[id][cursor];
      if v !in adj then Threw(adj, GraphFailure(NoSuchVertex))
      else if id !in adj[v] then LiveLoop(adj, id, cursor + 1, false)
      else
        // The removal from the list of `id` always finds an entry (`v` was read from
        // it, or is `id` itself), so it changes the list the iterator walks.
        LiveLoop(DeleteEdge(adj, v, id), id, cursor + 1, true)
  }

  /** `deleteAllEdgesForVertex` as written. */
  function LiveDeleteAll<T(==)>(adj: map<T, seq<T>>, id: T): (r: Ending<T>)
    ensures r.adj.Keys == adj.Keys
    ensures id !in adj ==> r == Threw(adj, GraphFailure(NoSuchVertex))
  {
    if id !in adj then Threw(adj, GraphFailure(NoSuchVertex))
    else LiveLoop(adj, id, 0, false)
  }

  /** As written, the operation never removes all edges of a vertex that has any: it
      removes the first edge and then either throws ConcurrentModificationException or
      returns normally with exactly one entry still in the list of the vertex. */
  lemma LiveDeleteAllNeverEmpties<T>(adj: map<T, seq<T>>, id: T)
    requires WellFormed(adj) && id in adj && adj[id] != []
    ensures LiveDeleteAll(adj, id) == Threw(DeleteEdge(adj, adj[id][0], id), ConcurrentModification)
         || LiveDeleteAll(adj, id) == Returned(DeleteEdge(adj, adj[id][0], id))
    ensures LiveDeleteAll(adj, id).Returned? ==> |LiveDeleteAll(adj, id).adj[id]| == 1
  {
    var v := adj[id][0];
    assert v in adj && id in adj[v];
    var next := DeleteEdge(adj, v, id);
    assert LiveDeleteAll(adj, id) == LiveLoop(next, id, 1, true);
  }

  /** A vertex with two neighbours: the call returns normally, but the edge to the second
      neighbour is still there. */
  lemma TwoNeighboursKeepOneEdge()
    ensures WellFormed(map[0 := [1, 2], 1 := [0], 2 := [0]])
    ensures LiveDeleteAll(map[0 := [1, 2], 1 := [0], 2 := [0]], 0)
      == Returned(map[0 := [2], 1 := [], 2 := [0]])
  {
    var adj := map[0 := [1, 2], 1 := [0], 2 := [0]];
    assert multiset(adj[0])[1] == 1 && multiset(adj[0])[2] == 1;
    assert multiset(adj[1])[0] == 1 && multiset(adj[2])[0] == 1;
    assert RemoveFirst(adj[1], 0) == [];
    assert RemoveFirst(adj[0], 1) == [2];
    assert DeleteEdge(adj, 1, 0) == map[0 := [2], 1 := [], 2 := [0]];
  }

  /** A vertex with one neighbour: the edge is removed, and then the call throws
      ConcurrentModificationException. */
  lemma OneNeighbourThrows()
    ensures WellFormed(map[0 := [1], 1 := [0]])
    ensures LiveDeleteAll(map[0 := [1], 1 := [0]], 0)
      == Threw(map[0 := [], 1 := []], ConcurrentModification)
  {
    var adj := map[0 := [1], 1 := [0]];
    assert multiset(adj[0])[1] == 1 && multiset(adj[1])[0] == 1;
    assert RemoveFirst(adj[1], 0) == [];
    assert RemoveFirst(adj[0], 1) == [];
    assert DeleteEdge(adj, 1, 0) == map[0 := [], 1 := []];
  }
}
