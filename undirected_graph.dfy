/** The undirected graph: vertex storage and vertex operations of the abstract graph, with
    the undirected edge rules, in one class. Each thrown exception is a `Fail` or `Failure`
    result here, returned before anything changes. */
module Graphs {
  import opened GraphErrors
  import opened Lists
  import opened Adjacency
  import opened EdgeCount
  import opened EdgeSweeps

  class UnDirectedGraph<T(==), E> {
    /** vertex id -> ids of its directly connected vertices, in the order edges were added */
    var connectionsMap: map<T, seq<T>>
    /** vertex id -> the value stored in the vertex */
    var vertexValuesMap: map<T, E>

    /** Both maps have the same vertices, and the adjacency lists are well formed. */
    ghost predicate Valid()
      reads this
    {
      connectionsMap.Keys == vertexValuesMap.Keys && WellFormed(connectionsMap)
    }

    /** No self-loop and no list holding an id twice. */
    ghost predicate IsSimple()
      reads this
    {
      Simple(connectionsMap)
    }

    /** An empty graph. */
    constructor ()
      ensures Valid() && IsSimple()
      ensures connectionsMap == map[] && vertexValuesMap == map[]
    {
      connectionsMap := map[];
      vertexValuesMap := map[];
    }

    /** `getVertexNumber`: the number of vertices. */
    function GetVertexNumber(): (n: nat)
      reads this
      requires Valid()
      ensures n == |connectionsMap.Keys|
    {
      |vertexValuesMap|
    }

    /** `getEdgesNumber`: the total length of all adjacency lists, which counts every
        edge from both ends and is therefore even. */
    ghost function GetEdgesNumber(): (n: nat)
      reads this
      requires Valid()
      ensures n % 2 == 0
    {
      EdgeCountEven(connectionsMap);
      SumLengths(connectionsMap)
    }

    /** `getVertexValue`: the stored value, or NoSuchVertex. */
    function GetVertexValue(vertexId: T): (r: Result<E>)
      reads this
      requires Valid()
      ensures r.Success? <==> vertexId in vertexValuesMap
      ensures r.Failure? ==> r.error == NoSuchVertex
      ensures r.Success? ==> r.value == vertexValuesMap[vertexId]
    {
      if vertexId !in connectionsMap then Failure(NoSuchVertex)
      else Success(vertexValuesMap[vertexId])
    }

    /** `getAllDirectlyConnectedVertexes`: the adjacency list of a vertex, or NoSuchVertex.
        Every id returned is a vertex that lists `vertexId` back. */
    function GetAllDirectlyConnectedVertexes(vertexId: T): (r: Result<seq<T>>)
      reads this
      requires Valid()
      ensures r.Success? <==> vertexId in vertexValuesMap
      ensures r.Failure? ==> r.error == NoSuchVertex
      ensures r.Success? ==> r.value == connectionsMap[vertexId]
      ensures r.Success? ==> forall x :: x in r.value ==> x in vertexValuesMap && vertexId in connectionsMap[x]
    {
      if vertexId !in connectionsMap then Failure(NoSuchVertex)
      else Success(connectionsMap[vertexId])
    }

    /** The checks `calculateShortestDistanceBetweenVertexes` makes before it runs the
        shortest-distance algorithm. `distancesFromFirst` stands for what that algorithm
        returns for the source `firstVertex`; its answer for `secondVertex` is passed on,
        and is missing (a Java null) when the map has no entry for it. */
    function CalculateShortestDistanceBetweenVertexes(firstVertex: T, secondVertex: T, distancesFromFirst: map<T, int>): (r: Result<Option<int>>)
      reads this
      requires Valid()
      ensures r.Failure? <==> firstVertex !in vertexValuesMap || secondVertex !in vertexValuesMap
      ensures r.Failure? ==> r.error == NoSuchVertex
      ensures r.Success? && secondVertex in distancesFromFirst ==> r.value == Some(distancesFromFirst[secondVertex])
      ensures r.Success? && secondVertex !in distancesFromFirst ==> r.value == None
    {
      if firstVertex !in connectionsMap then Failure(NoSuchVertex)
      else if secondVertex !in connectionsMap then Failure(NoSuchVertex)
      else if secondVertex in distancesFromFirst then Success(Some(distancesFromFirst[secondVertex]))
      else Success(None)
    }

    /** `getAllVertexesIds`: a fresh list holding every vertex id exactly once, in the
        order the key set happens to be walked. */
    method GetAllVertexesIds() returns (ids: seq<T>)
      requires Valid()
      ensures forall x :: x in ids <==> x in vertexValuesMap
      ensures Distinct(ids)
      ensures |ids| == GetVertexNumber()
    {
      var pending := vertexValuesMap.Keys;
      ids := [];
      while pending != {}
        invariant pending <= vertexValuesMap.Keys
        invariant forall x :: x in ids <==> x in vertexValuesMap && x !in pending
        invariant Distinct(ids)
        invariant |ids| + |pending| == |vertexValuesMap.Keys|
        decreases pending
      {
        var x :| x in pending;
        assert multiset(ids)[x] == 0;
        ids := ids + [x];
        pending := pending - {x};
      }
    }

    /** `addVertex`: a new vertex with the given value and no edges, or VertexAlreadyExists. */
    method AddVertex(vertexId: T, value: E) returns (r: Outcome)
      requires Valid()
      modifies this
      ensures Valid()
      ensures r == if vertexId in old(vertexValuesMap) then Fail(VertexAlreadyExists) else Pass
      ensures r.Fail? ==> connectionsMap == old(connectionsMap) && vertexValuesMap == old(vertexValuesMap)
      ensures r.Pass? ==> vertexValuesMap == old(vertexValuesMap)[vertexId := value]
      ensures r.Pass? ==> connectionsMap == old(connectionsMap)[vertexId := []]
      ensures r.Pass? ==> GetVertexValue(vertexId) == Success(value)
      ensures r.Pass? ==> GetAllDirectlyConnectedVertexes(vertexId) == Success([])
      ensures old(IsSimple()) ==> IsSimple()
      ensures GetEdgesNumber() == old(GetEdgesNumber())
    {
      if vertexId in vertexValuesMap {
        return Fail(VertexAlreadyExists);
      }
      AddVertexPreserves(connectionsMap, vertexId);
      AddVertexCount(connectionsMap, vertexId);
      vertexValuesMap := vertexValuesMap[vertexId := value];
      connectionsMap := connectionsMap[vertexId := []];
      r := Pass;
    }

    /** `removeVertex`: the vertex goes from both maps and every other list loses its first
        occurrence of the id, which is its only one, or NoSuchVertex. */
    method RemoveVertex(vertexId: T) returns (r: Outcome)
      requires Valid()
      modifies this
      ensures Valid()
      ensures r == if vertexId in old(connectionsMap) then Pass else Fail(NoSuchVertex)
      ensures r.Fail? ==> connectionsMap == old(connectionsMap) && vertexValuesMap == old(vertexValuesMap)
      ensures r.Pass? ==> vertexValuesMap == old(vertexValuesMap) - {vertexId}
      ensures r.Pass? ==> connectionsMap == DropVertex(old(connectionsMap), vertexId)
      ensures r.Pass? ==> forall k :: k in connectionsMap ==> vertexId !in connectionsMap[k]
      ensures old(IsSimple()) ==> IsSimple()
      ensures r.Pass? && old(IsSimple()) ==>
        GetEdgesNumber() + 2 * |old(connectionsMap)[vertexId]| == old(GetEdgesNumber())
    {
      if vertexId !in connectionsMap {
        return Fail(NoSuchVertex);
      }
      ghost var before := connectionsMap;
      vertexValuesMap := vertexValuesMap - {vertexId};
      var lists := connectionsMap - {vertexId};
      var pending := lists.Keys;
      while pending != {}
        invariant pending <= lists.Keys
        invariant lists.Keys == before.Keys - {vertexId}
        invariant forall k :: k in lists ==>
          lists[k] == if k in pending then before[k] else RemoveFirst(before[k], vertexId)
        decreases pending
      {
        var k :| k in pending;
        lists := lists[k := RemoveFirst(lists[k], vertexId)];
        pending := pending - {k};
      }
      SameEntries(lists, DropVertex(before, vertexId));
      connectionsMap := lists;
      r := Pass;
      assert vertexValuesMap == old(vertexValuesMap) - {vertexId};
      DropVertexPreserves(before, vertexId);
      if Simple(before) {
        DropVertexCountSimple(before, vertexId);
      }
    }

    /** `addEdge`: appends each endpoint to the other's list, or fails with NoSuchVertex or
        EdgeAlreadyExists. A self-loop `(a, a)` is not refused: it appends `a` to its own
        list twice, so only an edge between two different vertices keeps the graph simple. */
    method AddEdge(firstVertex: T, secondVertex: T) returns (r: Outcome)
      requires Valid()
      modifies this
      ensures Valid()
      ensures vertexValuesMap == old(vertexValuesMap)
      ensures GetVertexNumber() == old(GetVertexNumber())
      ensures r == if firstVertex !in old(connectionsMap) || secondVertex !in old(connectionsMap) then Fail(NoSuchVertex)
                   else if secondVertex in old(connectionsMap)[firstVertex] then Fail(EdgeAlreadyExists)
                   else Pass
      ensures r.Fail? ==> connectionsMap == old(connectionsMap)
      ensures r.Pass? ==> connectionsMap == InsertEdge(old(connectionsMap), firstVertex, secondVertex)
      ensures r.Pass? ==> secondVertex in connectionsMap[firstVertex] && firstVertex in connectionsMap[secondVertex]
      ensures r.Pass? ==> GetEdgesNumber() == old(GetEdgesNumber()) + 2
      ensures old(IsSimple()) && firstVertex != secondVertex ==> IsSimple()
    {
      if firstVertex !in connectionsMap {
        return Fail(NoSuchVertex);
      }
      if secondVertex !in connectionsMap {
        return Fail(NoSuchVertex);
      }
      if secondVertex in connectionsMap[firstVertex] {
        return Fail(EdgeAlreadyExists);
      }
      ghost var before := connectionsMap;
      connectionsMap := connectionsMap[firstVertex := connectionsMap[firstVertex] + [secondVertex]];
      connectionsMap := connectionsMap[secondVertex := connectionsMap[secondVertex] + [firstVertex]];
      r := Pass;
      assert vertexValuesMap == old(vertexValuesMap);
      assert connectionsMap == InsertEdge(before, firstVertex, secondVertex);
      InsertEdgePreserves(before, firstVertex, secondVertex);
      InsertEdgeCount(before, firstVertex, secondVertex);
      if Simple(before) && firstVertex != secondVertex {
        InsertEdgePreservesSimple(before, firstVertex, secondVertex);
      }
    }

    /** `removeEdge`: removes the first `secondVertex` from the list of `firstVertex`
        and the first `firstVertex` from the list of `secondVertex`, or fails with
        NoSuchVertex or NoSuchEdge. */
    method RemoveEdge(firstVertex: T, secondVertex: T) returns (r: Outcome)
      requires Valid()
      modifies this
      ensures Valid()
      ensures vertexValuesMap == old(vertexValuesMap)
      ensures GetVertexNumber() == old(GetVertexNumber())
      ensures r == if firstVertex !in old(connectionsMap) || secondVertex !in old(connectionsMap) then Fail(NoSuchVertex)
                   else if secondVertex !in old(connectionsMap)[firstVertex] then Fail(NoSuchEdge)
                   else Pass
      ensures r.Fail? ==> connectionsMap == old(connectionsMap)
      ensures r.Pass? ==> connectionsMap == DeleteEdge(old(connectionsMap), firstVertex, secondVertex)
      ensures r.Pass? ==> secondVertex !in connectionsMap[firstVertex] && firstVertex !in connectionsMap[secondVertex]
      ensures r.Pass? ==> GetEdgesNumber() + 2 == old(GetEdgesNumber())
      ensures old(IsSimple()) ==> IsSimple()
    {
      if firstVertex !in connectionsMap {
        return Fail(NoSuchVertex);
      }
      if secondVertex !in connectionsMap {
        return Fail(NoSuchVertex);
      }
      if secondVertex !in connectionsMap[firstVertex] {
        return Fail(NoSuchEdge);
      }
      ghost var before := connectionsMap;
      connectionsMap := connectionsMap[firstVertex := RemoveFirst(connectionsMap[firstVertex], secondVertex)];
      connectionsMap := connectionsMap[secondVertex := RemoveFirst(connectionsMap[secondVertex], firstVertex)];
      r := Pass;
      assert vertexValuesMap == old(vertexValuesMap);
      assert connectionsMap == DeleteEdge(before, firstVertex, secondVertex);
      DeleteEdgePreserves(before, firstVertex, secondVertex);
      DeleteEdgeCount(before, firstVertex, secondVertex);
    }

    /** `connectVertexWithNotDirectlyConnectedVertexes`: adds an edge from `vertexId` to
        every other vertex it is not yet connected to, or fails with NoSuchVertex. The new
        neighbours are appended in the order the key set is walked, each once; every other
        list gains `vertexId` exactly when it lacked it. */
    method ConnectVertexWithNotDirectlyConnectedVertexes(vertexId: T) returns (r: Outcome)
      requires Valid()
      modifies this
      ensures Valid()
      ensures vertexValuesMap == old(vertexValuesMap)
      ensures GetVertexNumber() == old(GetVertexNumber())
      ensures connectionsMap.Keys == old(connectionsMap).Keys
      ensures r == if vertexId in old(connectionsMap) then Pass else Fail(NoSuchVertex)
      ensures r.Fail? ==> connectionsMap == old(connectionsMap)
      ensures r.Pass? ==> forall k :: k in connectionsMap && k != vertexId ==> k in connectionsMap[vertexId]
      ensures r.Pass? ==> |old(connectionsMap)[vertexId]| <= |connectionsMap[vertexId]|
      ensures r.Pass? ==> connectionsMap[vertexId][..|old(connectionsMap)[vertexId]|] == old(connectionsMap)[vertexId]
      ensures r.Pass? ==> Distinct(connectionsMap[vertexId][|old(connectionsMap)[vertexId]|..])
      ensures r.Pass? ==> forall k :: k in connectionsMap[vertexId][|old(connectionsMap)[vertexId]|..] ==>
        k in old(connectionsMap) && k != vertexId && k !in old(connectionsMap)[vertexId]
      ensures r.Pass? ==> forall k :: k in old(connectionsMap) && k != vertexId ==>
        connectionsMap[k] == old(connectionsMap)[k] + if k in old(connectionsMap)[vertexId] then [] else [vertexId]
      ensures old(IsSimple()) ==> IsSimple()
    {
      if vertexId !in connectionsMap {
        return Fail(NoSuchVertex);
      }
      ghost var before := connectionsMap;
      ghost var added: seq<T> := [];
      ConnectStart(before, vertexId);
      var pending := connectionsMap.Keys;
      while pending != {}
        invariant Valid()
        invariant old(IsSimple()) ==> IsSimple()
        invariant vertexValuesMap == old(vertexValuesMap)
        invariant Connecting(before, connectionsMap, vertexId, added, pending)
        decreases pending
      {
        var k :| k in pending;
        if k == vertexId || k in connectionsMap[vertexId] {
          ConnectSkip(before, connectionsMap, vertexId, added, pending, k);
          pending := pending - {k};
          continue;
        }
        ConnectAdd(before, connectionsMap, vertexId, added, pending, k);
        var e := AddEdge(vertexId, k);
        // Under Valid() this call cannot fail; the source would pass its exception on.
        assert e == Pass;
        added := added + [k];
        pending := pending - {k};
      }
      ConnectDone(before, connectionsMap, vertexId, added);
      r := Pass;
    }

    /** `deleteAllEdgesForVertex`: removes every edge of `vertexId`, or fails with
        NoSuchVertex. It walks a snapshot of the neighbour list; a NoSuchEdge from the
        second entry of a self-loop, whose edge the first entry already removed, is
        ignored as in the source. The source's loop walks the live list instead, which
        stops early or throws; `LiveIteration.LiveDeleteAll` models it as written. */
    method DeleteAllEdgesForVertex(vertexId: T) returns (r: Outcome)
      requires Valid()
      modifies this
      ensures Valid()
      ensures vertexValuesMap == old(vertexValuesMap)
      ensures GetVertexNumber() == old(GetVertexNumber())
      ensures connectionsMap.Keys == old(connectionsMap).Keys
      ensures r == if vertexId in old(connectionsMap) then Pass else Fail(NoSuchVertex)
      ensures r.Fail? ==> connectionsMap == old(connectionsMap)
      ensures r.Pass? ==> connectionsMap[vertexId] == []
      ensures r.Pass? ==> forall k :: k in connectionsMap ==> vertexId !in connectionsMap[k]
      ensures r.Pass? ==> forall k :: k in old(connectionsMap) && k != vertexId ==>
        connectionsMap[k] == if k in old(connectionsMap)[vertexId] then RemoveFirst(old(connectionsMap)[k], vertexId) else old(connectionsMap)[k]
      ensures old(IsSimple()) ==> IsSimple()
    {
      if vertexId !in connectionsMap {
        return Fail(NoSuchVertex);
      }
      ghost var before := connectionsMap;
      var neighbours := connectionsMap[vertexId];
      var i := 0;
      DeleteStart(before, vertexId);
      while i < |neighbours|
        invariant 0 <= i <= |neighbours|
        invariant Valid()
        invariant old(IsSimple()) ==> IsSimple()
        invariant vertexValuesMap == old(vertexValuesMap)
        invariant Deleting(before, connectionsMap, vertexId, neighbours[..i])
        invariant Unlinked(before, connectionsMap, vertexId, neighbours[..i])
      {
        var v := neighbours[i];
        ghost var done := neighbours[..i];
        PrefixExtend(neighbours, i);
        assert v == before[vertexId][|done|];
        DeleteStep(before, connectionsMap, vertexId, done);
        var e := RemoveEdge(v, vertexId);
        // NoSuchEdge is caught and ignored; NoSuchVertex cannot happen under Valid().
        assert e != Fail(NoSuchVertex);
        i := i + 1;
      }
      assert neighbours[..i] == neighbours;
      DeleteDone(before, connectionsMap, vertexId);
      r := Pass;
    }
  }
}
