/** Short client runs of the graph, with what each returns and leaves behind. */
module Scenarios {
  import opened GraphErrors
  import opened Graphs

  /** Adding the same edge twice in a row: the second call fails with EdgeAlreadyExists
      and leaves the state the first call produced. */
  method AddEdgeTwice<T(==), E>(g: UnDirectedGraph<T, E>, a: T, b: T) returns (first: Outcome, second: Outcome)
    requires g.Valid()
    modifies g
    ensures g.Valid()
    ensures first.Pass? <==> a in old(g.connectionsMap) && b in old(g.connectionsMap) && b !in old(g.connectionsMap)[a]
    ensures first.Pass? ==> second == Fail(EdgeAlreadyExists)
    ensures first.Fail? ==> second == first
    ensures g.connectionsMap == if first.Pass? then Adjacency.InsertEdge(old(g.connectionsMap), a, b) else old(g.connectionsMap)
    ensures g.vertexValuesMap == old(g.vertexValuesMap)
  {
    first := g.AddEdge(a, b);
    second := g.AddEdge(a, b);
  }

  /** Removing an edge right after adding it: the second call succeeds and every list is
      as it was before the first. When the edge was already there, the removal takes it out. */
  method AddThenRemoveEdge<T(==), E>(g: UnDirectedGraph<T, E>, a: T, b: T) returns (added: Outcome, removed: Outcome)
    requires g.Valid()
    modifies g
    ensures g.Valid()
    ensures added.Pass? ==> removed == Pass && g.connectionsMap == old(g.connectionsMap)
    ensures added == Fail(EdgeAlreadyExists) ==>
      && a in old(g.connectionsMap) && b in old(g.connectionsMap) && removed == Pass
      && g.connectionsMap == Adjacency.DeleteEdge(old(g.connectionsMap), a, b)
    ensures added == Fail(NoSuchVertex) ==> removed == added && g.connectionsMap == old(g.connectionsMap)
    ensures g.vertexValuesMap == old(g.vertexValuesMap)
  {
    ghost var before := g.connectionsMap;
    added := g.AddEdge(a, b);
    removed := g.RemoveEdge(a, b);
    if added.Pass? {
      Adjacency.InsertThenDelete(before, a, b);
    }
  }

  /** Three vertices 0, 1, 2 with the values "A", "B", "C" and no edges. */
  method ThreeVertices() returns (g: UnDirectedGraph<int, string>)
    ensures fresh(g) && g.Valid() && g.IsSimple()
    ensures g.connectionsMap.Keys == {0, 1, 2}
    ensures g.connectionsMap[0] == [] && g.connectionsMap[1] == [] && g.connectionsMap[2] == []
    ensures g.GetVertexValue(2) == Success("C")
    ensures g.GetEdgesNumber() == 0
    ensures g.GetVertexNumber() == 3
  {
    g := new UnDirectedGraph();
    var r := g.AddVertex(0, "A");
    r := g.AddVertex(1, "B");
    r := g.AddVertex(2, "C");
    assert g.connectionsMap == map[][0 := []][1 := []][2 := []];
    NoEdgesYet(g.connectionsMap);
  }

  /** The lists of three vertices added one after the other. */
  lemma NoEdgesYet(m: map<int, seq<int>>)
    requires m == map[][0 := []][1 := []][2 := []]
    ensures m.Keys == {0, 1, 2} && |m.Keys| == 3
    ensures m[0] == [] && m[1] == [] && m[2] == []
  {
    assert m.Keys == {0, 1} + {2};
  }

  /** The three vertices with the one edge 0-1. */
  method FirstEdge() returns (g: UnDirectedGraph<int, string>)
    ensures fresh(g) && g.Valid() && g.IsSimple()
    ensures g.connectionsMap.Keys == {0, 1, 2}
    ensures g.connectionsMap[0] == [1] && g.connectionsMap[1] == [0] && g.connectionsMap[2] == []
    ensures g.GetVertexValue(2) == Success("C")
    ensures g.GetEdgesNumber() == 2
    ensures g.GetVertexNumber() == 3
  {
    g := ThreeVertices();
    ghost var m := g.connectionsMap;
    ghost var edges := g.GetEdgesNumber();
    var r := g.AddEdge(0, 1);
    assert r == Pass;
    assert g.GetEdgesNumber() == edges + 2;
    FirstEdgeLists(m, g.connectionsMap);
  }

  /** Three vertices 0, 1, 2 with the edges 0-1 and 1-2: the edge count is 4, since each
      edge is counted from both ends, and the vertex count stays 3. */
  method PathOfThree() returns (g: UnDirectedGraph<int, string>)
    ensures fresh(g) && g.Valid() && g.IsSimple()
    ensures g.connectionsMap.Keys == {0, 1, 2}
    ensures g.connectionsMap[0] == [1] && g.connectionsMap[1] == [0, 2] && g.connectionsMap[2] == [1]
    ensures g.GetVertexNumber() == 3
    ensures g.GetEdgesNumber() == 4
    ensures g.GetAllDirectlyConnectedVertexes(1) == Success([0, 2])
    ensures g.GetVertexValue(2) == Success("C")
  {
    g := FirstEdge();
    ghost var m := g.connectionsMap;
    ghost var edges := g.GetEdgesNumber();
    var r := g.AddEdge(1, 2);
    assert r == Pass;
    assert g.GetEdgesNumber() == edges + 2;
    PathLists(m, g.connectionsMap);
  }

  /** Removing the middle vertex of that path leaves both ends without neighbours. */
  method RemoveMiddle() returns (g: UnDirectedGraph<int, string>)
    ensures fresh(g) && g.Valid() && g.IsSimple()
    ensures g.GetVertexNumber() == 2
    ensures g.GetEdgesNumber() == 0
    ensures g.GetAllDirectlyConnectedVertexes(0) == Success([])
    ensures g.GetAllDirectlyConnectedVertexes(2) == Success([])
    ensures g.GetAllDirectlyConnectedVertexes(1) == Failure(NoSuchVertex)
  {
    g := PathOfThree();
    ghost var m := g.connectionsMap;
    var r := g.RemoveVertex(1);
    MiddleRemovedLists(m, g.connectionsMap);
  }

  /** The edge 0-1 added to three isolated vertices. */
  lemma FirstEdgeLists(m: map<int, seq<int>>, now: map<int, seq<int>>)
    requires m.Keys == {0, 1, 2} && m[0] == [] && m[1] == [] && m[2] == []
    requires now == Adjacency.InsertEdge(m, 0, 1)
    ensures now.Keys == {0, 1, 2}
    ensures now[0] == [1] && now[1] == [0] && now[2] == []
  {
    assert now[0] == [] + [1] && now[1] == [] + [0];
  }

  /** The edge 1-2 added to the graph with the one edge 0-1. */
  lemma PathLists(m: map<int, seq<int>>, now: map<int, seq<int>>)
    requires m.Keys == {0, 1, 2} && m[0] == [1] && m[1] == [0] && m[2] == []
    requires now == Adjacency.InsertEdge(m, 1, 2)
    ensures now.Keys == {0, 1, 2}
    ensures now[0] == [1] && now[1] == [0, 2] && now[2] == [1]
  {
    assert now[1] == [0] + [2] && now[2] == [] + [1];
  }

  /** The vertex 1 removed from the path 0-1-2. */
  lemma MiddleRemovedLists(m: map<int, seq<int>>, now: map<int, seq<int>>)
    requires m.Keys == {0, 1, 2} && m[0] == [1] && m[1] == [0, 2] && m[2] == [1]
    requires now == Adjacency.DropVertex(m, 1)
    ensures now.Keys == {0, 2} && |now.Keys| == 2
    ensures now[0] == [] && now[2] == []
  {
    assert now.Keys == {0} + {2};
    assert Lists.RemoveFirst([1], 1) == [];
  }
}
