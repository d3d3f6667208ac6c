/** The number `getEdgesNumber` reports: the total length of all adjacency lists, so that
    every undirected edge is counted once from each endpoint. */
module EdgeCount {
  import opened Lists
  import opened Adjacency

  /** The sum of the lengths of all lists in the map: no list is longer than the sum, and
      the sum is 0 exactly when every list is empty. */
  ghost function SumLengths<T>(m: map<T, seq<T>>): (r: nat)
    ensures forall k :: k in m ==> |m[k]| <= r
    ensures r == 0 <==> forall k :: k in m ==> m[k] == []
    decreases |m|
  {
    if m == map[] then 0
    else
      var k :| k in m;
      assert |m.Keys - {k}| == |m.Keys| - 1;
      assert forall j :: j in m && j != k ==> j in m - {k} && (m - {k})[j] == m[j];
      |m[k]| + SumLengths(m - {k})
  }

  /** The sum can be taken apart at any key, not only at the one its definition picks. */
  lemma {:induction false} SumLengthsSplit<T>(m: map<T, seq<T>>, k: T)
    requires k in m
    ensures SumLengths(m) == |m[k]| + SumLengths(m - {k})
    decreases |m|
  {
    var j :| j in m && SumLengths(m) == |m[j]| + SumLengths(m - {j});
    if j != k {
      var rest := m - {j};
      assert |rest.Keys| == |m.Keys| - 1;
      SumLengthsSplit(rest, k);
      var without := m - {k};
      assert |without.Keys| == |m.Keys| - 1;
      SumLengthsSplit(without, j);
      assert rest - {k} == without - {j};
    }
  }

  /** Replacing one list changes the sum by the difference in length. */
  lemma SumLengthsUpdate<T>(m: map<T, seq<T>>, k: T, s: seq<T>)
    ensures k in m ==> SumLengths(m[k := s]) + |m[k]| == SumLengths(m) + |s|
    ensures k !in m ==> SumLengths(m[k := s]) == SumLengths(m) + |s|
  {
    var m' := m[k := s];
    SumLengthsSplit(m', k);
    if k in m {
      SumLengthsSplit(m, k);
      assert m' - {k} == m - {k};
    } else {
      assert m' - {k} == m;
    }
  }

  /** A new vertex, whose list is empty, does not change the edge count. */
  lemma AddVertexCount<T>(adj: map<T, seq<T>>, id: T)
    requires id !in adj
    ensures SumLengths(adj[id := []]) == SumLengths(adj)
  {
    SumLengthsUpdate(adj, id, []);
  }

  /** A new edge adds two list entries: one at each endpoint. */
  lemma InsertEdgeCount<T>(adj: map<T, seq<T>>, a: T, b: T)
    requires a in adj && b in adj
    ensures SumLengths(InsertEdge(adj, a, b)) == SumLengths(adj) + 2
  {
    var first := adj[a := adj[a] + [b]];
    SumLengthsUpdate(adj, a, adj[a] + [b]);
    SumLengthsUpdate(first, b, first[b] + [a]);
  }

  /** Removing an existing edge of a well-formed graph removes two list entries. */
  lemma DeleteEdgeCount<T>(adj: map<T, seq<T>>, a: T, b: T)
    requires WellFormed(adj) && a in adj && b in adj && b in adj[a]
    ensures SumLengths(DeleteEdge(adj, a, b)) + 2 == SumLengths(adj)
  {
    var first := adj[a := RemoveFirst(adj[a], b)];
    SumLengthsUpdate(adj, a, first[a]);
    if a == b {
      RemoveFirstCount(adj[a], b);
      assert multiset(adj[a])[a] == 2;
      assert multiset(first[a])[a] == 1;
    } else {
      assert a in adj[b];
    }
    SumLengthsUpdate(first, b, RemoveFirst(first[b], a));
  }

  /** The vertices whose list holds `x`. */
  ghost function Holders<T>(m: map<T, seq<T>>, x: T): set<T> {
    set k | k in m && x in m[k]
  }

  /** Every list with its first `x` removed. */
  ghost function RemoveEverywhere<T>(m: map<T, seq<T>>, x: T): (r: map<T, seq<T>>)
    ensures r.Keys == m.Keys
  {
    map k | k in m :: RemoveFirst(m[k], x)
  }

  /** Removing `x` from every list shortens the total by the number of lists holding it. */
  lemma {:induction false} RemoveEverywhereCount<T>(m: map<T, seq<T>>, x: T)
    ensures SumLengths(m) == SumLengths(RemoveEverywhere(m, x)) + |Holders(m, x)|
    decreases |m|
  {
    if m != map[] {
      var k :| k in m;
      var rest := m - {k};
      assert |rest.Keys| == |m.Keys| - 1;
      RemoveEverywhereCount(rest, x);
      SumLengthsSplit(m, k);
      RemoveEverywhereSplit(m, x, k);
      HoldersSplit(m, x, k);
    }
  }

  /** `RemoveEverywhere` taken apart at the key `k`. */
  lemma RemoveEverywhereSplit<T>(m: map<T, seq<T>>, x: T, k: T)
    requires k in m
    ensures SumLengths(RemoveEverywhere(m, x))
      == |m[k]| - (if x in m[k] then 1 else 0) + SumLengths(RemoveEverywhere(m - {k}, x))
  {
    var r := RemoveEverywhere(m, x);
    SumLengthsSplit(r, k);
    assert r - {k} == RemoveEverywhere(m - {k}, x);
  }

  /** The holders of `x` are those among the other keys, plus `k` when its list holds `x`. */
  lemma HoldersSplit<T>(m: map<T, seq<T>>, x: T, k: T)
    requires k in m
    ensures |Holders(m, x)| == |Holders(m - {k}, x)| + if x in m[k] then 1 else 0
  {
    if x in m[k] {
      assert Holders(m, x) == Holders(m - {k}, x) + {k};
    } else {
      assert Holders(m, x) == Holders(m - {k}, x);
    }
  }

  /** The neighbours of `id` other than itself. */
  ghost function OtherNeighbours<T>(adj: map<T, seq<T>>, id: T): set<T>
    requires id in adj
  {
    set x | x in adj[id] && x != id
  }

  /** A list without its self-loop entries (if any) holds each other neighbour once. */
  lemma WithoutSelfLoop<T>(adj: map<T, seq<T>>, id: T) returns (rest: seq<T>)
    requires NoMultiEdges(adj) && id in adj
    ensures |rest| == |adj[id]| - if id in adj[id] then 2 else 0
    ensures Distinct(rest)
    ensures forall y :: y in rest <==> y in adj[id] && y != id
  {
    var s := adj[id];
    if id in s {
      var once := RemoveFirst(s, id);
      RemoveFirstCount(s, id);
      assert multiset(s)[id] == 2;
      assert id in once by {
        assert multiset(once)[id] == 1;
      }
      rest := RemoveFirst(once, id);
      RemoveFirstCount(once, id);
    } else {
      rest := s;
    }
    assert forall y :: multiset(rest)[y] == if y == id then 0 else multiset(s)[y];
    forall y | y in rest
      ensures multiset(rest)[y] == 1
    {
      assert multiset(rest)[y] > 0;
    }
    forall y
      ensures y in rest <==> y in s && y != id
    {
      assert multiset(rest)[y] > 0 <==> multiset(s)[y] > 0 && y != id;
    }
  }

  /** In a well-formed graph a list is as long as its set of other neighbours is large,
      plus two for the two entries of a self-loop. */
  lemma ListLength<T>(adj: map<T, seq<T>>, id: T)
    requires NoMultiEdges(adj) && id in adj
    ensures |adj[id]| == |OtherNeighbours(adj, id)| + if id in adj[id] then 2 else 0
  {
    var rest := WithoutSelfLoop(adj, id);
    DistinctCardinality(rest);
    assert (set y | y in rest) == OtherNeighbours(adj, id);
  }

  /** Removing a vertex of a well-formed graph removes its own list and one entry from
      the list of each other neighbour: twice the number of other neighbours, plus the
      two entries of a self-loop. */
  lemma DropVertexCount<T>(adj: map<T, seq<T>>, id: T)
    requires WellFormed(adj) && id in adj
    ensures SumLengths(adj) == SumLengths(DropVertex(adj, id))
      + 2 * |OtherNeighbours(adj, id)| + (if id in adj[id] then 2 else 0)
  {
    var rest := adj - {id};
    SumLengthsSplit(adj, id);
    RemoveEverywhereCount(rest, id);
    DropIsRemoveEverywhere(adj, id);
    HoldersAreNeighbours(adj, id);
    ListLength(adj, id);
  }

  /** Removing a vertex is removing its entry, then its id from every remaining list. */
  lemma DropIsRemoveEverywhere<T>(adj: map<T, seq<T>>, id: T)
    ensures RemoveEverywhere(adj - {id}, id) == DropVertex(adj, id)
  {
  }

  /** In a symmetric graph the other lists holding `id` are those of its other neighbours. */
  lemma HoldersAreNeighbours<T>(adj: map<T, seq<T>>, id: T)
    requires Closed(adj) && Symmetric(adj) && id in adj
    ensures Holders(adj - {id}, id) == OtherNeighbours(adj, id)
  {
  }

  /** In a simple graph, removing a vertex of degree d lowers the edge count by 2 * d. */
  lemma DropVertexCountSimple<T>(adj: map<T, seq<T>>, id: T)
    requires Simple(adj) && id in adj
    ensures SumLengths(DropVertex(adj, id)) + 2 * |adj[id]| == SumLengths(adj)
  {
    DropVertexCount(adj, id);
    ListLength(adj, id);
    SimpleHasNoSelfLoops(adj, id);
  }

  /** Removing a vertex keeps the parity of the edge count. */
  lemma DropVertexParity<T>(adj: map<T, seq<T>>, id: T)
    requires WellFormed(adj) && id in adj
    ensures SumLengths(adj) % 2 == SumLengths(DropVertex(adj, id)) % 2
  {
    DropVertexCount(adj, id);
    var n := |OtherNeighbours(adj, id)| + if id in adj[id] then 1 else 0;
    EvenDifference(SumLengths(adj), SumLengths(DropVertex(adj, id)), n);
  }

  /** Two numbers that differ by an even amount have the same parity. */
  lemma EvenDifference(total: nat, rest: nat, n: nat)
    requires total == rest + 2 * n
    ensures total % 2 == rest % 2
  {
  }

  /** Every edge is counted from both of its endpoints, so the count is even. */
  lemma {:induction false} EdgeCountEven<T>(adj: map<T, seq<T>>)
    requires WellFormed(adj)
    ensures SumLengths(adj) % 2 == 0
    decreases |adj|
  {
    if adj != map[] {
      var id :| id in adj;
      var rest := DropVertex(adj, id);
      assert |rest.Keys| == |adj.Keys| - 1;
      DropVertexPreserves(adj, id);
      EdgeCountEven(rest);
      DropVertexParity(adj, id);
    }
  }
}
