/** The adjacency map of an undirected graph as a value: vertex id -> list of neighbours.
    The graph class stores one of these and changes it only through the functions here. */
module Adjacency {
  import opened Lists

  /** No dangling neighbour: every id in a list is a vertex of the graph. */
  ghost predicate Closed<T>(adj: map<T, seq<T>>) {
    forall a, b :: a in adj && b in adj[a] ==> b in adj
  }

  /** Undirected symmetry: b is a neighbour of a exactly when a is a neighbour of b. */
  ghost predicate Symmetric<T>(adj: map<T, seq<T>>) {
    forall a, b :: a in adj && b in adj ==> (b in adj[a] <==> a in adj[b])
  }

  /** No multi-edges: a neighbour is listed once, except that a self-loop, which adding
      the edge (a, a) appends twice to the same list, is listed exactly twice. */
  ghost predicate NoMultiEdges<T>(adj: map<T, seq<T>>) {
    forall a, b :: a in adj && b in adj[a] ==> multiset(adj[a])[b] == if a == b then 2 else 1
  }

  /** The invariant every state reachable through the graph's operations satisfies. */
  ghost predicate WellFormed<T>(adj: map<T, seq<T>>) {
    Closed(adj) && Symmetric(adj) && NoMultiEdges(adj)
  }

  /** No adjacency list holds the same id twice. */
  ghost predicate NoDuplicates<T>(adj: map<T, seq<T>>) {
    forall a :: a in adj ==> Distinct(adj[a])
  }

  /** A simple graph: well formed and without duplicate entries, hence without self-loops. */
  ghost predicate Simple<T>(adj: map<T, seq<T>>) {
    WellFormed(adj) && NoDuplicates(adj)
  }

  /** The mutation of a successful `addEdge(a, b)`: `b` is appended to the list of `a`,
      then `a` to the list of `b` (the same list twice when `a == b`). */
  function InsertEdge<T>(adj: map<T, seq<T>>, a: T, b: T): (r: map<T, seq<T>>)
    requires a in adj && b in adj
    ensures r.Keys == adj.Keys
    ensures forall k :: k in adj ==>
      r[k] == adj[k] + (if k == a then [b] else []) + (if k == b then [a] else [])
  {
    var first := adj[a := adj[a] + [b]];
    first[b := first[b] + [a]]
  }

  /** The mutation of a successful `removeEdge(a, b)`: the first `b` is removed from the
      list of `a`, then the first `a` from the list of `b`. */
  function DeleteEdge<T(==)>(adj: map<T, seq<T>>, a: T, b: T): (r: map<T, seq<T>>)
    requires a in adj && b in adj
    ensures r.Keys == adj.Keys
    ensures a != b ==> r[a] == RemoveFirst(adj[a], b) && r[b] == RemoveFirst(adj[b], a)
    ensures r[a] == RemoveFirst(RemoveFirst(adj[a], b), a) || a != b
    ensures forall k :: k in adj && k != a && k != b ==> r[k] == adj[k]
  {
    var first := adj[a := RemoveFirst(adj[a], b)];
    first[b := RemoveFirst(first[b], a)]
  }

  /** The mutation of a successful `removeVertex(id)`: the entry of `id` goes, and each
      remaining list loses its first occurrence of `id`. */
  function DropVertex<T(==)>(adj: map<T, seq<T>>, id: T): (r: map<T, seq<T>>)
    ensures r.Keys == adj.Keys - {id}
  {
    map k | k in adj && k != id :: RemoveFirst(adj[k], id)
  }

  /** A simple graph has no self-loops. */
  lemma SimpleHasNoSelfLoops<T>(adj: map<T, seq<T>>, a: T)
    requires Simple(adj) && a in adj
    ensures a !in adj[a]
  {
  }

  /** A vertex added with an empty list keeps the graph well formed and simple. */
  lemma AddVertexPreserves<T>(adj: map<T, seq<T>>, id: T)
    requires WellFormed(adj) && id !in adj
    ensures WellFormed(adj[id := []])
    ensures Simple(adj) ==> Simple(adj[id := []])
  {
  }

  /** How one list of `InsertEdge(adj, a, b)` differs from the old one, element by element. */
  lemma InsertEdgeAt<T>(adj: map<T, seq<T>>, a: T, b: T, k: T, x: T)
    requires a in adj && b in adj && k in adj
    ensures multiset(InsertEdge(adj, a, b)[k])[x] ==
      multiset(adj[k])[x] + (if k == a && x == b then 1 else 0) + (if k == b && x == a then 1 else 0)
    ensures x in InsertEdge(adj, a, b)[k] <==> x in adj[k] || (k == a && x == b) || (k == b && x == a)
  {
    var r := InsertEdge(adj, a, b);
    var extraA: seq<T> := if k == a then [b] else [];
    var extraB: seq<T> := if k == b then [a] else [];
    assert r[k] == adj[k] + extraA + extraB;
    assert multiset(r[k]) == multiset(adj[k]) + multiset(extraA) + multiset(extraB);
  }

  /** Adding an edge between two vertices keeps every neighbour a vertex. */
  lemma InsertEdgeClosed<T>(adj: map<T, seq<T>>, a: T, b: T)
    requires Closed(adj) && a in adj && b in adj
    ensures Closed(InsertEdge(adj, a, b))
  {
    var r := InsertEdge(adj, a, b);
    forall k, x | k in r && x in r[k]
      ensures x in r
    {
      InsertEdgeAt(adj, a, b, k, x);
    }
  }

  /** Adding an edge in both lists keeps the lists symmetric. */
  lemma InsertEdgeSymmetric<T>(adj: map<T, seq<T>>, a: T, b: T)
    requires Symmetric(adj) && a in adj && b in adj
    ensures Symmetric(InsertEdge(adj, a, b))
  {
    var r := InsertEdge(adj, a, b);
    forall k, x | k in r && x in r
      ensures x in r[k] <==> k in r[x]
    {
      InsertEdgeAt(adj, a, b, k, x);
      InsertEdgeAt(adj, a, b, x, k);
    }
  }

  /** Adding an edge that is not there lists each endpoint once in the other's list
      (twice in its own list for a self-loop). */
  lemma InsertEdgeNoMultiEdges<T>(adj: map<T, seq<T>>, a: T, b: T)
    requires NoMultiEdges(adj) && Symmetric(adj) && a in adj && b in adj && b !in adj[a]
    ensures NoMultiEdges(InsertEdge(adj, a, b))
  {
    var r := InsertEdge(adj, a, b);
    assert a !in adj[b];
    forall k, x | k in r && x in r[k]
      ensures multiset(r[k])[x] == if k == x then 2 else 1
    {
      InsertEdgeAt(adj, a, b, k, x);
    }
  }

  /** Adding an edge that is not there keeps the graph well formed, and makes the two
      endpoints each other's neighbours. */
  lemma InsertEdgePreserves<T>(adj: map<T, seq<T>>, a: T, b: T)
    requires WellFormed(adj) && a in adj && b in adj && b !in adj[a]
    ensures WellFormed(InsertEdge(adj, a, b))
    ensures b in InsertEdge(adj, a, b)[a] && a in InsertEdge(adj, a, b)[b]
  {
    InsertEdgeClosed(adj, a, b);
    InsertEdgeSymmetric(adj, a, b);
    InsertEdgeNoMultiEdges(adj, a, b);
    InsertEdgeAt(adj, a, b, a, b);
    InsertEdgeAt(adj, a, b, b, a);
  }

  /** An edge between two different vertices keeps a simple graph simple. */
  lemma InsertEdgePreservesSimple<T>(adj: map<T, seq<T>>, a: T, b: T)
    requires Simple(adj) && a in adj && b in adj && b !in adj[a] && a != b
    ensures Simple(InsertEdge(adj, a, b))
  {
    var r := InsertEdge(adj, a, b);
    InsertEdgePreserves(adj, a, b);
    forall k, x | k in r && x in r[k]
      ensures multiset(r[k])[x] == 1
    {
      InsertEdgeAt(adj, a, b, k, x);
    }
  }

  /** A self-loop is the one edge that breaks the no-duplicates property: `addEdge(a, a)`
      lists `a` twice in its own list. */
  lemma SelfLoopDuplicates<T>(adj: map<T, seq<T>>, a: T)
    requires a in adj && a !in adj[a]
    ensures !NoDuplicates(InsertEdge(adj, a, a))
    ensures multiset(InsertEdge(adj, a, a)[a])[a] == 2
  {
    InsertEdgeAt(adj, a, a, a, a);
  }

  /** How one list of `DeleteEdge(adj, a, b)` differs from the old one, as a multiset. */
  lemma DeleteEdgeAt<T>(adj: map<T, seq<T>>, a: T, b: T, k: T)
    requires a in adj && b in adj && k in adj
    ensures multiset(DeleteEdge(adj, a, b)[k]) ==
      multiset(adj[k]) - (if k == a then multiset{b} else multiset{}) - (if k == b then multiset{a} else multiset{})
  {
    var first := adj[a := RemoveFirst(adj[a], b)];
    if k == a {
      RemoveFirstCount(adj[a], b);
    }
    if k == b {
      RemoveFirstCount(first[b], a);
    }
  }

  /** Removing an existing edge removes exactly the two entries that made it up. */
  lemma DeleteEdgeEntries<T>(adj: map<T, seq<T>>, a: T, b: T, k: T, x: T)
    requires NoMultiEdges(adj) && Symmetric(adj) && a in adj && b in adj && b in adj[a] && k in adj
    ensures x in DeleteEdge(adj, a, b)[k] <==> x in adj[k] && !(k == a && x == b) && !(k == b && x == a)
    ensures x in DeleteEdge(adj, a, b)[k] ==> multiset(DeleteEdge(adj, a, b)[k])[x] == multiset(adj[k])[x]
  {
    var m, m' := multiset(adj[k]), multiset(DeleteEdge(adj, a, b)[k]);
    DeleteEdgeAt(adj, a, b, k);
    if a == b && k == a && x == a {
      assert m[a] == 2;
      assert m' == m - multiset{a} - multiset{a};
      assert m'[x] == 0;
    } else if k == a && x == b {
      assert m[b] == 1;
      assert m'[x] == 0;
    } else if k == b && x == a {
      assert a in adj[b];
      assert m[a] == 1;
      assert m'[x] == 0;
    } else {
      assert m'[x] == m[x];
    }
  }

  /** Removing an existing edge keeps the graph well formed and simple, and the two
      endpoints are no longer neighbours. */
  lemma DeleteEdgePreserves<T>(adj: map<T, seq<T>>, a: T, b: T)
    requires WellFormed(adj) && a in adj && b in adj && b in adj[a]
    ensures WellFormed(DeleteEdge(adj, a, b))
    ensures b !in DeleteEdge(adj, a, b)[a] && a !in DeleteEdge(adj, a, b)[b]
    ensures NoDuplicates(adj) ==> NoDuplicates(DeleteEdge(adj, a, b))
  {
    DeleteEdgeEntries(adj, a, b, a, b);
    DeleteEdgeEntries(adj, a, b, b, a);
    DeleteEdgeEntriesKept(adj, a, b);
    DeleteEdgeSymmetric(adj, a, b);
  }

  /** After removing an existing edge every remaining entry is a vertex, listed as often
      as before. */
  lemma DeleteEdgeEntriesKept<T>(adj: map<T, seq<T>>, a: T, b: T)
    requires WellFormed(adj) && a in adj && b in adj && b in adj[a]
    ensures Closed(DeleteEdge(adj, a, b)) && NoMultiEdges(DeleteEdge(adj, a, b))
    ensures NoDuplicates(adj) ==> NoDuplicates(DeleteEdge(adj, a, b))
  {
    var r := DeleteEdge(adj, a, b);
    forall k, x | k in r && x in r[k]
      ensures x in r
    {
      DeleteEdgeEntries(adj, a, b, k, x);
    }
    forall k, x | k in r && x in r[k]
      ensures multiset(r[k])[x] == if k == x then 2 else 1
    {
      DeleteEdgeEntries(adj, a, b, k, x);
    }
    forall k, x | k in r && x in r[k] && NoDuplicates(adj)
      ensures multiset(r[k])[x] == 1
    {
      DeleteEdgeEntries(adj, a, b, k, x);
    }
  }

  /** Removing an existing edge from both lists keeps the lists symmetric. */
  lemma DeleteEdgeSymmetric<T>(adj: map<T, seq<T>>, a: T, b: T)
    requires NoMultiEdges(adj) && Symmetric(adj) && a in adj && b in adj && b in adj[a]
    ensures Symmetric(DeleteEdge(adj, a, b))
  {
    var r := DeleteEdge(adj, a, b);
    forall k, x | k in r && x in r
      ensures x in r[k] <==> k in r[x]
    {
      DeleteEdgeEntries(adj, a, b, k, x);
      DeleteEdgeEntries(adj, a, b, x, k);
    }
  }

  /** How one list of `DropVertex(adj, id)` differs from the old one, element by element. */
  lemma DropVertexAt<T>(adj: map<T, seq<T>>, id: T, k: T, x: T)
    requires NoMultiEdges(adj) && k in adj && k != id
    ensures x in DropVertex(adj, id)[k] <==> x in adj[k] && x != id
    ensures x != id ==> multiset(DropVertex(adj, id)[k])[x] == multiset(adj[k])[x]
  {
    var m, m' := multiset(adj[k]), multiset(DropVertex(adj, id)[k]);
    RemoveFirstCount(adj[k], id);
    if x == id {
      assert m[id] <= 1;
      assert m'[x] == 0;
    } else {
      assert m'[x] == m[x];
    }
  }

  /** Removing a vertex from a well-formed graph leaves no dangling neighbour and keeps
      the graph well formed and simple. */
  lemma DropVertexPreserves<T>(adj: map<T, seq<T>>, id: T)
    requires WellFormed(adj) && id in adj
    ensures WellFormed(DropVertex(adj, id))
    ensures forall k :: k in DropVertex(adj, id) ==> id !in DropVertex(adj, id)[k]
    ensures NoDuplicates(adj) ==> NoDuplicates(DropVertex(adj, id))
  {
    var r := DropVertex(adj, id);
    forall k | k in r
      ensures id !in r[k]
    {
      DropVertexAt(adj, id, k, id);
    }
    DropVertexEntriesKept(adj, id);
    DropVertexSymmetric(adj, id);
  }

  /** After removing a vertex every remaining entry is a vertex, listed as often as
      before. */
  lemma DropVertexEntriesKept<T>(adj: map<T, seq<T>>, id: T)
    requires WellFormed(adj) && id in adj
    ensures Closed(DropVertex(adj, id)) && NoMultiEdges(DropVertex(adj, id))
    ensures NoDuplicates(adj) ==> NoDuplicates(DropVertex(adj, id))
  {
    var r := DropVertex(adj, id);
    forall k, x | k in r && x in r[k]
      ensures x in r
    {
      DropVertexAt(adj, id, k, x);
    }
    forall k, x | k in r && x in r[k]
      ensures multiset(r[k])[x] == if k == x then 2 else 1
    {
      DropVertexAt(adj, id, k, x);
    }
    forall k, x | k in r && x in r[k] && NoDuplicates(adj)
      ensures multiset(r[k])[x] == 1
    {
      DropVertexAt(adj, id, k, x);
    }
  }

  /** Removing a vertex from every list keeps the lists symmetric. */
  lemma DropVertexSymmetric<T>(adj: map<T, seq<T>>, id: T)
    requires NoMultiEdges(adj) && Symmetric(adj)
    ensures Symmetric(DropVertex(adj, id))
  {
    var r := DropVertex(adj, id);
    forall k, x | k in r && x in r
      ensures x in r[k] <==> k in r[x]
    {
      DropVertexAt(adj, id, k, x);
      DropVertexAt(adj, id, x, k);
    }
  }

  /** One list of the round trip through `InsertEdge` and `DeleteEdge`. */
  lemma InsertThenDeleteAt<T>(adj: map<T, seq<T>>, a: T, b: T, k: T)
    requires Symmetric(adj) && a in adj && b in adj && b !in adj[a] && k in adj
    ensures DeleteEdge(InsertEdge(adj, a, b), a, b)[k] == adj[k]
  {
    var added := InsertEdge(adj, a, b);
    if a == b && k == a {
      assert added[a] == adj[a] + [a, a];
      RemoveFirstSkipsPrefix(adj[a], [a, a], a);
      assert RemoveFirst(added[a], a) == adj[a] + [a];
      RemoveFirstAppended(adj[a], a);
    } else if k == a {
      RemoveFirstAppended(adj[a], b);
    } else if k == b {
      assert a !in adj[b];
      RemoveFirstAppended(adj[b], a);
    } else {
      assert added[k] == adj[k] + [] + [];
    }
  }

  /** Removing an edge right after adding it restores every list exactly. */
  lemma InsertThenDelete<T>(adj: map<T, seq<T>>, a: T, b: T)
    requires Symmetric(adj) && a in adj && b in adj && b !in adj[a]
    ensures DeleteEdge(InsertEdge(adj, a, b), a, b) == adj
  {
    var r := DeleteEdge(InsertEdge(adj, a, b), a, b);
    forall k | k in adj
      ensures r[k] == adj[k]
    {
      InsertThenDeleteAt(adj, a, b, k);
    }
    SameEntries(r, adj);
  }

  /** Two maps with the same keys and the same value at every key are equal. */
  lemma SameEntries<K, V>(m: map<K, V>, m': map<K, V>)
    requires m.Keys == m'.Keys && forall k :: k in m ==> m[k] == m'[k]
    ensures m == m'
  {
  }
}
