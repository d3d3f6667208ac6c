/** The two loops that add or remove all edges of one vertex, one step at a time: what
    holds of the adjacency map after some of the vertices have been visited. */
module EdgeSweeps {
  import opened Lists
  import opened Adjacency

  /** `connectVertexWithNotDirectlyConnectedVertexes` has visited every vertex not in
      `pending`: `added` holds, in order and once each, the visited vertices that were not
      yet neighbours of `id`, and each of them has gained `id` in its own list. */
  ghost predicate Connecting<T>(before: map<T, seq<T>>, now: map<T, seq<T>>, id: T, added: seq<T>, pending: set<T>) {
    && id in before
    && now.Keys == before.Keys
    && pending <= before.Keys
    && now[id] == before[id] + added
    && Distinct(added)
    && (forall k :: k in added ==> k in before && k != id && k !in before[id] && k !in pending)
    && (forall k :: k in before && k != id && k !in before[id] && k !in pending ==> k in added)
    && (forall k :: k in before && k != id ==> now[k] == before[k] + if k in added then [id] else [])
  }

  /** Nothing visited yet. */
  lemma ConnectStart<T>(before: map<T, seq<T>>, id: T)
    requires id in before
    ensures Connecting(before, before, id, [], before.Keys)
  {
    assert before[id] + [] == before[id];
    forall k | k in before && k != id
      ensures before[k] == before[k] + []
    {
    }
  }

  /** Visiting `id` itself, or a vertex that is already a neighbour, changes nothing. */
  lemma ConnectSkip<T>(before: map<T, seq<T>>, now: map<T, seq<T>>, id: T, added: seq<T>, pending: set<T>, k: T)
    requires Connecting(before, now, id, added, pending) && k in pending
    requires k == id || k in now[id]
    ensures Connecting(before, now, id, added, pending - {k})
  {
    if k != id {
      assert k in before[id] + added;
    }
  }

  /** Visiting a vertex that is not yet a neighbour adds the edge to it. */
  lemma ConnectAdd<T>(before: map<T, seq<T>>, now: map<T, seq<T>>, id: T, added: seq<T>, pending: set<T>, k: T)
    requires Connecting(before, now, id, added, pending) && k in pending
    requires k != id && k !in now[id]
    ensures Connecting(before, InsertEdge(now, id, k), id, added + [k], pending - {k})
  {
    var next := InsertEdge(now, id, k);
    assert k !in before[id] && k !in added;
    assert multiset(added)[k] == 0;
    assert next[id] == before[id] + (added + [k]);
    forall j | j in before && j != id
      ensures next[j] == before[j] + if j in added + [k] then [id] else []
    {
      if j == k {
        assert next[j] == now[j] + [id];
      } else {
        assert next[j] == now[j] + [] + [];
      }
    }
  }

  /** Once every vertex is visited, `id` is adjacent to all other vertices: its old list
      is followed by the vertices that were missing, each once, and every other list has
      gained `id` exactly when it lacked it. */
  lemma ConnectDone<T>(before: map<T, seq<T>>, now: map<T, seq<T>>, id: T, added: seq<T>)
    requires Symmetric(before) && Connecting(before, now, id, added, {})
    ensures forall k :: k in now && k != id ==> k in now[id]
    ensures |before[id]| <= |now[id]| && now[id][..|before[id]|] == before[id]
    ensures Distinct(now[id][|before[id]|..])
    ensures forall k :: k in now[id][|before[id]|..] ==> k in before && k != id && k !in before[id]
    ensures forall k :: k in before && k != id ==>
      now[k] == before[k] + if k in before[id] then [] else [id]
  {
    assert now[id][|before[id]|..] == added;
    forall k | k in now && k != id
      ensures k in now[id]
    {
      if k !in before[id] {
        assert k in added;
      }
    }
  }

  /** `deleteAllEdgesForVertex` has handled the entries `done`, a prefix of the snapshot of
      the list of `id`: those neighbours are gone from the list of `id`. */
  ghost predicate Deleting<T>(before: map<T, seq<T>>, now: map<T, seq<T>>, id: T, done: seq<T>) {
    && id in before
    && done <= before[id]
    && now.Keys == before.Keys
    && (forall x :: x in now[id] ==> x in before[id] && x !in done)
    && (forall x :: x in before[id] && x !in done ==> multiset(now[id])[x] == multiset(before[id])[x])
  }

  /** Each other vertex among the entries `done` has lost its entry for `id`; the rest
      are as they were. */
  ghost predicate Unlinked<T>(before: map<T, seq<T>>, now: map<T, seq<T>>, id: T, done: seq<T>) {
    && now.Keys == before.Keys
    && forall k :: k in before && k != id ==>
         now[k] == if k in done then RemoveFirst(before[k], id) else before[k]
  }

  /** Nothing handled yet. */
  lemma DeleteStart<T>(before: map<T, seq<T>>, id: T)
    requires id in before
    ensures Deleting(before, before, id, []) && Unlinked(before, before, id, [])
  {
  }

  /** The next entry `v` of the snapshot still lists `id`, unless `v` is `id` itself met
      for the second time, after its self-loop was removed; and `v` was not handled
      before unless it is that second entry of the self-loop. */
  lemma DeleteNextHasEdge<T>(before: map<T, seq<T>>, now: map<T, seq<T>>, id: T, done: seq<T>)
    requires WellFormed(before) && Deleting(before, now, id, done) && Unlinked(before, now, id, done)
    requires |done| < |before[id]|
    ensures before[id][|done|] in now
    ensures id in now[before[id][|done|]] <==> before[id][|done|] != id || id !in done
    ensures before[id][|done|] in done ==> before[id][|done|] == id
  {
    var ns := before[id];
    var v := ns[|done|];
    assert v in ns;
    assert done == ns[..|done|];
    if v != id {
      UniqueNotBefore(ns, |done|);
      assert now[v] == before[v];
    } else if id !in done {
      assert multiset(now[id])[id] == 2;
    }
  }

  /** Removing the edge to the next entry handles it in the list of `id`. */
  lemma DeleteRemove<T>(before: map<T, seq<T>>, now: map<T, seq<T>>, id: T, done: seq<T>)
    requires WellFormed(before) && Deleting(before, now, id, done) && |done| < |before[id]|
    requires before[id][|done|] in done ==> before[id][|done|] == id
    requires before[id][|done|] in now && id in now[before[id][|done|]]
    ensures Deleting(before, DeleteEdge(now, before[id][|done|], id), id, done + [before[id][|done|]])
  {
    var v := before[id][|done|];
    assert v in before[id] && v !in done;
    assert multiset(now[id])[v] == multiset(before[id])[v];
    DeleteEntryOf(before, now, id, done);
  }

  /** The same, once the entries of the next vertex in the list of `id` are known. */
  lemma DeleteEntryOf<T>(before: map<T, seq<T>>, now: map<T, seq<T>>, id: T, done: seq<T>)
    requires Deleting(before, now, id, done) && |done| < |before[id]|
    requires before[id][|done|] in now && before[id][|done|] !in done
    requires multiset(now[id])[before[id][|done|]] == if before[id][|done|] == id then 2 else 1
    ensures Deleting(before, DeleteEdge(now, before[id][|done|], id), id, done + [before[id][|done|]])
  {
    var ns := before[id];
    var v := ns[|done|];
    PrefixExtend(ns, |done|);
    var after := DeleteEdge(now, v, id)[id];
    forall x | x in after
      ensures x in ns && x !in done + [v]
    {
      DeleteOwnEntry(now, v, id, x);
    }
    forall x | x in ns && x !in done + [v]
      ensures multiset(after)[x] == multiset(ns)[x]
    {
      DeleteOwnEntry(now, v, id, x);
    }
  }

  /** Removing the edge between `id` and `v` takes every entry for `v` out of the list of
      `id` and leaves the other entries as they were. */
  lemma DeleteOwnEntry<T>(now: map<T, seq<T>>, v: T, id: T, x: T)
    requires v in now && id in now
    requires multiset(now[id])[v] == if v == id then 2 else 1
    ensures x in DeleteEdge(now, v, id)[id] <==> x in now[id] && x != v
    ensures x != v ==> multiset(DeleteEdge(now, v, id)[id])[x] == multiset(now[id])[x]
  {
    DeleteEdgeAt(now, v, id, id);
    assert multiset(DeleteEdge(now, v, id)[id])[v] == 0;
    assert x in DeleteEdge(now, v, id)[id] <==> multiset(DeleteEdge(now, v, id)[id])[x] > 0;
  }

  /** Removing the edge to the next entry unlinks that vertex from `id`. */
  lemma DeleteUnlinks<T>(before: map<T, seq<T>>, now: map<T, seq<T>>, id: T, done: seq<T>, v: T)
    requires Unlinked(before, now, id, done) && id in now && v in now
    requires v !in done || v == id
    ensures Unlinked(before, DeleteEdge(now, v, id), id, done + [v])
  {
  }

  /** A vertex met again after its edge was removed leaves the list of `id` as it was. */
  lemma DeleteIgnore<T>(before: map<T, seq<T>>, now: map<T, seq<T>>, id: T, done: seq<T>)
    requires WellFormed(before) && Deleting(before, now, id, done) && |done| < |before[id]|
    requires before[id][|done|] in done
    ensures Deleting(before, now, id, done + [before[id][|done|]])
  {
    assert done + [before[id][|done|]] == before[id][..|done| + 1];
  }

  /** Meeting `id` itself again changes no other list. */
  lemma IgnoreUnlinks<T>(before: map<T, seq<T>>, now: map<T, seq<T>>, id: T, done: seq<T>)
    requires Unlinked(before, now, id, done)
    ensures Unlinked(before, now, id, done + [id])
  {
  }

  /** One turn of the loop: `removeEdge(v, id)` for the next entry `v`, with a
      NoSuchEdge ignored. */
  lemma DeleteStep<T>(before: map<T, seq<T>>, now: map<T, seq<T>>, id: T, done: seq<T>)
    requires WellFormed(before) && Deleting(before, now, id, done) && Unlinked(before, now, id, done)
    requires |done| < |before[id]|
    ensures before[id][|done|] in now
    ensures id in now[before[id][|done|]] ==>
      && Deleting(before, DeleteEdge(now, before[id][|done|], id), id, done + [before[id][|done|]])
      && Unlinked(before, DeleteEdge(now, before[id][|done|], id), id, done + [before[id][|done|]])
    ensures id !in now[before[id][|done|]] ==>
      && Deleting(before, now, id, done + [before[id][|done|]])
      && Unlinked(before, now, id, done + [before[id][|done|]])
  {
    var v := before[id][|done|];
    DeleteNextHasEdge(before, now, id, done);
    if id in now[v] {
      DeleteRemove(before, now, id, done);
      DeleteUnlinks(before, now, id, done, v);
    } else {
      DeleteIgnore(before, now, id, done);
      IgnoreUnlinks(before, now, id, done);
    }
  }

  /** Once every entry is handled, the list of `id` is empty and exactly its old
      neighbours have lost their entry for `id`. */
  lemma DeleteDone<T>(before: map<T, seq<T>>, now: map<T, seq<T>>, id: T)
    requires id in before && Symmetric(now)
    requires Deleting(before, now, id, before[id]) && Unlinked(before, now, id, before[id])
    ensures now[id] == []
    ensures forall k :: k in now ==> id !in now[k]
    ensures forall k :: k in before && k != id ==>
      now[k] == if k in before[id] then RemoveFirst(before[k], id) else before[k]
  {
    forall x
      ensures multiset(now[id])[x] == 0
    {
      assert x !in now[id];
    }
    assert multiset(now[id]) == multiset{};
    assert |now[id]| == |multiset(now[id])|;
  }
}
