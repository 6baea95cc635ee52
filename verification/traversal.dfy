/** `Graph::BFS`, `Graph::DFS` / `DFSHelper` and `Graph::isConnected` of
    NavigateX.cpp (lines 185-195, 320-396). */
module Traversal {
  import opened Common
  import opened Text
  import opened WeightedGraph

  /** No location is listed twice. */
  ghost predicate Distinct(s: seq<nat>)
  {
    forall i, j :: 0 <= i < j < |s| ==> s[i] != s[j]
  }

  /** What both traversals promise: `order` starts at `s`, lists every
      location reachable from `s` and nothing else, each exactly once. */
  ghost predicate Traversal(g: Graph, s: nat, order: seq<nat>)
  {
    && (forall i :: 0 <= i < |order| ==> order[i] < |g.names|)
    && |order| > 0 && order[0] == s && Distinct(order)
    && forall v: nat :: v in order <==> v < |g.adj| && Reachable(g, s, v)
  }

  // ---------------------------------------------------------------------
  // Breadth-first search (lines 320-351, 369-390)
  // ---------------------------------------------------------------------

  /** Invariant of the BFS loop: `seen` is everything ever queued (the
      dequeued `order` followed by the queue `q`), exactly the marked
      locations, all reachable from `s`. */
  ghost predicate BfsInv(g: Graph, s: nat, visited: seq<bool>, order: seq<nat>, q: seq<nat>)
  {
    && WellFormed(g) && |visited| == |g.adj| && s < |g.adj|
    && (forall i :: 0 <= i < |order + q| ==> (order + q)[i] < |g.adj|)
    && Distinct(order + q) && |order + q| > 0 && (order + q)[0] == s
    && (forall v :: 0 <= v < |g.adj| ==> (visited[v] <==> v in order + q))
    && (forall i :: 0 <= i < |order + q| ==> Reachable(g, s, (order + q)[i]))
    && CountTrue(visited) == |order + q|
  }

  /** Every neighbour of the first `m` dequeued locations is marked. */
  ghost predicate Explored(g: Graph, visited: seq<bool>, order: seq<nat>, m: nat)
  {
    && |visited| == |g.adj| && m <= |order|
    && forall i, k :: 0 <= i < m && order[i] < |g.adj| && 0 <= k < |g.adj[order[i]]| ==>
         g.adj[order[i]][k].to < |g.adj| && visited[g.adj[order[i]][k].to]
  }

  /** Marks `v` and queues it (lines 343-346). */
  lemma EnqueueKeeps(g: Graph, s: nat, visited: seq<bool>, order: seq<nat>, q: seq<nat>, u: nat, k: nat)
    requires BfsInv(g, s, visited, order, q) && u in order && u < |g.adj| && k < |g.adj[u]|
    requires !visited[g.adj[u][k].to]
    ensures var v := g.adj[u][k].to;
      BfsInv(g, s, visited[v := true], order, q + [v])
  {
    var v := g.adj[u][k].to;
    var seen := order + q;
    assert order + (q + [v]) == seen + [v];
    assert v !in seen;
    assert Reachable(g, s, u) by {
      var i :| 0 <= i < |order| && order[i] == u;
      assert seen[i] == u;
    }
    ReachableStep(g, s, u, k);
    CountTrueSet(visited, v);
  }

  lemma ExploredGrow(g: Graph, visited: seq<bool>, order: seq<nat>, m: nat, v: nat)
    requires Explored(g, visited, order, m) && v < |visited|
    ensures Explored(g, visited[v := true], order, m)
  {
  }

  lemma ExploredExtend(g: Graph, visited: seq<bool>, order: seq<nat>, m: nat, u: nat)
    requires Explored(g, visited, order, m) && m == |order|
    ensures Explored(g, visited, order + [u], m)
  {
    assert forall i :: 0 <= i < m ==> (order + [u])[i] == order[i];
  }

  /** Lines 341-347: mark and queue every unmarked neighbour of the location
      just dequeued. */
  method EnqueueNeighbours(g: Graph, s: nat, u: nat, visited: seq<bool>, order: seq<nat>, q: seq<nat>)
    returns (visited': seq<bool>, q': seq<nat>)
    requires BfsInv(g, s, visited, order, q) && |order| > 0 && order[|order| - 1] == u && u < |g.adj|
    requires Explored(g, visited, order, |order| - 1)
    ensures BfsInv(g, s, visited', order, q') && Explored(g, visited', order, |order|)
    ensures q <= q'
  {
    visited', q' := visited, q;
    var j := 0;
    while j < |g.adj[u]|
      invariant 0 <= j <= |g.adj[u]|
      invariant BfsInv(g, s, visited', order, q') && Explored(g, visited', order, |order| - 1)
      invariant forall k :: 0 <= k < j ==> g.adj[u][k].to < |g.adj| && visited'[g.adj[u][k].to]
      invariant q <= q'
    {
      var v := g.adj[u][j].to;
      if !visited'[v] {
        EnqueueKeeps(g, s, visited', order, q', u, j);
        ExploredGrow(g, visited', order, |order| - 1, v);
        visited' := visited'[v := true];
        q' := q' + [v];
      }
      j := j + 1;
    }
  }

  /** The BFS loop from `s` on location ids; `visited` is returned as well
      because `isConnected` inspects it. */
  method BfsFrom(g: Graph, s: nat) returns (order: seq<nat>, visited: seq<bool>)
    requires WellFormed(g) && s < |g.adj|
    ensures Traversal(g, s, order)
    ensures |visited| == |g.adj| && forall v :: 0 <= v < |g.adj| ==> (visited[v] <==> Reachable(g, s, v))
  {
    var n := |g.adj|;
    visited := seq(n, v => false);
    CountTrueNone(n);
    CountTrueSet(visited, s);
    visited := visited[s := true];
    var q := [s];
    order := [];
    ReachableSelf(g, s);
    while |q| > 0
      invariant BfsInv(g, s, visited, order, q) && Explored(g, visited, order, |order|)
      decreases n - |order|
    {
      var u := q[0];
      assert (order + q)[|order|] == u;
      assert order + q == (order + [u]) + q[1..];
      ExploredExtend(g, visited, order, |order|, u);
      order := order + [u];
      q := q[1..];
      visited, q := EnqueueNeighbours(g, s, u, visited, order, q);
    }
    BfsComplete(g, s, visited, order);
  }

  /** When the queue runs dry, the marks are closed under neighbours, so
      they hold exactly the reachable locations. */
  lemma BfsComplete(g: Graph, s: nat, visited: seq<bool>, order: seq<nat>)
    requires BfsInv(g, s, visited, order, []) && Explored(g, visited, order, |order|)
    ensures Traversal(g, s, order)
    ensures forall v :: 0 <= v < |g.adj| ==> (visited[v] <==> Reachable(g, s, v))
  {
    assert order + [] == order;
    assert ClosedUnder(g, visited) by {
      forall u, k | 0 <= u < |g.adj| && visited[u] && 0 <= k < |g.adj[u]|
        ensures g.adj[u][k].to < |g.adj| && visited[g.adj[u][k].to]
      {
        var i :| 0 <= i < |order| && order[i] == u;
      }
    }
    forall v | 0 <= v < |g.adj| && Reachable(g, s, v)
      ensures visited[v]
    {
      ClosedContainsReachable(g, s, visited, v);
    }
    forall v | v in order
      ensures v < |g.adj| && Reachable(g, s, v)
    {
      var i :| 0 <= i < |order| && order[i] == v;
    }
  }

  /** `BFS`: the names in breadth-first order from the location named
      `startName` (found up to case); empty for an unknown name. */
  method Bfs(g: Graph, startName: string) returns (result: seq<string>)
    requires WellFormed(g)
    ensures !HasLocation(g, startName) ==> result == []
    ensures HasLocation(g, startName) ==>
              exists order :: Traversal(g, IdOf(g, startName), order) && result == NamesOf(g, order)
  {
    if !HasLocation(g, startName) {
      return [];
    }
    var name := ActualName(g, startName);
    var start := IdOf(g, name);
    var order, _ := BfsFrom(g, start);
    result := NamesOf(g, order);
  }

  /** `isConnected`: every location is reachable from location 0 (trivially
      so for an empty graph). */
  method IsConnected(g: Graph) returns (r: bool)
    requires WellFormed(g)
    ensures r <==> forall v :: 0 <= v < |g.adj| ==> Reachable(g, 0, v)
  {
    if |g.names| == 0 {
      return true;
    }
    var _, visited := BfsFrom(g, 0);
    var i := 0;
    while i < |visited|
      invariant 0 <= i <= |visited|
      invariant forall v :: 0 <= v < i ==> visited[v]
    {
      if !visited[i] {
        return false;
      }
      i := i + 1;
    }
    return true;
  }

  // ---------------------------------------------------------------------
  // Depth-first search (lines 185-195, 353-367)
  // ---------------------------------------------------------------------

  /** Marks and listed locations agree, each listed once. */
  ghost predicate Marked(g: Graph, visited: seq<bool>, order: seq<nat>)
  {
    && |visited| == |g.adj|
    && (forall i :: 0 <= i < |order| ==> order[i] < |g.adj|)
    && Distinct(order)
    && (forall v :: 0 <= v < |g.adj| ==> (visited[v] <==> v in order))
    && CountTrue(visited) == |order|
  }

  /** Every neighbour of `order[from..to]` is marked. */
  ghost predicate ClosedRange(g: Graph, visited: seq<bool>, order: seq<nat>, from: nat, to: nat)
  {
    && |visited| == |g.adj| && from <= to <= |order|
    && forall i, k :: from <= i < to && order[i] < |g.adj| && 0 <= k < |g.adj[order[i]]| ==>
         g.adj[order[i]][k].to < |g.adj| && visited[g.adj[order[i]][k].to]
  }

  /** `DFSHelper(u)`: list `u`, then explore each unmarked neighbour in
      adjacency order. Everything it lists is reachable from `u`, and the
      neighbours of everything it lists end up marked. */
  method DfsVisit(g: Graph, u: nat, visited: seq<bool>, order: seq<nat>) returns (visited': seq<bool>, order': seq<nat>)
    requires WellFormed(g) && Marked(g, visited, order) && u < |g.adj| && !visited[u]
    ensures Marked(g, visited', order')
    ensures |order'| > |order| && order'[..|order|] == order && order'[|order|] == u
    ensures forall v :: 0 <= v < |g.adj| && visited[v] ==> visited'[v]
    ensures forall i :: |order| <= i < |order'| ==> Reachable(g, u, order'[i])
    ensures ClosedRange(g, visited', order', |order|, |order'|)
    decreases |g.adj| - |order|
  {
    CountTrueSet(visited, u);
    visited' := visited[u := true];
    order' := order + [u];
    ReachableSelf(g, u);
    var j := 0;
    while j < |g.adj[u]|
      invariant 0 <= j <= |g.adj[u]|
      invariant Marked(g, visited', order')
      invariant |order'| > |order| && order'[..|order|] == order && order'[|order|] == u
      invariant forall v :: 0 <= v < |g.adj| && visited[v] ==> visited'[v]
      invariant forall i :: |order| <= i < |order'| ==> Reachable(g, u, order'[i])
      invariant ClosedRange(g, visited', order', |order| + 1, |order'|)
      invariant forall k :: 0 <= k < j ==> g.adj[u][k].to < |g.adj| && visited'[g.adj[u][k].to]
    {
      var v := g.adj[u][j].to;
      if !visited'[v] {
        ghost var before := order';
        ghost var marks := visited';
        visited', order' := DfsVisit(g, v, visited', order');
        forall i | |order| <= i < |order'|
          ensures Reachable(g, u, order'[i])
        {
          if i >= |before| {
            ReachableThroughNeighbour(g, u, j, order'[i]);
          } else {
            assert order'[i] == before[i];
          }
        }
        DfsClosedGrow(g, marks, visited', before, order', |order| + 1);
      }
      j := j + 1;
    }
  }

  /** A nested visit keeps the earlier listed locations closed and closes its own. */
  lemma DfsClosedGrow(g: Graph, marks: seq<bool>, visited': seq<bool>, before: seq<nat>, order': seq<nat>, from: nat)
    requires ClosedRange(g, marks, before, from, |before|)
    requires ClosedRange(g, visited', order', |before|, |order'|)
    requires |marks| == |visited'| && forall v :: 0 <= v < |marks| && marks[v] ==> visited'[v]
    requires |before| <= |order'| && order'[..|before|] == before
    ensures ClosedRange(g, visited', order', from, |order'|)
  {
    forall i, k | from <= i < |order'| && order'[i] < |g.adj| && 0 <= k < |g.adj[order'[i]]|
      ensures g.adj[order'[i]][k].to < |g.adj| && visited'[g.adj[order'[i]][k].to]
    {
      if i < |before| {
        assert order'[i] == before[i];
      }
    }
  }

  /** `DFS`: the names in depth-first pre-order from the location named
      `startName` (found up to case); empty for an unknown name. */
  method Dfs(g: Graph, startName: string) returns (result: seq<string>)
    requires WellFormed(g)
    ensures !HasLocation(g, startName) ==> result == []
    ensures HasLocation(g, startName) ==>
              exists order :: Traversal(g, IdOf(g, startName), order) && result == NamesOf(g, order)
  {
    if !HasLocation(g, startName) {
      return [];
    }
    var name := ActualName(g, startName);
    var start := IdOf(g, name);
    var n := |g.adj|;
    CountTrueNone(n);
    var visited, order := DfsVisit(g, start, seq(n, v => false), []);
    DfsComplete(g, start, visited, order);
    result := NamesOf(g, order);
  }

  lemma DfsComplete(g: Graph, s: nat, visited: seq<bool>, order: seq<nat>)
    requires WellFormed(g) && Marked(g, visited, order) && |order| > 0 && order[0] == s
    requires forall i :: 0 <= i < |order| ==> Reachable(g, s, order[i])
    requires ClosedRange(g, visited, order, 0, |order|)
    ensures Traversal(g, s, order)
  {
    assert ClosedUnder(g, visited) by {
      forall u, k | 0 <= u < |g.adj| && visited[u] && 0 <= k < |g.adj[u]|
        ensures g.adj[u][k].to < |g.adj| && visited[g.adj[u][k].to]
      {
        var i :| 0 <= i < |order| && order[i] == u;
      }
    }
    forall v: nat | v < |g.adj| && Reachable(g, s, v)
      ensures v in order
    {
      ClosedContainsReachable(g, s, visited, v);
    }
  }
}
