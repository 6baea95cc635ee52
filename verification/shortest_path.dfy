/** `Graph::shortestPath` of NavigateX.cpp (lines 258-318): Dijkstra's
    algorithm with a lazy-deletion priority queue, followed by the walk back
    along parent pointers. `INF` is `None`; distances are unbounded. */
module ShortestPath {
  import opened Common
  import opened Text
  import opened WeightedGraph

  /** Dijkstra's algorithm is only correct, and the parent walk only ends,
      when no weight is negative; `addEdge` itself does not enforce this. */
  ghost predicate NonNegative(g: Graph)
  {
    forall u, i :: 0 <= u < |g.adj| && 0 <= i < |g.adj[u]| ==> g.adj[u][i].weight >= 0
  }

  // ---------------------------------------------------------------------
  // Lower bounds
  // ---------------------------------------------------------------------

  /** A labelling that is 0 at `s`, finite on every neighbour of a finite
      location, and never drops by more than an edge's weight along an edge. */
  ghost predicate Feasible(g: Graph, s: nat, dist: seq<Option<int>>)
  {
    && |dist| == |g.adj| && s < |dist| && dist[s] == Some(0)
    && forall u, i :: 0 <= u < |g.adj| && dist[u].Some? && 0 <= i < |g.adj[u]| ==>
         g.adj[u][i].to < |dist| && dist[g.adj[u][i].to].Some?
         && dist[g.adj[u][i].to].value <= dist[u].value + g.adj[u][i].weight
  }

  /** A feasible labelling is finite at the end of every walk from `s` and
      bounds the walk's cost from below. */
  lemma {:induction false} FeasibleBoundsWalks(g: Graph, s: nat, dist: seq<Option<int>>, hops: seq<Edge>)
    requires Feasible(g, s, dist) && IsWalk(g, s, hops)
    ensures End(s, hops) < |dist| && dist[End(s, hops)].Some?
    ensures Cost(hops) >= dist[End(s, hops)].value
    decreases |hops|
  {
    if |hops| > 0 {
      var h := hops[..|hops| - 1];
      FeasibleBoundsWalks(g, s, dist, h);
      var u := End(s, h);
      var i :| 0 <= i < |g.adj[u]| && g.adj[u][i] == hops[|hops| - 1];
    }
  }

  // ---------------------------------------------------------------------
  // Priority queue (`greater<pair<int, int>>`: smallest pair on top)
  // ---------------------------------------------------------------------

  /** A queue entry `{distance, id}`. */
  datatype Entry = Entry(d: int, id: nat)

  /** `std::pair` ordering: by distance, then by id. */
  predicate EntryLe(a: Entry, b: Entry)
  {
    a.d < b.d || (a.d == b.d && a.id <= b.id)
  }

  function MinIndex(pq: seq<Entry>): (m: nat)
    requires |pq| > 0
    ensures m < |pq| && forall k :: 0 <= k < |pq| ==> EntryLe(pq[m], pq[k])
  {
    if |pq| == 1 then 0
    else
      var m := MinIndex(pq[1..]);
      assert forall k :: 1 <= k < |pq| ==> pq[k] == pq[1..][k - 1];
      if EntryLe(pq[0], pq[1 + m]) then 0 else 1 + m
  }

  /** `pq.top()` followed by `pq.pop()`. */
  function PopMin(pq: seq<Entry>): (res: (Entry, seq<Entry>))
    requires |pq| > 0
    ensures res.0 in pq && forall x :: x in pq ==> EntryLe(res.0, x)
    ensures multiset(pq) == multiset(res.1) + multiset{res.0}
  {
    var m := MinIndex(pq);
    assert pq == pq[..m] + [pq[m]] + pq[m + 1..];
    (pq[m], pq[..m] + pq[m + 1..])
  }

  // ---------------------------------------------------------------------
  // Loop state and its invariant
  // ---------------------------------------------------------------------

  datatype State = State(dist: seq<Option<int>>, parent: seq<Option<nat>>, visited: seq<bool>, pq: seq<Entry>)

  ghost predicate Shaped(g: Graph, st: State)
  {
    |st.dist| == |g.adj| && |st.parent| == |g.adj| && |st.visited| == |g.adj|
  }

  /** Distances: 0 at the source, never negative, finite once settled, and no
      settled location is farther than an unsettled finite one. */
  ghost predicate DistOk(g: Graph, s: nat, st: State)
  {
    && Shaped(g, st) && s < |g.adj| && st.dist[s] == Some(0)
    && (forall v :: 0 <= v < |g.adj| && st.dist[v].Some? ==> st.dist[v].value >= 0)
    && (forall v :: 0 <= v < |g.adj| && st.visited[v] ==> st.dist[v].Some?)
    && (forall x, y :: 0 <= x < |g.adj| && 0 <= y < |g.adj| && st.visited[x] && !st.visited[y] && st.dist[y].Some? ==>
          st.dist[x].value <= st.dist[y].value)
  }

  /** Every unsettled finite location is queued at its distance; no queue
      entry is below the distance of its location. */
  ghost predicate QueueOk(g: Graph, st: State)
  {
    && Shaped(g, st)
    && (forall y :: 0 <= y < |g.adj| && !st.visited[y] && st.dist[y].Some? ==> Entry(st.dist[y].value, y) in st.pq)
    && (forall k :: 0 <= k < |st.pq| ==>
          st.pq[k].id < |g.adj| && st.dist[st.pq[k].id].Some? && st.dist[st.pq[k].id].value <= st.pq[k].d)
  }

  /** `parent[v] == p` came from relaxing entry `pidx[v]` of settled `p`. */
  ghost predicate ParentEdge(g: Graph, st: State, pidx: seq<nat>, v: nat)
    requires Shaped(g, st) && v < |g.adj| && st.parent[v].Some?
  {
    var p := st.parent[v].value;
    && p < |g.adj| && v < |pidx| && pidx[v] < |g.adj[p]| && g.adj[p][pidx[v]].to == v && st.visited[p]
    && st.dist[p].Some? && st.dist[v].Some? && st.dist[v].value == st.dist[p].value + g.adj[p][pidx[v]].weight
  }

  /** Parent pointers: none at the source, one at every other finite
      location, each along an edge, and settled before their children
      (`rank` is the order of settling, `count` the number settled so far). */
  ghost predicate ParentOk(g: Graph, s: nat, st: State, pidx: seq<nat>, rank: seq<nat>, count: nat)
  {
    && Shaped(g, st) && |pidx| == |g.adj| && |rank| == |g.adj| && s < |g.adj| && st.parent[s].None?
    && (forall v :: 0 <= v < |g.adj| && v != s && st.dist[v].Some? ==> st.parent[v].Some?)
    && (forall v :: 0 <= v < |g.adj| && st.parent[v].Some? ==> ParentEdge(g, st, pidx, v))
    && (forall v :: 0 <= v < |g.adj| && st.visited[v] ==> rank[v] < count)
    && (forall v :: 0 <= v < |g.adj| && st.visited[v] && st.parent[v].Some? ==>
          st.parent[v].value < |g.adj| && rank[st.parent[v].value] < rank[v])
  }

  ghost predicate Core(g: Graph, s: nat, st: State, pidx: seq<nat>, rank: seq<nat>, count: nat)
  {
    && DistOk(g, s, st) && QueueOk(g, st) && ParentOk(g, s, st, pidx, rank, count)
    && count == CountTrue(st.visited)
  }

  /** The first `j` entries of settled `x` satisfy the triangle inequality. */
  ghost predicate RelaxedFrom(g: Graph, dist: seq<Option<int>>, x: nat, j: nat)
  {
    && |dist| == |g.adj| && x < |g.adj| && j <= |g.adj[x]| && dist[x].Some?
    && forall i :: 0 <= i < j ==>
         g.adj[x][i].to < |dist| && dist[g.adj[x][i].to].Some?
         && dist[g.adj[x][i].to].value <= dist[x].value + g.adj[x][i].weight
  }

  ghost predicate RelaxedExcept(g: Graph, st: State, u: nat)
  {
    && Shaped(g, st)
    && forall x :: 0 <= x < |g.adj| && st.visited[x] && x != u ==> RelaxedFrom(g, st.dist, x, |g.adj[x]|)
  }

  ghost predicate Settled(g: Graph, s: nat, st: State, pidx: seq<nat>, rank: seq<nat>, count: nat)
  {
    Core(g, s, st, pidx, rank, count) && RelaxedExcept(g, st, |g.adj|)
  }

  // ---------------------------------------------------------------------
  // The algorithm
  // ---------------------------------------------------------------------

  /** The initial state (lines 269-280). */
  function Start(n: nat, s: nat): (st: State)
    requires s < n
    ensures |st.dist| == n && |st.parent| == n && |st.visited| == n
    ensures forall v :: 0 <= v < n ==> st.dist[v] == (if v == s then Some(0) else None)
    ensures forall v :: 0 <= v < n ==> st.parent[v].None? && !st.visited[v]
    ensures st.pq == [Entry(0, s)]
  {
    State(seq(n, v => if v == s then Some(0) else None), seq(n, v => None), seq(n, v => false), [Entry(0, s)])
  }

  /** `u` is settled and no settled location is farther. */
  ghost predicate Farthest(g: Graph, st: State, u: nat)
  {
    && Shaped(g, st) && u < |g.adj| && st.visited[u] && st.dist[u].Some?
    && forall x :: 0 <= x < |g.adj| && st.visited[x] ==> st.dist[x].Some? && st.dist[x].value <= st.dist[u].value
  }

  /** Distances only ever go down. */
  ghost predicate NoWorse(g: Graph, st: State, st': State)
  {
    && Shaped(g, st) && Shaped(g, st')
    && forall v :: 0 <= v < |g.adj| && st.dist[v].Some? ==> st'.dist[v].Some? && st'.dist[v].value <= st.dist[v].value
  }

  /** Lines 290-299 for a just-settled `u`: relax each entry in turn. */
  method RelaxEdges(g: Graph, s: nat, u: nat, st: State, ghost pidx: seq<nat>, ghost rank: seq<nat>, ghost count: nat)
    returns (st': State, ghost pidx': seq<nat>)
    requires WellFormed(g) && NonNegative(g)
    requires Core(g, s, st, pidx, rank, count) && Farthest(g, st, u) && RelaxedExcept(g, st, u)
    ensures Settled(g, s, st', pidx', rank, count) && st'.visited == st.visited
    ensures NoWorse(g, st, st')
  {
    st', pidx' := st, pidx;
    var du := st.dist[u].value;
    var j := 0;
    RelaxedFromNone(g, st.dist, u);
    while j < |g.adj[u]|
      invariant 0 <= j <= |g.adj[u]|
      invariant Core(g, s, st', pidx', rank, count) && st'.visited == st.visited
      invariant Farthest(g, st', u) && st'.dist[u] == Some(du)
      invariant RelaxedExcept(g, st', u) && RelaxedFrom(g, st'.dist, u, j)
      invariant NoWorse(g, st, st')
    {
      var v, w := g.adj[u][j].to, g.adj[u][j].weight;
      if st'.dist[v].None? || du + w < st'.dist[v].value {
        ghost var mid := st';
        st', pidx' := Improve(g, s, u, j, st', pidx', rank, count);
        NoWorseTrans(g, st, mid, st');
      } else {
        RelaxedFromStep(g, st'.dist, u, j);
      }
      j := j + 1;
    }
    RelaxedAll(g, st', u);
  }

  lemma RelaxedFromNone(g: Graph, dist: seq<Option<int>>, u: nat)
    requires |dist| == |g.adj| && u < |g.adj| && dist[u].Some?
    ensures RelaxedFrom(g, dist, u, 0)
  {
  }

  lemma RelaxedFromStep(g: Graph, dist: seq<Option<int>>, u: nat, j: nat)
    requires RelaxedFrom(g, dist, u, j) && j < |g.adj[u]|
    requires g.adj[u][j].to < |dist| && dist[g.adj[u][j].to].Some?
    requires dist[g.adj[u][j].to].value <= dist[u].value + g.adj[u][j].weight
    ensures RelaxedFrom(g, dist, u, j + 1)
  {
  }

  lemma RelaxedAll(g: Graph, st: State, u: nat)
    requires RelaxedExcept(g, st, u) && u < |g.adj| && RelaxedFrom(g, st.dist, u, |g.adj[u]|)
    ensures RelaxedExcept(g, st, |g.adj|)
  {
  }

  lemma NoWorseTrans(g: Graph, a: State, b: State, c: State)
    requires NoWorse(g, a, b) && NoWorse(g, b, c)
    ensures NoWorse(g, a, c)
  {
  }

  /** The state after lines 295-297 for entry `j` of `u`. */
  function Improved(g: Graph, st: State, pidx: seq<nat>, u: nat, j: nat): (res: (State, seq<nat>))
    requires Shaped(g, st) && WellFormed(g) && u < |g.adj| && j < |g.adj[u]| && st.dist[u].Some?
    requires |pidx| == |g.adj|
  {
    var v := g.adj[u][j].to;
    var nd := st.dist[u].value + g.adj[u][j].weight;
    (State(st.dist[v := Some(nd)], st.parent[v := Some(u)], st.visited, st.pq + [Entry(nd, v)]), pidx[v := j])
  }

  /** Lines 295-297: a shorter way to `v` through `u` was found. */
  method Improve(g: Graph, s: nat, u: nat, j: nat, st: State, ghost pidx: seq<nat>, ghost rank: seq<nat>, ghost count: nat)
    returns (st': State, ghost pidx': seq<nat>)
    requires WellFormed(g) && NonNegative(g)
    requires Core(g, s, st, pidx, rank, count) && Farthest(g, st, u) && j < |g.adj[u]|
    requires Improves(g, st, u, j)
    requires RelaxedExcept(g, st, u) && RelaxedFrom(g, st.dist, u, j)
    ensures Core(g, s, st', pidx', rank, count) && st'.visited == st.visited
    ensures Farthest(g, st', u) && st'.dist[u] == st.dist[u]
    ensures RelaxedExcept(g, st', u) && RelaxedFrom(g, st'.dist, u, j + 1)
    ensures NoWorse(g, st, st')
  {
    var v := g.adj[u][j].to;
    var nd := st.dist[u].value + g.adj[u][j].weight;
    ImprovedTarget(g, s, st, u, j);
    st' := State(st.dist[v := Some(nd)], st.parent[v := Some(u)], st.visited, st.pq + [Entry(nd, v)]);
    pidx' := pidx[v := j];
    assert (st', pidx') == Improved(g, st, pidx, u, j);
    ImprovedDist(g, s, st, pidx, u, j);
    ImprovedQueue(g, st, pidx, u, j);
    ImprovedParent(g, s, st, pidx, rank, count, u, j);
    ImprovedRelaxed(g, st, pidx, u, j);
  }

  /** The improved location is neither settled nor the source. */
  lemma ImprovedTarget(g: Graph, s: nat, st: State, u: nat, j: nat)
    requires WellFormed(g) && NonNegative(g)
    requires DistOk(g, s, st) && Farthest(g, st, u) && Improves(g, st, u, j)
    ensures var v := g.adj[u][j].to; v < |g.adj| && !st.visited[v] && v != s && v != u
  {
  }

  /** Entry `j` of `u` improves the distance of its target. */
  ghost predicate Improves(g: Graph, st: State, u: nat, j: nat)
  {
    && Shaped(g, st) && WellFormed(g) && u < |g.adj| && j < |g.adj[u]| && st.dist[u].Some?
    && var v := g.adj[u][j].to;
       st.dist[v].None? || st.dist[u].value + g.adj[u][j].weight < st.dist[v].value
  }

  lemma ImprovedDist(g: Graph, s: nat, st: State, pidx: seq<nat>, u: nat, j: nat)
    requires WellFormed(g) && NonNegative(g) && |pidx| == |g.adj|
    requires DistOk(g, s, st) && Farthest(g, st, u) && Improves(g, st, u, j)
    requires var v := g.adj[u][j].to; !st.visited[v] && v != s && v != u
    ensures var st' := Improved(g, st, pidx, u, j).0;
      DistOk(g, s, st') && Farthest(g, st', u) && st'.dist[u] == st.dist[u] && NoWorse(g, st, st')
  {
  }

  lemma ImprovedQueue(g: Graph, st: State, pidx: seq<nat>, u: nat, j: nat)
    requires WellFormed(g) && QueueOk(g, st) && Improves(g, st, u, j) && |pidx| == |g.adj|
    ensures QueueOk(g, Improved(g, st, pidx, u, j).0)
  {
  }

  lemma ImprovedParent(g: Graph, s: nat, st: State, pidx: seq<nat>, rank: seq<nat>, count: nat, u: nat, j: nat)
    requires WellFormed(g) && ParentOk(g, s, st, pidx, rank, count) && Farthest(g, st, u) && Improves(g, st, u, j)
    requires var v := g.adj[u][j].to; !st.visited[v] && v != s && v != u
    ensures var (st', pidx') := Improved(g, st, pidx, u, j);
      ParentOk(g, s, st', pidx', rank, count)
  {
    var (st', pidx') := Improved(g, st, pidx, u, j);
    var v := g.adj[u][j].to;
    forall x | 0 <= x < |g.adj| && st'.parent[x].Some?
      ensures ParentEdge(g, st', pidx', x)
    {
      if x != v {
        assert ParentEdge(g, st, pidx, x);
        var p := st.parent[x].value;
        assert st'.parent[x] == st.parent[x] && pidx'[x] == pidx[x];
        assert st'.dist[p] == st.dist[p] && st'.dist[x] == st.dist[x];
      }
    }
    forall x | 0 <= x < |g.adj| && st'.visited[x] && st'.parent[x].Some?
      ensures st'.parent[x].value < |g.adj| && rank[st'.parent[x].value] < rank[x]
    {
      assert st'.parent[x] == st.parent[x];
    }
  }

  lemma ImprovedRelaxed(g: Graph, st: State, pidx: seq<nat>, u: nat, j: nat)
    requires WellFormed(g) && RelaxedExcept(g, st, u) && RelaxedFrom(g, st.dist, u, j) && Improves(g, st, u, j)
    requires |pidx| == |g.adj|
    requires var v := g.adj[u][j].to; !st.visited[v] && v != u
    ensures var st' := Improved(g, st, pidx, u, j).0;
      RelaxedExcept(g, st', u) && RelaxedFrom(g, st'.dist, u, j + 1)
  {
    var st' := Improved(g, st, pidx, u, j).0;
    var v := g.adj[u][j].to;
    forall x | 0 <= x < |g.adj| && st'.visited[x] && x != u
      ensures RelaxedFrom(g, st'.dist, x, |g.adj[x]|)
    {
      assert RelaxedFrom(g, st.dist, x, |g.adj[x]|);
      assert st'.dist[x] == st.dist[x];
    }
    assert st'.dist[u] == st.dist[u];
  }

  // ---------------------------------------------------------------------
  // The main loop (lines 282-300)
  // ---------------------------------------------------------------------

  lemma StartSettled(g: Graph, s: nat)
    requires WellFormed(g) && s < |g.adj|
    ensures Settled(g, s, Start(|g.adj|, s), seq(|g.adj|, v => 0), seq(|g.adj|, v => 0), 0)
  {
    var st := Start(|g.adj|, s);
    CountTrueNone(|g.adj|);
    assert st.visited == seq(|g.adj|, v => false);
  }

  /** The popped entry names a finite location. */
  lemma PoppedFinite(g: Graph, st: State, top: Entry)
    requires QueueOk(g, st) && top in st.pq
    ensures top.id < |g.adj| && st.dist[top.id].Some? && st.dist[top.id].value <= top.d
  {
  }

  /** Line 287: an entry for an already settled location is dropped. */
  lemma SkipKeeps(g: Graph, s: nat, st: State, pidx: seq<nat>, rank: seq<nat>, count: nat, top: Entry, rest: seq<Entry>)
    requires Settled(g, s, st, pidx, rank, count)
    requires multiset(st.pq) == multiset(rest) + multiset{top}
    requires top.id < |g.adj| && st.visited[top.id]
    ensures Settled(g, s, st.(pq := rest), pidx, rank, count)
  {
    SkipQueue(g, st, top, rest);
    assert ParentOk(g, s, st.(pq := rest), pidx, rank, count) by {
      forall v | 0 <= v < |g.adj| && st.parent[v].Some?
        ensures ParentEdge(g, st.(pq := rest), pidx, v)
      {
        assert ParentEdge(g, st, pidx, v);
      }
    }
  }

  lemma SkipQueue(g: Graph, st: State, top: Entry, rest: seq<Entry>)
    requires QueueOk(g, st)
    requires multiset(st.pq) == multiset(rest) + multiset{top}
    requires top.id < |g.adj| && st.visited[top.id]
    ensures QueueOk(g, st.(pq := rest))
  {
    var st' := st.(pq := rest);
    forall y | 0 <= y < |g.adj| && !st'.visited[y] && st'.dist[y].Some?
      ensures Entry(st'.dist[y].value, y) in st'.pq
    {
      assert Entry(st.dist[y].value, y) in multiset(rest) + multiset{top};
    }
    forall k | 0 <= k < |rest|
      ensures rest[k] in st.pq
    {
      assert rest[k] in multiset(rest);
      assert rest[k] in multiset(st.pq);
    }
  }

  /** Line 288: the state once the popped location is settled. */
  function SettleAt(st: State, top: Entry, rest: seq<Entry>): State
    requires top.id < |st.visited|
  {
    st.(visited := st.visited[top.id := true], pq := rest)
  }

  lemma SettledDist(g: Graph, s: nat, st: State, top: Entry, rest: seq<Entry>)
    requires DistOk(g, s, st) && QueueOk(g, st)
    requires top in st.pq && (forall x :: x in st.pq ==> EntryLe(top, x))
    requires multiset(st.pq) == multiset(rest) + multiset{top}
    requires top.id < |g.adj| && !st.visited[top.id] && st.dist[top.id].Some? && st.dist[top.id].value <= top.d
    ensures DistOk(g, s, SettleAt(st, top, rest)) && Farthest(g, SettleAt(st, top, rest), top.id)
  {
    var u := top.id;
    var st' := SettleAt(st, top, rest);
    forall x, y | 0 <= x < |g.adj| && 0 <= y < |g.adj| && st'.visited[x] && !st'.visited[y] && st'.dist[y].Some?
      ensures st'.dist[x].value <= st'.dist[y].value
    {
      if x == u {
        assert Entry(st.dist[y].value, y) in st.pq;
      }
    }
  }

  lemma SettledQueue(g: Graph, st: State, top: Entry, rest: seq<Entry>)
    requires QueueOk(g, st)
    requires multiset(st.pq) == multiset(rest) + multiset{top}
    requires top.id < |g.adj|
    ensures QueueOk(g, SettleAt(st, top, rest))
  {
    var st' := SettleAt(st, top, rest);
    forall y | 0 <= y < |g.adj| && !st'.visited[y] && st'.dist[y].Some?
      ensures Entry(st'.dist[y].value, y) in st'.pq
    {
      assert Entry(st.dist[y].value, y) in multiset(rest) + multiset{top};
    }
    forall k | 0 <= k < |rest|
      ensures rest[k] in st.pq
    {
      assert rest[k] in multiset(rest);
      assert rest[k] in multiset(st.pq);
    }
  }

  lemma SettledParent(g: Graph, s: nat, st: State, pidx: seq<nat>, rank: seq<nat>, count: nat, top: Entry, rest: seq<Entry>)
    requires ParentOk(g, s, st, pidx, rank, count)
    requires top.id < |g.adj| && !st.visited[top.id]
    ensures ParentOk(g, s, SettleAt(st, top, rest), pidx, rank[top.id := count], count + 1)
  {
    var u := top.id;
    var st' := SettleAt(st, top, rest);
    forall v | 0 <= v < |g.adj| && st'.parent[v].Some?
      ensures ParentEdge(g, st', pidx, v)
    {
      assert ParentEdge(g, st, pidx, v);
    }
    if st.parent[u].Some? {
      assert ParentEdge(g, st, pidx, u);
    }
  }

  lemma SettledRelaxed(g: Graph, st: State, top: Entry, rest: seq<Entry>)
    requires RelaxedExcept(g, st, |g.adj|) && top.id < |g.adj|
    ensures RelaxedExcept(g, SettleAt(st, top, rest), top.id)
  {
    var st' := SettleAt(st, top, rest);
    forall x | 0 <= x < |g.adj| && st'.visited[x] && x != top.id
      ensures RelaxedFrom(g, st'.dist, x, |g.adj[x]|)
    {
      assert RelaxedFrom(g, st.dist, x, |g.adj[x]|);
    }
  }

  /** Lines 269-300: every location reachable from `s` is settled at its
      final distance. */
  method Settle(g: Graph, s: nat) returns (st: State, ghost pidx: seq<nat>, ghost rank: seq<nat>)
    requires WellFormed(g) && NonNegative(g) && s < |g.adj|
    ensures Settled(g, s, st, pidx, rank, CountTrue(st.visited))
    ensures forall v :: 0 <= v < |g.adj| && st.dist[v].Some? ==> st.visited[v]
  {
    var n := |g.adj|;
    st := Start(n, s);
    pidx := seq(n, v => 0);
    rank := seq(n, v => 0);
    ghost var count := 0;
    StartSettled(g, s);
    while |st.pq| > 0
      invariant Settled(g, s, st, pidx, rank, count)
      decreases n - count, |st.pq|
    {
      var (top, rest) := PopMin(st.pq);
      var u := top.id;
      PoppedFinite(g, st, top);
      if st.visited[u] {
        SkipKeeps(g, s, st, pidx, rank, count, top, rest);
        st := st.(pq := rest);
      } else {
        CountTrueSet(st.visited, u);
        SettledDist(g, s, st, top, rest);
        SettledQueue(g, st, top, rest);
        SettledParent(g, s, st, pidx, rank, count, top, rest);
        SettledRelaxed(g, st, top, rest);
        st := SettleAt(st, top, rest);
        rank := rank[u := count];
        count := count + 1;
        st, pidx := RelaxEdges(g, s, u, st, pidx, rank, count);
      }
    }
  }

  // ---------------------------------------------------------------------
  // Walking back along parents (lines 302-317)
  // ---------------------------------------------------------------------

  /** Once the queue is empty, the distances are feasible. */
  lemma SettledFeasible(g: Graph, s: nat, st: State, pidx: seq<nat>, rank: seq<nat>, count: nat)
    requires Settled(g, s, st, pidx, rank, count)
    requires forall v :: 0 <= v < |g.adj| && st.dist[v].Some? ==> st.visited[v]
    ensures Feasible(g, s, st.dist)
  {
    forall u, i | 0 <= u < |g.adj| && st.dist[u].Some? && 0 <= i < |g.adj[u]|
      ensures g.adj[u][i].to < |st.dist| && st.dist[g.adj[u][i].to].Some?
      ensures st.dist[g.adj[u][i].to].value <= st.dist[u].value + g.adj[u][i].weight
    {
      assert RelaxedFrom(g, st.dist, u, |g.adj[u]|);
    }
  }

  /** Lines 306-314: follow the parents from `t` back to the source. The
      C++ code collects the names from `t` backwards and reverses them; here
      each location is put in front directly. */
  method WalkBack(g: Graph, s: nat, t: nat, st: State, ghost pidx: seq<nat>, ghost rank: seq<nat>, ghost count: nat)
    returns (ids: seq<nat>, ghost hops: seq<Edge>)
    requires WellFormed(g) && Settled(g, s, st, pidx, rank, count) && t < |g.adj| && st.visited[t]
    ensures IsWalk(g, s, hops) && End(s, hops) == t && Cost(hops) == st.dist[t].value && ids == Visits(s, hops)
    ensures |ids| > 0 && ids[0] == s && ids[|ids| - 1] == t
  {
    var cur: nat := t;
    ids := [t];
    hops := [];
    while st.parent[cur].Some?
      invariant Shaped(g, st) && cur < |g.adj| && st.visited[cur] && st.dist[cur].Some?
      invariant IsWalk(g, cur, hops) && End(cur, hops) == t
      invariant Cost(hops) == st.dist[t].value - st.dist[cur].value
      invariant ids == Visits(cur, hops)
      decreases rank[cur]
    {
      var p := st.parent[cur].value;
      assert ParentEdge(g, st, pidx, cur);
      ghost var e := g.adj[p][pidx[cur]];
      PrependHop(g, p, e, cur, hops);
      hops := [e] + hops;
      ids := [p] + ids;
      cur := p;
    }
  }

  /** `hops` is a cheapest walk from `s` to `t`. */
  ghost predicate Cheapest(g: Graph, s: nat, t: nat, hops: seq<Edge>)
  {
    && IsWalk(g, s, hops) && End(s, hops) == t
    && forall other :: IsWalk(g, s, other) && End(s, other) == t ==> Cost(hops) <= Cost(other)
  }

  /** Dijkstra's algorithm from `s` to `t` on location ids: the locations of
      a cheapest walk and its cost, or `None` when `t` cannot be reached. */
  method ShortestRoute(g: Graph, s: nat, t: nat) returns (r: Option<(seq<nat>, int)>)
    requires WellFormed(g) && NonNegative(g) && s < |g.adj| && t < |g.adj|
    ensures r.Some? <==> Reachable(g, s, t)
    ensures r.Some? ==> exists hops :: Cheapest(g, s, t, hops) && Cost(hops) == r.value.1 && r.value.0 == Visits(s, hops)
  {
    var st, pidx, rank := Settle(g, s);
    SettledFeasible(g, s, st, pidx, rank, CountTrue(st.visited));
    if st.dist[t].None? {
      if Reachable(g, s, t) {
        var hops :| IsWalk(g, s, hops) && End(s, hops) == t;
        FeasibleBoundsWalks(g, s, st.dist, hops);
      }
      return None;
    }
    var ids, hops := WalkBack(g, s, t, st, pidx, rank, CountTrue(st.visited));
    forall other | IsWalk(g, s, other) && End(s, other) == t
      ensures Cost(hops) <= Cost(other)
    {
      FeasibleBoundsWalks(g, s, st.dist, other);
    }
    assert Cheapest(g, s, t, hops);
    r := Some((ids, st.dist[t].value));
  }

  /** `path` names the locations `hops` passes through from `s`. */
  ghost predicate NamesAlong(g: Graph, s: nat, hops: seq<Edge>, path: seq<string>)
  {
    var p := Visits(s, hops);
    (forall i :: 0 <= i < |p| ==> p[i] < |g.names|) && path == NamesOf(g, p)
  }

  lemma VisitsInGraph(g: Graph, s: nat, hops: seq<Edge>)
    requires WellFormed(g) && IsWalk(g, s, hops)
    ensures forall i :: 0 <= i < |Visits(s, hops)| ==> Visits(s, hops)[i] < |g.names|
  {
    WalkStartsInGraph(g, s, hops);
    forall i | 0 <= i < |hops|
      ensures hops[i].to < |g.names|
    {
      WalkPrefix(g, s, hops, i + 1);
      WalkEndsInGraph(g, s, hops[..i + 1]);
    }
  }

  lemma {:induction false} WalkPrefix(g: Graph, s: nat, hops: seq<Edge>, i: nat)
    requires IsWalk(g, s, hops) && i <= |hops|
    ensures IsWalk(g, s, hops[..i])
    decreases |hops|
  {
    if i < |hops| {
      var h := hops[..|hops| - 1];
      assert h[..i] == hops[..i];
      WalkPrefix(g, s, h, i);
    } else {
      assert hops[..i] == hops;
    }
  }

  /** `shortestPath`: the names along a cheapest walk between two locations
      (found up to case) and its cost; `false`, an empty path and `INF` when a
      name is unknown or the destination cannot be reached. */
  method ShortestPathByName(g: Graph, srcName: string, destName: string) returns (found: bool, path: seq<string>, dist: Option<int>)
    requires WellFormed(g) && NonNegative(g)
    ensures found <==> HasLocation(g, srcName) && HasLocation(g, destName) && Reachable(g, IdOf(g, srcName), IdOf(g, destName))
    ensures found <==> dist.Some?
    ensures !found ==> path == []
    ensures found ==> exists hops :: Cheapest(g, IdOf(g, srcName), IdOf(g, destName), hops)
                                    && Cost(hops) == dist.value && NamesAlong(g, IdOf(g, srcName), hops, path)
  {
    var src := ActualName(g, srcName);
    var dest := ActualName(g, destName);
    if !HasLocation(g, src) || !HasLocation(g, dest) {
      return false, [], None;
    }
    var s, t := IdOf(g, src), IdOf(g, dest);
    var r := ShortestRoute(g, s, t);
    if r.None? {
      return false, [], None;
    }
    ghost var hops :| Cheapest(g, s, t, hops) && Cost(hops) == r.value.1 && r.value.0 == Visits(s, hops);
    VisitsInGraph(g, s, hops);
    found, path, dist := true, NamesOf(g, r.value.0), Some(r.value.1);
  }
}
