/** The undirected weighted graph of NavigateX.cpp (`Graph`, lines 179-406):
    named locations with sequential ids and symmetric adjacency lists.

    `nodeToName` is `names`, `adj` is `adj`. The C++ class also keeps the map
    `nameToNode` from each stored name to its id; it always maps `names[i]`
    to `i`, so it is represented here by `names` itself. */
module WeightedGraph {
  import opened Common
  import opened Text

  /** One adjacency entry `{neighbour id, weight}`. */
  datatype Edge = Edge(to: nat, weight: int)

  datatype Graph = Graph(names: seq<string>, adj: seq<seq<Edge>>)

  /** The graph a default-constructed `Graph` holds. */
  const Empty: Graph := Graph([], [])

  // ---------------------------------------------------------------------
  // Invariants
  // ---------------------------------------------------------------------

  /** One adjacency list per location, every neighbour a location id. */
  ghost predicate WellFormed(g: Graph)
  {
    && |g.adj| == |g.names|
    && forall u, i :: 0 <= u < |g.adj| && 0 <= i < |g.adj[u]| ==> g.adj[u][i].to < |g.names|
  }

  /** No two locations have names that are equal up to case. */
  ghost predicate DistinctNames(names: seq<string>)
  {
    forall i, j :: 0 <= i < j < |names| ==> Lower(names[i]) != Lower(names[j])
  }

  /** No self-loops and at most one entry per neighbour. */
  ghost predicate Simple(g: Graph)
  {
    forall u, i, j :: 0 <= u < |g.adj| && 0 <= i < |g.adj[u]| && 0 <= j < |g.adj[u]| ==>
      g.adj[u][i].to != u && (i != j ==> g.adj[u][i].to != g.adj[u][j].to)
  }

  /** Every edge is recorded at both ends with the same weight. */
  ghost predicate Symmetric(g: Graph)
  {
    forall u, v :: 0 <= u < |g.adj| && 0 <= v < |g.adj| ==> WeightTo(g.adj[u], v) == WeightTo(g.adj[v], u)
  }

  /** The invariant `addLocation` and `addEdge` keep when every edge joins two
      different locations. Weights are unconstrained, as in `addEdge`. */
  ghost predicate Valid(g: Graph)
  {
    && WellFormed(g) && DistinctNames(g.names) && Simple(g) && Symmetric(g)
    && TotalEntries(g.adj) % 2 == 0
  }

  lemma EmptyValid()
    ensures Valid(Empty)
  {
  }

  // ---------------------------------------------------------------------
  // Adjacency lists
  // ---------------------------------------------------------------------

  /** Position of the first entry for neighbour `x`. */
  function IndexOf(es: seq<Edge>, x: nat): (r: Option<nat>)
    ensures r.Some? ==> r.value < |es| && es[r.value].to == x && forall j :: 0 <= j < r.value ==> es[j].to != x
    ensures r.None? ==> forall j :: 0 <= j < |es| ==> es[j].to != x
  {
    IndexFrom(es, x, 0)
  }

  function IndexFrom(es: seq<Edge>, x: nat, i: nat): (r: Option<nat>)
    requires i <= |es|
    requires forall j :: 0 <= j < i ==> es[j].to != x
    ensures r.Some? ==> i <= r.value < |es| && es[r.value].to == x && forall j :: 0 <= j < r.value ==> es[j].to != x
    ensures r.None? ==> forall j :: 0 <= j < |es| ==> es[j].to != x
    decreases |es| - i
  {
    if i == |es| then None
    else if es[i].to == x then Some(i)
    else IndexFrom(es, x, i + 1)
  }

  /** The first entry for `x` is at `i`. */
  lemma IndexOfIs(es: seq<Edge>, x: nat, i: nat)
    requires i < |es| && es[i].to == x && forall j :: 0 <= j < i ==> es[j].to != x
    ensures IndexOf(es, x) == Some(i)
  {
  }

  /** The weight of the first entry for neighbour `x`, if any. */
  function WeightTo(es: seq<Edge>, x: nat): Option<int>
  {
    match IndexOf(es, x)
    case Some(i) => Some(es[i].weight)
    case None => None
  }

  /** Two lists with the same neighbours at the same positions find every
      neighbour at the same position. */
  lemma SameTargetsSameIndex(es: seq<Edge>, fs: seq<Edge>, x: nat)
    requires |es| == |fs| && forall j :: 0 <= j < |es| ==> es[j].to == fs[j].to
    ensures IndexOf(es, x) == IndexOf(fs, x)
  {
    if IndexOf(es, x).Some? {
      IndexOfIs(fs, x, IndexOf(es, x).value);
    }
  }

  /** Lines 221-229: the weight of the first entry for `x` becomes `w`. */
  function SetWeight(es: seq<Edge>, x: nat, w: int): (r: seq<Edge>)
    ensures |r| == |es| && forall j :: 0 <= j < |es| ==> r[j].to == es[j].to
    ensures WeightTo(r, x) == if WeightTo(es, x).Some? then Some(w) else None
    ensures forall y :: y != x ==> WeightTo(r, y) == WeightTo(es, y)
    ensures forall j :: 0 <= j < |es| ==> r[j].weight == es[j].weight || r[j].weight == w
  {
    match IndexOf(es, x)
    case None => es
    case Some(i) =>
      var r := es[i := Edge(x, w)];
      SetWeightFacts(es, r, x);
      r
  }

  lemma SetWeightFacts(es: seq<Edge>, r: seq<Edge>, x: nat)
    requires |r| == |es| && forall j :: 0 <= j < |es| ==> r[j].to == es[j].to
    ensures forall y :: IndexOf(r, y) == IndexOf(es, y)
  {
    forall y
      ensures IndexOf(r, y) == IndexOf(es, y)
    {
      SameTargetsSameIndex(es, r, y);
    }
  }

  /** Appending an entry for a neighbour the list does not have yet. */
  lemma AppendWeight(es: seq<Edge>, e: Edge)
    requires IndexOf(es, e.to).None?
    ensures WeightTo(es + [e], e.to) == Some(e.weight)
    ensures forall y :: y != e.to ==> WeightTo(es + [e], y) == WeightTo(es, y)
  {
    IndexOfIs(es + [e], e.to, |es|);
    forall y | y != e.to
      ensures WeightTo(es + [e], y) == WeightTo(es, y)
    {
      if IndexOf(es, y).Some? {
        IndexOfIs(es + [e], y, IndexOf(es, y).value);
      } else {
        assert IndexOf(es + [e], y).None?;
      }
    }
  }

  /** The number of adjacency entries over all locations. */
  function TotalEntries(adj: seq<seq<Edge>>): nat
  {
    if |adj| == 0 then 0 else TotalEntries(adj[..|adj| - 1]) + |adj[|adj| - 1]|
  }

  lemma {:induction false} TotalEntriesUpdate(adj: seq<seq<Edge>>, u: nat, x: seq<Edge>)
    requires u < |adj|
    ensures TotalEntries(adj[u := x]) == TotalEntries(adj) - |adj[u]| + |x|
    decreases |adj|
  {
    var n := |adj|;
    if u < n - 1 {
      assert adj[u := x][..n - 1] == adj[..n - 1][u := x];
      TotalEntriesUpdate(adj[..n - 1], u, x);
    } else {
      assert adj[u := x][..n - 1] == adj[..n - 1];
    }
  }

  lemma TotalEntriesAppend(adj: seq<seq<Edge>>, x: seq<Edge>)
    ensures TotalEntries(adj + [x]) == TotalEntries(adj) + |x|
  {
    assert (adj + [x])[..|adj|] == adj;
  }

  // ---------------------------------------------------------------------
  // Locations (lines 200-256)
  // ---------------------------------------------------------------------

  /** The linear scan over `nameToNode`: the id whose stored name equals
      `name` up to case. */
  function Find(names: seq<string>, name: string): (r: Option<nat>)
    ensures r.Some? ==> r.value < |names| && Lower(names[r.value]) == Lower(name)
    ensures r.Some? ==> forall i :: 0 <= i < r.value ==> Lower(names[i]) != Lower(name)
    ensures r.None? ==> forall i :: 0 <= i < |names| ==> Lower(names[i]) != Lower(name)
  {
    FindFrom(names, Lower(name), 0)
  }

  function FindFrom(names: seq<string>, key: string, i: nat): (r: Option<nat>)
    requires i <= |names|
    ensures r.Some? ==> i <= r.value < |names| && Lower(names[r.value]) == key
    ensures r.Some? ==> forall j :: i <= j < r.value ==> Lower(names[j]) != key
    ensures r.None? ==> forall j :: i <= j < |names| ==> Lower(names[j]) != key
    decreases |names| - i
  {
    if i == |names| then None
    else if Lower(names[i]) == key then Some(i)
    else FindFrom(names, key, i + 1)
  }

  /** A location whose name matches is found. */
  lemma FoundAt(names: seq<string>, name: string, i: nat)
    requires i < |names| && Lower(names[i]) == Lower(name)
    ensures Find(names, name).Some? && Find(names, name).value <= i
  {
  }

  /** The C++ scan visits `nameToNode` in an unspecified order; with distinct
      names at most one entry matches, so the order does not matter. */
  lemma FindUnique(names: seq<string>, name: string, i: nat)
    requires DistinctNames(names) && i < |names| && Lower(names[i]) == Lower(name)
    ensures Find(names, name) == Some(i)
  {
    FoundAt(names, name, i);
  }

  /** `hasLocation`. */
  function HasLocation(g: Graph, name: string): bool
  {
    Find(g.names, name).Some?
  }

  /** `getActualLocationName`: the stored spelling, or `name` itself when no
      location matches. */
  function ActualName(g: Graph, name: string): (r: string)
    ensures Lower(r) == Lower(name)
    ensures HasLocation(g, name) ==> r in g.names
    ensures !HasLocation(g, name) ==> r == name
  {
    match Find(g.names, name)
    case Some(i) => g.names[i]
    case None => name
  }

  /** `addLocation`: the id of the location whose name equals `name` up to
      case, or a new location with the next sequential id. */
  function AddLocation(g: Graph, name: string): (res: (Graph, nat))
    ensures res.1 < |res.0.names| && Lower(res.0.names[res.1]) == Lower(name)
    ensures HasLocation(g, name) ==> res.0 == g
    ensures !HasLocation(g, name) ==>
              && res.1 == |g.names|
              && res.0.names == g.names + [name]
              && res.0.adj == g.adj + [[]]
    ensures WellFormed(g) ==> WellFormed(res.0)
    ensures DistinctNames(g.names) ==> DistinctNames(res.0.names)
  {
    match Find(g.names, name)
    case Some(i) => (g, i)
    case None => (Graph(g.names + [name], g.adj + [[]]), |g.names|)
  }


  /** The id `nameToNode` gives the stored spelling of `name`. */
  function IdOf(g: Graph, name: string): (id: nat)
    requires HasLocation(g, name)
    ensures id < |g.names| && Lower(g.names[id]) == Lower(name)
  {
    Find(g.names, name).value
  }

  /** Looking a location up again under any spelling that agrees up to case
      gives back the same id and leaves the graph alone. */
  lemma AddLocationCaseInsensitive(g: Graph, a: string, b: string)
    requires Lower(a) == Lower(b)
    ensures AddLocation(AddLocation(g, a).0, b) == AddLocation(g, a)
  {
    if !HasLocation(g, a) {
      var g1 := AddLocation(g, a).0;
      FoundAt(g1.names, b, |g.names|);
      assert forall j :: 0 <= j < |g.names| ==> g1.names[j] == g.names[j];
    }
  }

  /** Adding a location keeps the invariant; the new location is isolated. */
  lemma AddLocationValid(g: Graph, name: string)
    requires Valid(g)
    ensures Valid(AddLocation(g, name).0)
  {
    if !HasLocation(g, name) {
      var g' := AddLocation(g, name).0;
      IsolatedSimple(g, g');
      IsolatedSymmetric(g, g');
      TotalEntriesAppend(g.adj, []);
    }
  }

  lemma IsolatedSimple(g: Graph, g': Graph)
    requires Simple(g) && g'.adj == g.adj + [[]]
    ensures Simple(g')
  {
    assert forall u :: 0 <= u < |g.adj| ==> g'.adj[u] == g.adj[u];
  }

  lemma IsolatedSymmetric(g: Graph, g': Graph)
    requires WellFormed(g) && Symmetric(g) && g'.adj == g.adj + [[]]
    ensures Symmetric(g')
  {
    var n := |g.adj|;
    forall u, v | 0 <= u < n + 1 && 0 <= v < n + 1
      ensures WeightTo(g'.adj[u], v) == WeightTo(g'.adj[v], u)
    {
      if u < n && v < n {
        assert g'.adj[u] == g.adj[u] && g'.adj[v] == g.adj[v];
      } else if u < n {
        assert g'.adj[u] == g.adj[u];
        assert WeightTo(g.adj[u], n).None?;
      } else if v < n {
        assert g'.adj[v] == g.adj[v];
        assert WeightTo(g.adj[v], n).None?;
      }
    }
  }

  // ---------------------------------------------------------------------
  // Edges (lines 217-236, 398-405)
  // ---------------------------------------------------------------------

  /** Lines 221-235 once both ids are known: overwrite the weight in both
      lists when `u` already lists `v`, otherwise append to both lists. */
  function Link(g: Graph, u: nat, v: nat, w: int): (g': Graph)
    requires WellFormed(g) && u < |g.adj| && v < |g.adj|
    ensures WellFormed(g') && g'.names == g.names
  {
    if IndexOf(g.adj[u], v).Some? then
      var adj1 := g.adj[u := SetWeight(g.adj[u], v, w)];
      g.(adj := adj1[v := SetWeight(adj1[v], u, w)])
    else
      var adj1 := g.adj[u := g.adj[u] + [Edge(v, w)]];
      g.(adj := adj1[v := adj1[v] + [Edge(u, w)]])
  }

  /** `addEdge`: both endpoints become locations (if they are not already),
      then the two are linked with weight `w`. Self-loops and non-positive
      weights are not rejected. */
  function AddEdge(g: Graph, a: string, b: string, w: int): (g': Graph)
    requires WellFormed(g)
    ensures WellFormed(g')
    ensures g.names <= g'.names && HasLocation(g', a) && HasLocation(g', b)
  {
    var (g1, u) := AddLocation(g, a);
    var (g2, v) := AddLocation(g1, b);
    assert g2.names[u] == g1.names[u];
    FoundAt(g2.names, a, u);
    FoundAt(g2.names, b, v);
    Link(g2, u, v, w)
  }

  /** Exactly the weights between `u` and `v` (both directions) became `w`. */
  ghost predicate Relinked(g: Graph, g': Graph, u: nat, v: nat, w: int)
  {
    && |g'.adj| == |g.adj|
    && forall x, y :: 0 <= x < |g.adj| && 0 <= y < |g.adj| ==>
         WeightTo(g'.adj[x], y) == if (x == u && y == v) || (x == v && y == u) then Some(w) else WeightTo(g.adj[x], y)
  }

  /** Same locations, same neighbours at the same positions. */
  ghost predicate SameTargets(g: Graph, g': Graph)
  {
    && g'.names == g.names && |g'.adj| == |g.adj|
    && (forall x :: 0 <= x < |g.adj| ==> |g'.adj[x]| == |g.adj[x]|)
    && forall x, j :: 0 <= x < |g.adj| && 0 <= j < |g.adj[x]| ==> g'.adj[x][j].to == g.adj[x][j].to
  }

  lemma SameTargetsKeepShape(g: Graph, g': Graph)
    requires SameTargets(g, g')
    ensures WellFormed(g) ==> WellFormed(g')
    ensures DistinctNames(g.names) ==> DistinctNames(g'.names)
    ensures Simple(g) ==> Simple(g')
  {
  }

  /** Rewriting the weights between `u` and `v` keeps the edges symmetric. */
  lemma RelinkedSymmetric(g: Graph, g': Graph, u: nat, v: nat, w: int)
    requires Symmetric(g) && Relinked(g, g', u, v, w)
    ensures Symmetric(g')
  {
  }

  /** The weights of two lists rewritten at `u` and `v` and nowhere else. */
  lemma RelinkedFromLists(g: Graph, g': Graph, u: nat, v: nat, w: int)
    requires |g'.adj| == |g.adj| && u < |g.adj| && v < |g.adj| && u != v
    requires WeightTo(g'.adj[u], v) == Some(w) && WeightTo(g'.adj[v], u) == Some(w)
    requires forall y :: y != v ==> WeightTo(g'.adj[u], y) == WeightTo(g.adj[u], y)
    requires forall y :: y != u ==> WeightTo(g'.adj[v], y) == WeightTo(g.adj[v], y)
    requires forall x :: 0 <= x < |g.adj| && x != u && x != v ==> g'.adj[x] == g.adj[x]
    ensures Relinked(g, g', u, v, w)
  {
  }

  /** Replacing two adjacency lists changes the entry count by their growth. */
  lemma TotalEntriesUpdate2(adj: seq<seq<Edge>>, u: nat, a: seq<Edge>, v: nat, b: seq<Edge>)
    requires u < |adj| && v < |adj| && u != v
    ensures TotalEntries(adj[u := a][v := b]) == TotalEntries(adj) - |adj[u]| - |adj[v]| + |a| + |b|
  {
    TotalEntriesUpdate(adj, u, a);
    TotalEntriesUpdate(adj[u := a], v, b);
  }

  /** The overwrite branch of `Link`. */
  lemma LinkExisting(g: Graph, u: nat, v: nat, w: int)
    requires Valid(g) && u < |g.adj| && v < |g.adj| && u != v
    requires IndexOf(g.adj[u], v).Some?
    ensures Valid(Link(g, u, v, w)) && Relinked(g, Link(g, u, v, w), u, v, w)
    ensures TotalEntries(Link(g, u, v, w).adj) == TotalEntries(g.adj)
  {
    var g' := Link(g, u, v, w);
    var a, b := SetWeight(g.adj[u], v, w), SetWeight(g.adj[v], u, w);
    assert g'.adj == g.adj[u := a][v := b];
    assert WeightTo(g.adj[v], u).Some?;
    OverwriteParts(g, g', u, v, w);
    SameTargetsKeepShape(g, g');
    RelinkedSymmetric(g, g', u, v, w);
    TotalEntriesUpdate2(g.adj, u, a, v, b);
  }

  lemma OverwriteParts(g: Graph, g': Graph, u: nat, v: nat, w: int)
    requires u < |g.adj| && v < |g.adj| && u != v
    requires WeightTo(g.adj[u], v).Some? && WeightTo(g.adj[v], u).Some?
    requires g' == g.(adj := g.adj[u := SetWeight(g.adj[u], v, w)][v := SetWeight(g.adj[v], u, w)])
    ensures SameTargets(g, g') && Relinked(g, g', u, v, w)
  {
    forall x, j | 0 <= x < |g.adj| && 0 <= j < |g.adj[x]|
      ensures |g'.adj[x]| == |g.adj[x]|
      ensures g'.adj[x][j].to == g.adj[x][j].to
    {
    }
    RelinkedFromLists(g, g', u, v, w);
  }

  /** The append branch of `Link`. */
  lemma LinkNew(g: Graph, u: nat, v: nat, w: int)
    requires Valid(g) && u < |g.adj| && v < |g.adj| && u != v
    requires IndexOf(g.adj[u], v).None?
    ensures Valid(Link(g, u, v, w)) && Relinked(g, Link(g, u, v, w), u, v, w)
    ensures TotalEntries(Link(g, u, v, w).adj) == TotalEntries(g.adj) + 2
  {
    var g' := Link(g, u, v, w);
    var eu, ev := Edge(v, w), Edge(u, w);
    assert WeightTo(g.adj[u], v) == WeightTo(g.adj[v], u);
    assert IndexOf(g.adj[v], u).None?;
    var a, b := g.adj[u] + [eu], g.adj[v] + [ev];
    assert g'.adj == g.adj[u := a][v := b];
    AppendRelinked(g, g', u, v, w);
    RelinkedSymmetric(g, g', u, v, w);
    AppendShape(g, g', u, v, w);
    AppendTotal(g.adj, u, a, v, b);
  }

  lemma AppendTotal(adj: seq<seq<Edge>>, u: nat, a: seq<Edge>, v: nat, b: seq<Edge>)
    requires u < |adj| && v < |adj| && u != v && |a| == |adj[u]| + 1 && |b| == |adj[v]| + 1
    ensures TotalEntries(adj[u := a][v := b]) == TotalEntries(adj) + 2
    ensures TotalEntries(adj[u := a][v := b]) % 2 == TotalEntries(adj) % 2
  {
    TotalEntriesUpdate2(adj, u, a, v, b);
  }

  lemma AppendRelinked(g: Graph, g': Graph, u: nat, v: nat, w: int)
    requires u < |g.adj| && v < |g.adj| && u != v
    requires IndexOf(g.adj[u], v).None? && IndexOf(g.adj[v], u).None?
    requires g'.adj == g.adj[u := g.adj[u] + [Edge(v, w)]][v := g.adj[v] + [Edge(u, w)]]
    ensures Relinked(g, g', u, v, w)
  {
    AppendWeight(g.adj[u], Edge(v, w));
    AppendWeight(g.adj[v], Edge(u, w));
    RelinkedFromLists(g, g', u, v, w);
  }

  lemma AppendShape(g: Graph, g': Graph, u: nat, v: nat, w: int)
    requires WellFormed(g) && Simple(g)
    requires u < |g.adj| && v < |g.adj| && u != v
    requires IndexOf(g.adj[u], v).None? && IndexOf(g.adj[v], u).None?
    requires g' == g.(adj := g.adj[u := g.adj[u] + [Edge(v, w)]][v := g.adj[v] + [Edge(u, w)]])
    ensures WellFormed(g') && Simple(g')
  {
    forall x, i | 0 <= x < |g'.adj| && 0 <= i < |g'.adj[x]|
      ensures g'.adj[x][i].to < |g'.names| && g'.adj[x][i].to != x
    {
      if i < |g.adj[x]| {
        assert g'.adj[x][i] == g.adj[x][i];
      }
    }
  }

  lemma LinkRelinked(g: Graph, u: nat, v: nat, w: int)
    requires WellFormed(g) && Symmetric(g) && u < |g.adj| && v < |g.adj| && u != v
    ensures Relinked(g, Link(g, u, v, w), u, v, w)
  {
    var g' := Link(g, u, v, w);
    assert WeightTo(g.adj[u], v) == WeightTo(g.adj[v], u);
    if IndexOf(g.adj[u], v).Some? {
      RelinkedFromLists(g, g', u, v, w);
    } else {
      AppendRelinked(g, g', u, v, w);
    }
  }

  /** Linking two different locations keeps the
      invariant, sets the weight in both directions and leaves every other
      pair alone; a new pair adds two adjacency entries, an existing one none. */
  lemma LinkValid(g: Graph, u: nat, v: nat, w: int)
    requires Valid(g) && u < |g.adj| && v < |g.adj| && u != v
    ensures Valid(Link(g, u, v, w))
    ensures Relinked(g, Link(g, u, v, w), u, v, w)
    ensures TotalEntries(Link(g, u, v, w).adj) == TotalEntries(g.adj) + if WeightTo(g.adj[u], v).None? then 2 else 0
  {
    if IndexOf(g.adj[u], v).Some? {
      LinkExisting(g, u, v, w);
    } else {
      LinkNew(g, u, v, w);
    }
  }

  /** Two differently named locations are joined by an edge. */
  predicate Joined(g: Graph, a: string, b: string)
    requires WellFormed(g)
  {
    HasLocation(g, a) && HasLocation(g, b) && WeightTo(g.adj[IdOf(g, a)], IdOf(g, b)).Some?
  }

  /** The two lookups `addEdge` starts with. */
  function Endpoints(g: Graph, a: string, b: string): (res: (Graph, nat, nat))
  {
    var (g1, u) := AddLocation(g, a);
    var (g2, v) := AddLocation(g1, b);
    (g2, u, v)
  }

  lemma EndpointsValid(g: Graph, a: string, b: string)
    requires Valid(g) && Lower(a) != Lower(b)
    ensures var (g2, u, v) := Endpoints(g, a, b);
      Valid(g2) && u < |g2.adj| && v < |g2.adj| && u != v
  {
    var (g1, u) := AddLocation(g, a);
    AddLocationValid(g, a);
    var (g2, v) := AddLocation(g1, b);
    AddLocationValid(g1, b);
    assert g2.names[u] == g1.names[u];
  }

  /** The lookups only append isolated locations. */
  lemma EndpointsKeep(g: Graph, a: string, b: string)
    requires WellFormed(g)
    ensures var (g2, u, v) := Endpoints(g, a, b);
      && g.names <= g2.names && |g.adj| <= |g2.adj|
      && (forall x :: 0 <= x < |g.adj| ==> g2.adj[x] == g.adj[x])
      && TotalEntries(g2.adj) == TotalEntries(g.adj)
  {
    var (g1, u) := AddLocation(g, a);
    var (g2, v) := AddLocation(g1, b);
    if !HasLocation(g, a) {
      TotalEntriesAppend(g.adj, []);
    }
    if !HasLocation(g1, b) {
      TotalEntriesAppend(g1.adj, []);
    }
  }

  /** The pair was joined before exactly when the overwrite branch is taken. */
  lemma EndpointsJoined(g: Graph, a: string, b: string)
    requires Valid(g) && Lower(a) != Lower(b)
    ensures var (g2, u, v) := Endpoints(g, a, b);
      u < |g2.adj| && (Joined(g, a, b) <==> WeightTo(g2.adj[u], v).Some?)
  {
    var (g1, u) := AddLocation(g, a);
    var (g2, v) := AddLocation(g1, b);
    EndpointsValid(g, a, b);
    if !(HasLocation(g, a) && HasLocation(g, b)) {
      assert g2.adj[u] == [] || g2.adj[v] == [];
      assert WeightTo(g2.adj[u], v) == WeightTo(g2.adj[v], u);
    }
  }

  /** Halving an even count that grew by 0 or 2. */
  lemma HalfOfEven(t: nat, t': nat, grew: bool)
    requires t % 2 == 0 && t' == t + if grew then 2 else 0
    ensures t' % 2 == 0 && t' / 2 == t / 2 + if grew then 1 else 0
  {
  }

  /** `addEdge(a, b, w)` between differently named locations, whatever the
      weight, keeps the invariant, records `w` at both ends, and raises
      `getEdgeCount` by one exactly when the two were not joined before. */
  lemma AddEdgeValid(g: Graph, a: string, b: string, w: int)
    requires Valid(g) && Lower(a) != Lower(b)
    ensures var g' := AddEdge(g, a, b, w);
      && Valid(g')
      && WeightTo(g'.adj[IdOf(g', a)], IdOf(g', b)) == Some(w)
      && WeightTo(g'.adj[IdOf(g', b)], IdOf(g', a)) == Some(w)
      && TotalEntries(g'.adj) / 2 == TotalEntries(g.adj) / 2 + if Joined(g, a, b) then 0 else 1
  {
    var (g2, u, v) := Endpoints(g, a, b);
    EndpointsValid(g, a, b);
    EndpointsKeep(g, a, b);
    EndpointsJoined(g, a, b);
    var g' := AddEdge(g, a, b, w);
    assert g' == Link(g2, u, v, w);
    LinkValid(g2, u, v, w);
    FindUnique(g'.names, a, u);
    FindUnique(g'.names, b, v);
    HalfOfEven(TotalEntries(g.adj), TotalEntries(g'.adj), !Joined(g, a, b));
  }

  /** `addEdge(a, b, w)` leaves the weight between every other pair of
      existing locations alone. */
  lemma AddEdgeKeepsOthers(g: Graph, a: string, b: string, w: int)
    requires Valid(g) && Lower(a) != Lower(b)
    ensures var g' := AddEdge(g, a, b, w);
      var (u, v) := (IdOf(g', a), IdOf(g', b));
      forall x, y :: 0 <= x < |g.adj| && 0 <= y < |g.adj| && !(x == u && y == v) && !(x == v && y == u) ==>
        WeightTo(g'.adj[x], y) == WeightTo(g.adj[x], y)
  {
    var (g2, u, v) := Endpoints(g, a, b);
    EndpointsValid(g, a, b);
    EndpointsKeep(g, a, b);
    var g' := AddEdge(g, a, b, w);
    assert g' == Link(g2, u, v, w);
    LinkRelinked(g2, u, v, w);
    FindUnique(g'.names, a, u);
    FindUnique(g'.names, b, v);
    RelinkedPrefix(g, g2, g', u, v, w);
  }

  /** Linking a location to itself with no entry for itself yet appends
      two entries to its one list (lines 233-234), and nothing else changes. */
  lemma LinkSelfAppends(g: Graph, u: nat, w: int)
    requires WellFormed(g) && u < |g.adj| && IndexOf(g.adj[u], u).None?
    ensures Link(g, u, u, w).adj == g.adj[u := g.adj[u] + [Edge(u, w), Edge(u, w)]]
  {
    var adj1 := g.adj[u := g.adj[u] + [Edge(u, w)]];
    assert adj1[u] + [Edge(u, w)] == g.adj[u] + [Edge(u, w), Edge(u, w)];
  }

  /** Linking a location to itself when it has an entry for itself updates
      only the first such entry, twice (lines 221-230), and nothing else
      changes. */
  lemma LinkSelfUpdatesFirst(g: Graph, u: nat, w: int, i: nat)
    requires WellFormed(g) && u < |g.adj| && IndexOf(g.adj[u], u) == Some(i)
    ensures Link(g, u, u, w).adj == g.adj[u := g.adj[u][i := Edge(u, w)]]
  {
    var r := g.adj[u][i := Edge(u, w)];
    assert SetWeight(g.adj[u], u, w) == r;
    IndexOfIs(r, u, i);
    assert SetWeight(r, u, w) == r;
  }

  /** Two names equal up to case name the same location: the second
      `addLocation` of a self-loop finds the id the first one gave. */
  lemma SelfLoopSameId(g: Graph, a: string, b: string)
    requires Lower(a) == Lower(b)
    ensures var (g1, u) := AddLocation(g, a); AddLocation(g1, b) == (g1, u)
  {
    var (g1, u) := AddLocation(g, a);
    assert Find(g1.names, b) == Find(g1.names, a);
    if Find(g.names, a).None? {
      assert g1.names[u] == a;
      FoundAt(g1.names, a, u);
    }
  }

  /** What `addEdge` does with a self-loop, which the invariant excludes:
      when the location has no entry for itself, the call pushes two entries
      into its one list (lines 233-234); otherwise it updates only the first
      of them (lines 221-230). The two names need only agree up to case. */
  lemma SelfLoopDuplicates(g: Graph, a: string, b: string, w: int)
    requires WellFormed(g) && Lower(a) == Lower(b)
    ensures var (g1, u) := AddLocation(g, a);
      && (IndexOf(g1.adj[u], u).None? ==>
            AddEdge(g, a, b, w).adj == g1.adj[u := g1.adj[u] + [Edge(u, w), Edge(u, w)]])
      && (IndexOf(g1.adj[u], u).Some? ==>
            AddEdge(g, a, b, w).adj == g1.adj[u := g1.adj[u][IndexOf(g1.adj[u], u).value := Edge(u, w)]])
  {
    var (g1, u) := AddLocation(g, a);
    SelfLoopSameId(g, a, b);
    match IndexOf(g1.adj[u], u)
    case None => LinkSelfAppends(g1, u, w);
    case Some(i) => LinkSelfUpdatesFirst(g1, u, w, i);
  }

  lemma RelinkedPrefix(g: Graph, g2: Graph, g': Graph, u: nat, v: nat, w: int)
    requires |g.adj| <= |g2.adj| && forall x :: 0 <= x < |g.adj| ==> g2.adj[x] == g.adj[x]
    requires Relinked(g2, g', u, v, w)
    ensures forall x, y :: 0 <= x < |g.adj| && 0 <= y < |g.adj| && !(x == u && y == v) && !(x == v && y == u) ==>
      WeightTo(g'.adj[x], y) == WeightTo(g.adj[x], y)
  {
    forall x, y | 0 <= x < |g.adj| && 0 <= y < |g.adj| && !(x == u && y == v) && !(x == v && y == u)
      ensures WeightTo(g'.adj[x], y) == WeightTo(g.adj[x], y)
    {
      assert g2.adj[x] == g.adj[x];
    }
  }

  /** `getEdgeCount`: half the number of adjacency entries. */
  method EdgeCount(g: Graph) returns (count: nat)
    ensures count == TotalEntries(g.adj) / 2
  {
    var total := 0;
    var i := 0;
    while i < |g.adj|
      invariant 0 <= i <= |g.adj|
      invariant total == TotalEntries(g.adj[..i])
    {
      assert g.adj[..i + 1][..i] == g.adj[..i];
      total := total + |g.adj[i]|;
      i := i + 1;
    }
    assert g.adj[..i] == g.adj;
    count := total / 2;
  }

  // ---------------------------------------------------------------------
  // Walks and reachability
  // ---------------------------------------------------------------------

  /** The location a walk from `s` has reached. */
  function End(s: nat, hops: seq<Edge>): nat
  {
    if |hops| == 0 then s else hops[|hops| - 1].to
  }

  /** The total weight of a walk. */
  function Cost(hops: seq<Edge>): int
  {
    if |hops| == 0 then 0 else Cost(hops[..|hops| - 1]) + hops[|hops| - 1].weight
  }

  /** `hops` is a walk from `s`: each hop is an adjacency entry of the
      location reached so far. */
  ghost predicate IsWalk(g: Graph, s: nat, hops: seq<Edge>)
    decreases |hops|
  {
    if |hops| == 0 then s < |g.adj|
    else
      var h := hops[..|hops| - 1];
      IsWalk(g, s, h) && End(s, h) < |g.adj| && hops[|hops| - 1] in g.adj[End(s, h)]
  }

  ghost predicate Reachable(g: Graph, s: nat, v: nat)
  {
    exists hops :: IsWalk(g, s, hops) && End(s, hops) == v
  }

  /** The locations a walk passes through, starting with `s`. */
  function Visits(s: nat, hops: seq<Edge>): (p: seq<nat>)
    ensures |p| == |hops| + 1 && p[0] == s && p[|hops|] == End(s, hops)
    ensures forall i :: 0 <= i < |hops| ==> p[i + 1] == hops[i].to
  {
    [s] + seq(|hops|, i requires 0 <= i < |hops| => hops[i].to)
  }

  lemma {:induction false} WalkStartsInGraph(g: Graph, s: nat, hops: seq<Edge>)
    requires IsWalk(g, s, hops)
    ensures s < |g.adj|
    decreases |hops|
  {
    if |hops| > 0 {
      WalkStartsInGraph(g, s, hops[..|hops| - 1]);
    }
  }

  lemma {:induction false} WalkEndsInGraph(g: Graph, s: nat, hops: seq<Edge>)
    requires WellFormed(g) && IsWalk(g, s, hops)
    ensures End(s, hops) < |g.adj|
  {
    if |hops| > 0 {
      var h := hops[..|hops| - 1];
      var e := hops[|hops| - 1];
      var i :| 0 <= i < |g.adj[End(s, h)]| && g.adj[End(s, h)][i] == e;
    }
  }

  /** Extending a walk by an entry of the location it reached. */
  lemma AppendHop(g: Graph, s: nat, hops: seq<Edge>, e: Edge)
    requires IsWalk(g, s, hops) && End(s, hops) < |g.adj| && e in g.adj[End(s, hops)]
    ensures IsWalk(g, s, hops + [e]) && End(s, hops + [e]) == e.to
    ensures Cost(hops + [e]) == Cost(hops) + e.weight
  {
    assert (hops + [e])[..|hops|] == hops;
  }

  /** Putting an entry of `p` that leads to `s` in front of a walk from `s`. */
  lemma {:induction false} PrependHop(g: Graph, p: nat, e: Edge, s: nat, hops: seq<Edge>)
    requires p < |g.adj| && e in g.adj[p] && e.to == s && IsWalk(g, s, hops)
    ensures IsWalk(g, p, [e] + hops) && End(p, [e] + hops) == End(s, hops)
    ensures Cost([e] + hops) == e.weight + Cost(hops)
    ensures Visits(p, [e] + hops) == [p] + Visits(s, hops)
    decreases |hops|
  {
    if |hops| == 0 {
      assert ([e] + hops)[..0] == [];
    } else {
      var h := hops[..|hops| - 1];
      PrependHop(g, p, e, s, h);
      assert ([e] + hops)[..|hops|] == [e] + h;
    }
  }

  lemma ReachableSelf(g: Graph, s: nat)
    requires s < |g.adj|
    ensures Reachable(g, s, s)
  {
    assert IsWalk(g, s, []) && End(s, []) == s;
  }

  lemma ReachableStep(g: Graph, s: nat, u: nat, i: nat)
    requires Reachable(g, s, u) && u < |g.adj| && i < |g.adj[u]|
    ensures Reachable(g, s, g.adj[u][i].to)
  {
    var hops :| IsWalk(g, s, hops) && End(s, hops) == u;
    AppendHop(g, s, hops, g.adj[u][i]);
  }

  /** What a neighbour of `u` reaches, `u` reaches too. */
  lemma ReachableThroughNeighbour(g: Graph, u: nat, i: nat, x: nat)
    requires u < |g.adj| && i < |g.adj[u]| && Reachable(g, g.adj[u][i].to, x)
    ensures Reachable(g, u, x)
  {
    var e := g.adj[u][i];
    var hops :| IsWalk(g, e.to, hops) && End(e.to, hops) == x;
    PrependHop(g, u, e, e.to, hops);
  }

  /** Marks that contain every neighbour of a marked location. */
  ghost predicate ClosedUnder(g: Graph, marks: seq<bool>)
  {
    && |marks| == |g.adj|
    && forall u, i :: 0 <= u < |g.adj| && marks[u] && 0 <= i < |g.adj[u]| ==>
         g.adj[u][i].to < |g.adj| && marks[g.adj[u][i].to]
  }

  lemma {:induction false} ClosedContainsWalkEnd(g: Graph, s: nat, hops: seq<Edge>, marks: seq<bool>)
    requires ClosedUnder(g, marks) && s < |marks| && marks[s] && IsWalk(g, s, hops)
    ensures End(s, hops) < |marks| && marks[End(s, hops)]
    decreases |hops|
  {
    if |hops| > 0 {
      var h := hops[..|hops| - 1];
      ClosedContainsWalkEnd(g, s, h, marks);
      var u := End(s, h);
      var i :| 0 <= i < |g.adj[u]| && g.adj[u][i] == hops[|hops| - 1];
    }
  }

  /** A closed set of marks that contains `s` contains everything `s` reaches. */
  lemma ClosedContainsReachable(g: Graph, s: nat, marks: seq<bool>, v: nat)
    requires ClosedUnder(g, marks) && s < |marks| && marks[s] && Reachable(g, s, v)
    ensures v < |marks| && marks[v]
  {
    var hops :| IsWalk(g, s, hops) && End(s, hops) == v;
    ClosedContainsWalkEnd(g, s, hops, marks);
  }

  /** The names of a sequence of location ids. */
  function NamesOf(g: Graph, ids: seq<nat>): (r: seq<string>)
    requires forall i :: 0 <= i < |ids| ==> ids[i] < |g.names|
    ensures |r| == |ids| && forall i :: 0 <= i < |ids| ==> r[i] == g.names[ids[i]]
  {
    seq(|ids|, i requires 0 <= i < |ids| => g.names[ids[i]])
  }
}
