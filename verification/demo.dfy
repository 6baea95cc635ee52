/** The road network of the graph demonstration (NavigateX.cpp:1052-1082):
    four cities and four roads, with the cheapest Mumbai to Chennai route
    of length 1200 that the demonstration prints. */
module Demo {
  import opened Common
  import opened Text
  import opened WeightedGraph
  import opened ShortestPath

  /** Ids in insertion order: Mumbai 0, Delhi 1, Bangalore 2, Chennai 3; each
      road is listed at both ends in the order the roads were added. */
  const Cities := Graph(
    ["Mumbai", "Delhi", "Bangalore", "Chennai"],
    [[Edge(1, 1400), Edge(2, 850)],
     [Edge(0, 1400), Edge(2, 2150)],
     [Edge(0, 850), Edge(1, 2150), Edge(3, 350)],
     [Edge(2, 350)]])

  /** Mumbai, Bangalore, Chennai. */
  const ViaBangalore := [Edge(2, 850), Edge(3, 350)]

  /** A feasible labelling of the demonstration from Mumbai: the distances
      the demonstration prints. */
  const FromMumbai := [Some(0), Some(1400), Some(850), Some(1200)]

  /** Only Bangalore has a road into Chennai. */
  lemma IntoChennai(u: nat, e: Edge)
    requires u < |Cities.adj| && e in Cities.adj[u] && e.to == 3
    ensures u == 2 && e == Edge(3, 350)
  {
  }

  /** The roads into Bangalore come from Mumbai, Delhi and Chennai. */
  lemma IntoBangalore(u: nat, e: Edge)
    requires u < |Cities.adj| && e in Cities.adj[u] && e.to == 2
    ensures || (u == 0 && e == Edge(2, 850))
            || (u == 1 && e == Edge(2, 2150))
            || (u == 3 && e == Edge(2, 350))
  {
  }

  /** No road is shorter than the one from Bangalore to Chennai. */
  lemma ShortestRoad(u: nat, e: Edge)
    requires u < |Cities.adj| && e in Cities.adj[u]
    ensures e.weight >= 350
  {
  }

  /** Every walk that moves at all costs at least the shortest road. */
  lemma {:induction false} WalkAtLeastOneRoad(hops: seq<Edge>)
    requires IsWalk(Cities, 0, hops) && |hops| > 0
    ensures Cost(hops) >= 350
  {
    var h := hops[..|hops| - 1];
    assert Feasible(Cities, 0, FromMumbai);
    FeasibleBoundsWalks(Cities, 0, FromMumbai, h);
    ShortestRoad(End(0, h), hops[|hops| - 1]);
  }

  /** Every cheapest Mumbai to Chennai walk costs 1200, and going through
      Bangalore is the only one. */
  lemma MumbaiToChennai(hops: seq<Edge>)
    ensures Cheapest(Cities, 0, 3, ViaBangalore) && Cost(ViaBangalore) == 1200
    ensures Cheapest(Cities, 0, 3, hops) ==> Cost(hops) == 1200
    ensures Cheapest(Cities, 0, 3, hops) ==> hops == ViaBangalore
  {
    var d := FromMumbai;
    assert Feasible(Cities, 0, d);
    assert IsWalk(Cities, 0, ViaBangalore) by {
      assert ViaBangalore[..1] == [Edge(2, 850)];
      assert IsWalk(Cities, 0, [Edge(2, 850)]) by {
        assert [Edge(2, 850)][..0] == [];
      }
    }
    assert Cost(ViaBangalore) == 1200 by {
      assert ViaBangalore[..1] == [Edge(2, 850)];
      assert [Edge(2, 850)][..0] == [];
    }
    forall other | IsWalk(Cities, 0, other) && End(0, other) == 3
      ensures 1200 <= Cost(other)
    {
      FeasibleBoundsWalks(Cities, 0, d, other);
    }
    if Cheapest(Cities, 0, 3, hops) {
      // The last road enters Chennai, so it comes from Bangalore.
      var n := |hops|;
      assert n > 0;
      var h, e := hops[..n - 1], hops[n - 1];
      assert IsWalk(Cities, 0, h);
      IntoChennai(End(0, h), e);
      assert Cost(h) == 850;
      // The road before enters Bangalore; arriving from Delhi or Chennai would
      // leave less than their distance from Mumbai for the walk up to them.
      var m := |h|;
      assert m > 0;
      var h2, f := h[..m - 1], h[m - 1];
      assert IsWalk(Cities, 0, h2);
      IntoBangalore(End(0, h2), f);
      FeasibleBoundsWalks(Cities, 0, d, h2);
      assert f == Edge(2, 850) && End(0, h2) == 0 && Cost(h2) == 0;
      // Nothing happens before leaving Mumbai.
      if |h2| > 0 {
        WalkAtLeastOneRoad(h2);
        assert false;
      }
      assert h == h2 + [f];
      assert hops == h + [e];
    }
  }

  /** The demonstration's roads all have non-negative lengths, so the
      shortest-path guarantees apply to it. */
  lemma CitiesNonNegative()
    ensures NonNegative(Cities)
  {
    var a: seq<seq<Edge>> := Cities.adj;
    forall u: int, i: int | 0 <= u < |a| && 0 <= i < |a[u]|
      ensures a[u][i].weight >= 0
    {
      if u == 0 {
        assert a[0] == [Edge(1, 1400), Edge(2, 850)];
      } else if u == 1 {
        assert a[1] == [Edge(0, 1400), Edge(2, 2150)];
      } else if u == 2 {
        assert a[2] == [Edge(0, 850), Edge(1, 2150), Edge(3, 350)];
      } else {
        assert a[3] == [Edge(2, 350)];
      }
    }
  }
}
