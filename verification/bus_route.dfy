/** Bus routes as singly linked lists of stops (`BusRoute`,
    NavigateX.cpp:413-507) and the route registry keyed by route name
    (`BusRouteManager`, NavigateX.cpp:509-567). */
module BusRoutes {
  import opened Common

  /** A chain of `Stop` nodes; `End` is the null `next` pointer. */
  datatype StopList = End | Stop(name: string, next: StopList)

  datatype BusRoute = BusRoute(routeName: string, head: StopList)

  /** `getStopsVector` (NavigateX.cpp:488-496): the stop names from the head on. */
  function Names(l: StopList): seq<string>
  {
    match l
    case End => []
    case Stop(n, rest) => [n] + Names(rest)
  }

  /** `addStop` (NavigateX.cpp:436-449): walk to the last node and link a
      new node after it (or make it the head of an empty route). */
  function AddStop(l: StopList, n: string): (r: StopList)
    ensures Names(r) == Names(l) + [n]
  {
    match l
    case End => Stop(n, End)
    case Stop(m, rest) => Stop(m, AddStop(rest, n))
  }

  /** `deleteStop` (NavigateX.cpp:451-472): unlink the first node named `n`;
      `false` when there is none. */
  function DeleteStop(l: StopList, n: string): (res: (StopList, bool))
  {
    match l
    case End => (End, false)
    case Stop(m, rest) =>
      if m == n then (rest, true)
      else
        var (r, found) := DeleteStop(rest, n);
        (Stop(m, r), found)
  }

  /** The position of the first occurrence of `n`, as a reference for
      `deleteStop`. */
  function FirstIndex(s: seq<string>, n: string): (i: nat)
    requires n in s
    ensures i < |s| && s[i] == n && n !in s[..i]
  {
    if s[0] == n then 0 else FirstIndex(s[1..], n) + 1
  }

  /** `deleteStop` reports whether the name occurs and removes exactly its
      first occurrence, keeping the order of the others. */
  lemma {:induction false} DeleteStopSpec(l: StopList, n: string)
    ensures DeleteStop(l, n).1 <==> n in Names(l)
    ensures !DeleteStop(l, n).1 ==> DeleteStop(l, n).0 == l
    ensures DeleteStop(l, n).1 ==>
      var i := FirstIndex(Names(l), n);
      Names(DeleteStop(l, n).0) == Names(l)[..i] + Names(l)[i + 1..]
  {
    match l
    case End =>
    case Stop(m, rest) =>
      DeleteStopSpec(rest, n);
      if m != n && n in Names(rest) {
        var s := Names(l);
        assert s[1..] == Names(rest);
        var j := FirstIndex(Names(rest), n);
        assert FirstIndex(s, n) == j + 1;
        assert s[..j + 1] == [m] + Names(rest)[..j];
        assert s[j + 2..] == Names(rest)[j + 1..];
      }
  }

  /** The loop of `reverseRoute` (NavigateX.cpp:474-486): `cur` is what is
      left to turn around, `prev` the part already reversed. */
  function ReverseOnto(cur: StopList, prev: StopList): (r: StopList)
  {
    match cur
    case End => prev
    case Stop(n, nxt) => ReverseOnto(nxt, Stop(n, prev))
  }

  /** `reverseRoute`: relink every node to point at its predecessor. */
  function Reverse(l: StopList): StopList
  {
    ReverseOnto(l, End)
  }

  /** The sequence reversed. */
  function Reversed(s: seq<string>): (r: seq<string>)
    ensures |r| == |s|
  {
    if |s| == 0 then [] else Reversed(s[1..]) + [s[0]]
  }

  lemma {:induction false} ReverseOntoNames(cur: StopList, prev: StopList)
    ensures Names(ReverseOnto(cur, prev)) == Reversed(Names(cur)) + Names(prev)
  {
    match cur
    case End =>
    case Stop(n, nxt) =>
      ReverseOntoNames(nxt, Stop(n, prev));
      assert Names(cur)[1..] == Names(nxt);
  }

  /** After `reverseRoute` the stops come in the opposite order. */
  lemma ReverseNames(l: StopList)
    ensures Names(Reverse(l)) == Reversed(Names(l))
  {
    ReverseOntoNames(l, End);
  }

  lemma {:induction false} ReversedAt(s: seq<string>, i: nat)
    requires i < |s|
    ensures Reversed(s)[i] == s[|s| - 1 - i]
  {
    if i < |s| - 1 {
      ReversedAt(s[1..], i);
    }
  }

  lemma ReversedTwice(s: seq<string>)
    ensures Reversed(Reversed(s)) == s
  {
    forall i | 0 <= i < |s|
      ensures Reversed(Reversed(s))[i] == s[i]
    {
      ReversedAt(Reversed(s), i);
      ReversedAt(s, |s| - 1 - i);
    }
  }

  /** A list is determined by its names. */
  lemma {:induction false} NamesInjective(a: StopList, b: StopList)
    requires Names(a) == Names(b)
    ensures a == b
  {
    match a
    case End =>
    case Stop(n, rest) =>
      assert Names(rest) == Names(a)[1..] == Names(b)[1..] == Names(b.next);
      NamesInjective(rest, b.next);
  }

  /** Reversing a route twice gives back the same route. */
  lemma ReverseTwice(l: StopList)
    ensures Reverse(Reverse(l)) == l
  {
    ReverseNames(l);
    ReverseNames(Reverse(l));
    ReversedTwice(Names(l));
    NamesInjective(Reverse(Reverse(l)), l);
  }

  /** `size` (NavigateX.cpp:498-506): count the nodes with a loop. */
  method Size(l: StopList) returns (count: nat)
    ensures count == |Names(l)|
  {
    count := 0;
    var cur := l;
    while cur.Stop?
      invariant count + |Names(cur)| == |Names(l)|
      decreases cur
    {
      count := count + 1;
      cur := cur.next;
    }
  }

  // ---------------------------------------------------------------------
  // BusRouteManager (NavigateX.cpp:509-567)
  // ---------------------------------------------------------------------

  datatype Manager = Manager(routes: map<string, BusRoute>)

  /** Each route is stored under its own name. */
  ghost predicate Valid(m: Manager)
  {
    forall rn :: rn in m.routes ==> m.routes[rn].routeName == rn
  }

  /** `addRoute`: a new, empty route; refused for a name already in use. */
  function AddRoute(m: Manager, rn: string): (res: (Manager, bool))
    ensures res.1 <==> rn !in m.routes
    ensures !res.1 ==> res.0 == m
    ensures res.1 ==> res.0.routes.Keys == m.routes.Keys + {rn} && res.0.routes[rn].head == End
    ensures forall k :: k in m.routes && k != rn ==> k in res.0.routes && res.0.routes[k] == m.routes[k]
    ensures Valid(m) ==> Valid(res.0)
  {
    if rn in m.routes then (m, false)
    else (Manager(m.routes[rn := BusRoute(rn, End)]), true)
  }

  /** Apply `f` to the stops of route `rn`, when it exists. */
  function UpdateStops(m: Manager, rn: string, f: StopList -> StopList): (r: Manager)
    requires rn in m.routes
    ensures r.routes.Keys == m.routes.Keys
    ensures r.routes[rn].head == f(m.routes[rn].head)
    ensures r.routes[rn].routeName == m.routes[rn].routeName
    ensures forall k :: k in m.routes && k != rn ==> r.routes[k] == m.routes[k]
  {
    Manager(m.routes[rn := m.routes[rn].(head := f(m.routes[rn].head))])
  }

  /** `addStopToRoute`: `false` for an unknown route, otherwise the stop is
      appended to it. */
  function AddStopToRoute(m: Manager, rn: string, s: string): (res: (Manager, bool))
    ensures res.1 <==> rn in m.routes
    ensures !res.1 ==> res.0 == m
    ensures res.0.routes.Keys == m.routes.Keys
    ensures res.1 ==> Names(res.0.routes[rn].head) == Names(m.routes[rn].head) + [s]
    ensures forall k :: k in m.routes && k != rn ==> res.0.routes[k] == m.routes[k]
    ensures Valid(m) ==> Valid(res.0)
  {
    if rn !in m.routes then (m, false)
    else (UpdateStops(m, rn, l => AddStop(l, s)), true)
  }

  /** `deleteStopFromRoute`: `false` for an unknown route or a missing stop;
      otherwise the first stop of that name is gone. */
  function DeleteStopFromRoute(m: Manager, rn: string, s: string): (res: (Manager, bool))
    ensures res.1 ==> rn in m.routes && s in Names(m.routes[rn].head)
    ensures !res.1 ==> res.0 == m
    ensures res.0.routes.Keys == m.routes.Keys
    ensures forall k :: k in m.routes && k != rn ==> res.0.routes[k] == m.routes[k]
    ensures Valid(m) ==> Valid(res.0)
  {
    if rn !in m.routes then (m, false)
    else
      var (l, found) := DeleteStop(m.routes[rn].head, s);
      DeleteStopSpec(m.routes[rn].head, s);
      (UpdateStops(m, rn, _ => l), found)
  }

  /** The stop list after a successful deletion is the old one with the
      first occurrence removed; a deletion fails only when there is no such
      route or stop. */
  lemma DeleteStopFromRouteSpec(m: Manager, rn: string, s: string)
    ensures DeleteStopFromRoute(m, rn, s).1 <==> rn in m.routes && s in Names(m.routes[rn].head)
    ensures DeleteStopFromRoute(m, rn, s).1 ==>
      var before := Names(m.routes[rn].head);
      var i := FirstIndex(before, s);
      Names(DeleteStopFromRoute(m, rn, s).0.routes[rn].head) == before[..i] + before[i + 1..]
  {
    if rn in m.routes {
      DeleteStopSpec(m.routes[rn].head, s);
    }
  }

  /** `deleteRoute`: `false` for an unknown route, otherwise it is gone. */
  function DeleteRoute(m: Manager, rn: string): (res: (Manager, bool))
    ensures res.1 <==> rn in m.routes
    ensures res.0.routes.Keys == m.routes.Keys - {rn}
    ensures forall k :: k in res.0.routes ==> res.0.routes[k] == m.routes[k]
    ensures Valid(m) ==> Valid(res.0)
  {
    if rn !in m.routes then (m, false)
    else (Manager(m.routes - {rn}), true)
  }

  /** `reverseRoute`: `false` for an unknown route, otherwise its stops are
      reversed in place. */
  function ReverseRoute(m: Manager, rn: string): (res: (Manager, bool))
    ensures res.1 <==> rn in m.routes
    ensures !res.1 ==> res.0 == m
    ensures res.0.routes.Keys == m.routes.Keys
    ensures forall k :: k in m.routes && k != rn ==> res.0.routes[k] == m.routes[k]
    ensures Valid(m) ==> Valid(res.0)
  {
    if rn !in m.routes then (m, false)
    else (UpdateStops(m, rn, Reverse), true)
  }

  /** Reversing a route reverses its stop list, and doing it twice leaves the
      registry as it was. */
  lemma ReverseRouteSpec(m: Manager, rn: string)
    requires rn in m.routes
    ensures Names(ReverseRoute(m, rn).0.routes[rn].head) == Reversed(Names(m.routes[rn].head))
    ensures ReverseRoute(ReverseRoute(m, rn).0, rn).0 == m
  {
    ReverseNames(m.routes[rn].head);
    ReverseTwice(m.routes[rn].head);
    var m2 := ReverseRoute(ReverseRoute(m, rn).0, rn).0;
    assert m2.routes == m.routes;
  }

  /** `getRouteStops`: the route's stops, or nothing for an unknown route. */
  function RouteStops(m: Manager, rn: string): (r: seq<string>)
    ensures rn !in m.routes ==> r == []
    ensures rn in m.routes ==> r == Names(m.routes[rn].head)
  {
    if rn !in m.routes then [] else Names(m.routes[rn].head)
  }

  /** `getAllRouteNames` (NavigateX.cpp:553-559): every route name once, in
      whatever order the hash map yields them; the choice of the next key is
      left open. */
  method AllRouteNames(m: Manager) returns (names: seq<string>)
    ensures forall k :: k in names <==> k in m.routes
    ensures forall i, j :: 0 <= i < j < |names| ==> names[i] != names[j]
  {
    names := [];
    var rest := m.routes.Keys;
    while rest != {}
      invariant rest !! set k | k in names
      invariant forall k :: k in names || k in rest <==> k in m.routes
      invariant forall i, j :: 0 <= i < j < |names| ==> names[i] != names[j]
      decreases rest
    {
      var k :| k in rest;
      names := names + [k];
      rest := rest - {k};
    }
  }
}
