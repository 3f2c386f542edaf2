/**
 * The route enumerator of script.js: the `Graph` class, and `findAllRoutes`,
 * a bounded depth-first search that records every simple route of at most
 * four flights from `start` to `end` (capped by `maxRoutes` in discovery
 * order), ranks them by cost and then by layovers, and keeps the first
 * `maxRoutes`.
 */
module RouteEnumeration {
  import opened Flights

  /** A branch whose depth exceeds this many flights is abandoned (`depth > 4`). */
  const MaxDepth: nat := 4

  /** `{ path, cost, layovers }` as recorded by the search. */
  datatype Route = Route(path: seq<string>, cost: nat, layovers: int)

  /**
   * What every recorded route is: a walk from `start` to `end` whose cost is
   * the sum of its flights, with no city twice, at most `MaxDepth` flights,
   * and `layovers` two less than the number of cities.
   */
  ghost predicate IsRecordedRoute(g: Adjacency, start: string, end: string, r: Route)
  {
    && Connects(g, r.path, r.cost, start, end)
    && Distinct(r.path)
    && |r.path| <= MaxDepth + 1
    && r.layovers == |r.path| - 2
  }

  /**
   * `s`, a walk costing `d` from the last city of `path` to `end`, completes
   * `path` into a route the search records: no city twice, and at most
   * `MaxDepth` flights in all.
   */
  ghost predicate Continues(g: Adjacency, end: string, path: seq<string>, s: seq<string>, d: nat)
  {
    && |path| >= 1 && |s| >= 1
    && s[0] == path[|path| - 1] && s[|s| - 1] == end
    && IsWalk(g, s, d)
    && Distinct(path + s[1..])
    && |path| + |s| <= MaxDepth + 2
  }

  /** The routes that complete `path`, walked at `cost` so far. */
  ghost function Completions(g: Adjacency, end: string, path: seq<string>, cost: nat): iset<Route>
  {
    iset s: seq<string>, d: nat | Continues(g, end, path, s, d) :: Route(path + s[1..], cost + d, |path| + |s| - 3)
  }

  /** The routes held in `routes`. */
  ghost function Recorded(routes: seq<Route>): iset<Route>
  {
    iset r | r in routes
  }

  /**
   * What `dfs(current, path, cost, depth)` leaves in `routes` when `routes`
   * holds `acc` on entry and `maxRoutes` is `cap`: `acc` itself past
   * `MaxDepth` flights, `acc` and the path itself once the path reaches
   * `end`, `acc` again from a city already on the path (the visited set is
   * the path before its last city), and otherwise whatever the loop over the
   * flights out of the last city leaves.  The search only appends; from
   * below the cap it never goes past the cap, and from at or above the cap
   * it appends at most one route.
   */
  ghost function DfsRun(g: Adjacency, end: string, cap: nat, path: seq<string>, cost: nat,
                        acc: seq<Route>): (r: seq<Route>)
    requires |path| >= 1
    ensures acc <= r
    ensures |acc| < cap ==> |r| <= cap
    ensures cap <= |acc| ==> |r| <= |acc| + 1
    decreases MaxDepth + 2 - |path|, 1, 0
  {
    var current := path[|path| - 1];
    if |path| > MaxDepth + 1 then acc
    else if current == end then acc + [Route(path, cost, |path| - 2)]
    else if current in path[..|path| - 1] then acc
    else LoopRun(g, end, cap, path, cost, Out(g, current), 0, acc)
  }

  /**
   * The loop `for (const neighbor of neighbors)` from the flight at index
   * `i` on: search through that flight, and stop as soon as `cap` routes are
   * recorded; the same guarantees as `DfsRun`.
   */
  ghost function LoopRun(g: Adjacency, end: string, cap: nat, path: seq<string>, cost: nat,
                         neighbors: seq<Edge>, i: nat, acc: seq<Route>): (r: seq<Route>)
    requires 1 <= |path| <= MaxDepth + 1 && i <= |neighbors|
    ensures acc <= r
    ensures |acc| < cap ==> |r| <= cap
    ensures cap <= |acc| ==> |r| <= |acc| + 1
    decreases MaxDepth + 2 - |path|, 0, |neighbors| - i
  {
    if i == |neighbors| then acc
    else
      var next := DfsRun(g, end, cap, path + [neighbors[i].city], cost + neighbors[i].cost, acc);
      if |next| >= cap then next else LoopRun(g, end, cap, path, cost, neighbors, i + 1, next)
  }

  /**
   * From `[start]`, the completions are exactly the routes the search is
   * meant to record.
   */
  lemma CompletionsFromStart(g: Adjacency, start: string, end: string)
    ensures forall r :: r in Completions(g, end, [start], 0) <==> IsRecordedRoute(g, start, end, r)
  {
    forall r | r in Completions(g, end, [start], 0)
      ensures IsRecordedRoute(g, start, end, r)
    {
      var s: seq<string>, d: nat :| Continues(g, end, [start], s, d) && r == Route([start] + s[1..], d, |s| - 2);
      assert [start] + s[1..] == s;
    }
    forall r | IsRecordedRoute(g, start, end, r)
      ensures r in Completions(g, end, [start], 0)
    {
      assert [start] + r.path[1..] == r.path;
      assert Continues(g, end, [start], r.path, r.cost);
    }
  }

  /** A path longer than `MaxDepth` flights has no completion. */
  lemma TooDeepBlocks(g: Adjacency, end: string, path: seq<string>, cost: nat)
    requires |path| > MaxDepth + 1
    ensures Completions(g, end, path, cost) == iset{}
  {
    forall s: seq<string>, d: nat ensures !Continues(g, end, path, s, d) {
    }
  }

  /** A path that already repeats a city has no completion. */
  lemma RepeatedCityBlocks(g: Adjacency, end: string, path: seq<string>, cost: nat, k: nat)
    requires k < |path| - 1 && path[k] == path[|path| - 1]
    ensures Completions(g, end, path, cost) == iset{}
  {
    forall s: seq<string>, d: nat ensures !Continues(g, end, path, s, d) {
      if |s| >= 1 {
        assert (path + s[1..])[k] == (path + s[1..])[|path| - 1];
      }
    }
  }

  /** Once the path has reached `end`, its only completion is the path itself. */
  lemma EndIsFinal(g: Adjacency, end: string, path: seq<string>, cost: nat)
    requires |path| >= 1 && path[|path| - 1] == end
    ensures Completions(g, end, path, cost) <= iset{Route(path, cost, |path| - 2)}
  {
    forall s: seq<string>, d: nat | |s| >= 2
      ensures !Continues(g, end, path, s, d)
    {
      var q := path + s[1..];
      if s[|s| - 1] == end {
        assert q[|path| - 1] == q[|path| + |s| - 2];
      }
    }
    forall s: seq<string>, d: nat | Continues(g, end, path, s, d)
      ensures Route(path + s[1..], cost + d, |path| + |s| - 3) == Route(path, cost, |path| - 2)
    {
      assert s[1..] == [];
    }
  }

  /** A completing route begins with the cities of `path`. */
  lemma CompletionExtends(g: Adjacency, end: string, path: seq<string>, cost: nat, r: Route)
    requires r in Completions(g, end, path, cost)
    ensures |path| <= |r.path| && r.path[..|path|] == path
  {
    var s: seq<string>, d: nat :| Continues(g, end, path, s, d) && r == Route(path + s[1..], cost + d, |path| + |s| - 3);
  }

  /**
   * A completion of `path` starts with a flight `e` out of its last city, and
   * is then also a completion of `path + [e.city]`.
   */
  lemma CompletionSplit(g: Adjacency, end: string, path: seq<string>, cost: nat, s: seq<string>, d: nat)
    returns (e: Edge)
    requires Continues(g, end, path, s, d) && |s| >= 2
    ensures e in Out(g, path[|path| - 1])
    ensures Route(path + s[1..], cost + d, |path| + |s| - 3) in Completions(g, end, path + [e.city], cost + e.cost)
  {
    e := WalkSplitFront(g, s, d);
    var rest := s[1..];
    assert (path + [e.city]) + rest[1..] == path + s[1..];
    assert Continues(g, end, path + [e.city], rest, d - e.cost);
  }

  /**
   * Conversely, for a flight `e` out of the last city of `path`, a
   * completion of `path + [e.city]` completes `path`.
   */
  lemma BranchCompletion(g: Adjacency, end: string, path: seq<string>, cost: nat, e: Edge, r: Route)
    requires |path| >= 1 && e in Out(g, path[|path| - 1])
    requires r in Completions(g, end, path + [e.city], cost + e.cost)
    ensures r in Completions(g, end, path, cost)
  {
    var q := path + [e.city];
    var t: seq<string>, d: nat :| Continues(g, end, q, t, d) && r == Route(q + t[1..], cost + e.cost + d, |q| + |t| - 3);
    var s := ContinuesPrepend(g, end, path, e, t, d);
    SpliceFirst(path, t);
    assert r == Route(path + s[1..], cost + (d + e.cost), |path| + |s| - 3);
  }

  /** Hence a walk completing `path + [e.city]`, with `e` put in front, completes `path`. */
  lemma ContinuesPrepend(g: Adjacency, end: string, path: seq<string>, e: Edge, t: seq<string>, d: nat)
    returns (s: seq<string>)
    requires |path| >= 1 && e in Out(g, path[|path| - 1])
    requires Continues(g, end, path + [e.city], t, d)
    ensures s == [path[|path| - 1]] + t && s[1..] == t
    ensures Continues(g, end, path, s, d + e.cost)
  {
    s := [path[|path| - 1]] + t;
    WalkPrepend(g, path[|path| - 1], e, t, d);
    SpliceFirst(path, t);
    assert s[1..] == t;
  }

  /** The completions of `path` extended by the flight `e`. */
  ghost function ThroughFlight(g: Adjacency, end: string, path: seq<string>, cost: nat, e: Edge): iset<Route>
  {
    Completions(g, end, path + [e.city], cost + e.cost)
  }

  /** The routes that complete `path` by way of one of the flights `neighbors[i..]`. */
  ghost function Onward(g: Adjacency, end: string, path: seq<string>, cost: nat,
                        neighbors: seq<Edge>, i: nat): iset<Route>
    requires i <= |neighbors|
  {
    iset j: nat, r | i <= j < |neighbors| && r in ThroughFlight(g, end, path, cost, neighbors[j]) :: r
  }

  /**
   * Every route the search appends completes `path`, when the cities before
   * the last are distinct and do not include `end` (as for every path the
   * search reaches from `[start]`).
   */
  lemma {:induction false} DfsRunSound(g: Adjacency, end: string, cap: nat, path: seq<string>, cost: nat,
                                       acc: seq<Route>)
    requires |path| >= 1 && Distinct(path[..|path| - 1]) && end !in path[..|path| - 1]
    ensures Recorded(DfsRun(g, end, cap, path, cost, acc)[|acc|..]) <= Completions(g, end, path, cost)
    decreases MaxDepth + 2 - |path|, 1, 0
  {
    var current := path[|path| - 1];
    var r := DfsRun(g, end, cap, path, cost, acc);
    if |path| > MaxDepth + 1 || (current != end && current in path[..|path| - 1]) {
      assert r[|acc|..] == [];
    } else if current == end {
      assert r[|acc|..] == [Route(path, cost, |path| - 2)];
      LastIsNew(path);
      assert path + [end][1..] == path;
      assert Continues(g, end, path, [end], 0);
    } else {
      var neighbors := Out(g, current);
      LastIsNew(path);
      LoopRunSound(g, end, cap, path, cost, neighbors, 0, acc);
      forall x | x in Recorded(r[|acc|..])
        ensures x in Completions(g, end, path, cost)
      {
        var j :| 0 <= j < |neighbors| && x in ThroughFlight(g, end, path, cost, neighbors[j]);
        BranchCompletion(g, end, path, cost, neighbors[j], x);
      }
    }
  }

  /** Every route the loop appends completes `path` through one of the flights it had left. */
  lemma {:induction false} LoopRunSound(g: Adjacency, end: string, cap: nat, path: seq<string>, cost: nat,
                                        neighbors: seq<Edge>, i: nat, acc: seq<Route>)
    requires 1 <= |path| <= MaxDepth + 1 && i <= |neighbors|
    requires Distinct(path) && end !in path
    ensures Recorded(LoopRun(g, end, cap, path, cost, neighbors, i, acc)[|acc|..]) <=
            Onward(g, end, path, cost, neighbors, i)
    decreases MaxDepth + 2 - |path|, 0, |neighbors| - i
  {
    var r := LoopRun(g, end, cap, path, cost, neighbors, i, acc);
    if i == |neighbors| {
      assert r[|acc|..] == [];
    } else {
      var q := path + [neighbors[i].city];
      var next := DfsRun(g, end, cap, q, cost + neighbors[i].cost, acc);
      assert q[..|q| - 1] == path;
      DfsRunSound(g, end, cap, q, cost + neighbors[i].cost, acc);
      if |next| < cap {
        LoopRunSound(g, end, cap, path, cost, neighbors, i + 1, next);
        assert r[|acc|..] == next[|acc|..] + r[|next|..];
      }
      forall x | x in Recorded(r[|acc|..])
        ensures x in Onward(g, end, path, cost, neighbors, i)
      {
        if x in next[|acc|..] {
          assert x in Recorded(next[|acc|..]);
          assert x in ThroughFlight(g, end, path, cost, neighbors[i]);
        } else {
          assert x in Recorded(r[|next|..]);
        }
      }
    }
  }

  /**
   * Unless the search ends with `cap` or more routes, it has recorded every
   * completion of `path`.
   */
  lemma {:induction false} DfsRunComplete(g: Adjacency, end: string, cap: nat, path: seq<string>, cost: nat,
                                          acc: seq<Route>)
    requires |path| >= 1
    ensures |DfsRun(g, end, cap, path, cost, acc)| < cap ==>
              Completions(g, end, path, cost) <= Recorded(DfsRun(g, end, cap, path, cost, acc))
    decreases MaxDepth + 2 - |path|, 1, 0
  {
    var current := path[|path| - 1];
    var r := DfsRun(g, end, cap, path, cost, acc);
    if |path| > MaxDepth + 1 {
      TooDeepBlocks(g, end, path, cost);
    } else if current == end {
      EndIsFinal(g, end, path, cost);
      assert r[|acc|] == Route(path, cost, |path| - 2);
    } else if current in path[..|path| - 1] {
      var k :| 0 <= k < |path| - 1 && path[k] == current;
      RepeatedCityBlocks(g, end, path, cost, k);
    } else {
      var neighbors := Out(g, current);
      LoopRunComplete(g, end, cap, path, cost, neighbors, 0, acc);
      if |r| < cap {
        forall x | x in Completions(g, end, path, cost)
          ensures x in Recorded(r)
        {
          var s: seq<string>, d: nat :| Continues(g, end, path, s, d) && x == Route(path + s[1..], cost + d, |path| + |s| - 3);
          assert |s| >= 2;
          var e := CompletionSplit(g, end, path, cost, s, d);
          var j :| 0 <= j < |neighbors| && neighbors[j] == e;
          assert x in ThroughFlight(g, end, path, cost, neighbors[j]);
        }
      }
    }
  }

  /**
   * Unless the loop ends with `cap` or more routes, it has recorded every
   * completion through the flights it had left.
   */
  lemma {:induction false} LoopRunComplete(g: Adjacency, end: string, cap: nat, path: seq<string>, cost: nat,
                                           neighbors: seq<Edge>, i: nat, acc: seq<Route>)
    requires 1 <= |path| <= MaxDepth + 1 && i <= |neighbors|
    ensures |LoopRun(g, end, cap, path, cost, neighbors, i, acc)| < cap ==>
              Onward(g, end, path, cost, neighbors, i) <= Recorded(LoopRun(g, end, cap, path, cost, neighbors, i, acc))
    decreases MaxDepth + 2 - |path|, 0, |neighbors| - i
  {
    var r := LoopRun(g, end, cap, path, cost, neighbors, i, acc);
    if i < |neighbors| && |r| < cap {
      var q := path + [neighbors[i].city];
      var next := DfsRun(g, end, cap, q, cost + neighbors[i].cost, acc);
      assert |next| <= |r| < cap;
      DfsRunComplete(g, end, cap, q, cost + neighbors[i].cost, acc);
      assert ThroughFlight(g, end, path, cost, neighbors[i]) <= Recorded(next);
      LoopRunComplete(g, end, cap, path, cost, neighbors, i + 1, next);
      forall x | x in Onward(g, end, path, cost, neighbors, i)
        ensures x in Recorded(r)
      {
        var j :| i <= j < |neighbors| && x in ThroughFlight(g, end, path, cost, neighbors[j]);
        if j == i {
          assert x in Recorded(next);
          var k :| 0 <= k < |next| && next[k] == x;
          assert r[k] == x;
        } else {
          assert x in Onward(g, end, path, cost, neighbors, i + 1);
        }
      }
    }
  }

  /** The destinations of `flights`, in order. */
  ghost function Cities(flights: seq<Edge>): seq<string>
  {
    seq(|flights|, k requires 0 <= k < |flights| => flights[k].city)
  }

  /** No city has two flights to the same destination. */
  ghost predicate NoParallelFlights(g: Adjacency)
  {
    forall u :: u in g ==> Distinct(Cities(g[u]))
  }

  /**
   * Without parallel flights, the search appends no route twice: routes
   * through different flights out of a city part at the next city.
   */
  lemma {:induction false} DfsRunNoRepeats(g: Adjacency, end: string, cap: nat, path: seq<string>, cost: nat,
                                           acc: seq<Route>)
    requires |path| >= 1 && Distinct(path[..|path| - 1]) && end !in path[..|path| - 1]
    requires NoParallelFlights(g)
    ensures NoRepeats(DfsRun(g, end, cap, path, cost, acc)[|acc|..])
    decreases MaxDepth + 2 - |path|, 1, 0
  {
    var current := path[|path| - 1];
    var r := DfsRun(g, end, cap, path, cost, acc);
    if |path| > MaxDepth + 1 || (current != end && current in path[..|path| - 1]) {
      assert r[|acc|..] == [];
    } else if current == end {
      assert r[|acc|..] == [Route(path, cost, |path| - 2)];
    } else {
      LastIsNew(path);
      LoopRunNoRepeats(g, end, cap, path, cost, Out(g, current), 0, acc);
    }
  }

  /**
   * Without parallel flights, no completion through the flight at index `i`
   * is a completion through a later flight: they part at the next city.
   */
  lemma FlightsPart(g: Adjacency, end: string, path: seq<string>, cost: nat, neighbors: seq<Edge>, i: nat,
                    early: seq<Route>, late: seq<Route>)
    requires |path| >= 1 && i < |neighbors| && neighbors == Out(g, path[|path| - 1])
    requires NoParallelFlights(g)
    requires Recorded(early) <= ThroughFlight(g, end, path, cost, neighbors[i])
    requires Recorded(late) <= Onward(g, end, path, cost, neighbors, i + 1)
    ensures forall x :: x in early ==> x !in late
  {
    var q := path + [neighbors[i].city];
    assert neighbors == g[path[|path| - 1]];
    forall x | x in early
      ensures |x.path| > |path| && x.path[|path|] == neighbors[i].city
    {
      assert x in Recorded(early);
      CompletionExtends(g, end, q, cost + neighbors[i].cost, x);
      assert x.path[|path|] == x.path[..|q|][|path|];
    }
    forall y | y in late
      ensures |y.path| > |path| && y.path[|path|] != neighbors[i].city
    {
      assert y in Recorded(late);
      var j :| i + 1 <= j < |neighbors| && y in ThroughFlight(g, end, path, cost, neighbors[j]);
      CompletionExtends(g, end, path + [neighbors[j].city], cost + neighbors[j].cost, y);
      assert y.path[|path|] == y.path[..|path| + 1][|path|] == Cities(neighbors)[j];
      assert Cities(neighbors)[i] != Cities(neighbors)[j];
    }
  }

  /** Without parallel flights, the loop appends no route twice. */
  lemma {:induction false} LoopRunNoRepeats(g: Adjacency, end: string, cap: nat, path: seq<string>, cost: nat,
                                            neighbors: seq<Edge>, i: nat, acc: seq<Route>)
    requires 1 <= |path| <= MaxDepth + 1 && i <= |neighbors|
    requires Distinct(path) && end !in path
    requires NoParallelFlights(g) && neighbors == Out(g, path[|path| - 1])
    ensures NoRepeats(LoopRun(g, end, cap, path, cost, neighbors, i, acc)[|acc|..])
    decreases MaxDepth + 2 - |path|, 0, |neighbors| - i
  {
    var r := LoopRun(g, end, cap, path, cost, neighbors, i, acc);
    if i == |neighbors| {
      assert r[|acc|..] == [];
    } else {
      var q := path + [neighbors[i].city];
      var next := DfsRun(g, end, cap, q, cost + neighbors[i].cost, acc);
      assert q[..|q| - 1] == path;
      DfsRunNoRepeats(g, end, cap, q, cost + neighbors[i].cost, acc);
      if |next| < cap {
        LoopRunNoRepeats(g, end, cap, path, cost, neighbors, i + 1, next);
        DfsRunSound(g, end, cap, q, cost + neighbors[i].cost, acc);
        LoopRunSound(g, end, cap, path, cost, neighbors, i + 1, next);
        FlightsPart(g, end, path, cost, neighbors, i, next[|acc|..], r[|next|..]);
        assert r[|acc|..] == next[|acc|..] + r[|next|..];
        NoRepeatsConcat(next[|acc|..], r[|next|..]);
      }
    }
  }

  /** Every edge leads to a city that has an adjacency list. */
  ghost predicate Closed(g: Adjacency)
  {
    forall v, e :: v in g && e in g[v] ==> e.city in g
  }

  /** script.js's `Graph`: a map from each city to its outgoing flights. */
  class Graph {
    var edges: Adjacency

    /**
     * What `addVertex` and `addEdge` keep true: every flight leads to a city
     * with a list of its own.  It records that guarantee only; the search
     * does not need it, since `Out` gives a city without a list no flights.
     */
    ghost predicate Valid()
      reads this
    {
      Closed(edges)
    }

    constructor ()
      ensures Valid() && edges == map[]
    {
      edges := map[];
    }

    /** Gives a city an empty list unless it already has one. */
    method AddVertex(vertex: string)
      modifies this
      ensures vertex in edges
      ensures vertex in old(edges) ==> edges == old(edges)
      ensures vertex !in old(edges) ==> edges == old(edges)[vertex := []]
      ensures old(Valid()) ==> Valid()
    {
      if vertex !in edges {
        edges := edges[vertex := []];
      }
    }

    /**
     * Makes both endpoints vertices and appends exactly one flight to the
     * source's list; every other list is left as it was.
     */
    method AddEdge(source: string, destination: string, cost: nat)
      modifies this
      ensures edges.Keys == old(edges).Keys + {source, destination}
      ensures edges[source] == Out(old(edges), source) + [Edge(destination, cost)]
      ensures forall v :: v in edges && v != source ==> edges[v] == Out(old(edges), v)
      ensures old(Valid()) ==> Valid()
    {
      AddVertex(source);
      AddVertex(destination);
      edges := edges[source := edges[source] + [Edge(destination, cost)]];
    }
  }

  /**
   * The state `findAllRoutes` shares with its inner `dfs`: the graph and the
   * request, the set of cities on the current path, and the routes recorded
   * so far.
   */
  class RouteSearch {
    const edges: Adjacency
    const end: string
    const maxRoutes: nat
    var visited: set<string>
    var routes: seq<Route>

    constructor (edges: Adjacency, end: string, maxRoutes: nat)
      ensures this.edges == edges && this.end == end && this.maxRoutes == maxRoutes
      ensures visited == {} && routes == []
    {
      this.edges := edges;
      this.end := end;
      this.maxRoutes := maxRoutes;
      visited := {};
      routes := [];
    }

    /**
     * `dfs(current, path, cost, depth)`, entered with `depth` flights behind
     * it and with the cities before `current` as the visited set: it leaves
     * `visited` as it found it and `routes` as `DfsRun` says.
     */
    method Dfs(current: string, path: seq<string>, cost: nat, depth: nat)
      requires |path| == depth + 1 && path[depth] == current
      requires visited == Elems(path[..depth])
      modifies this
      ensures visited == old(visited)
      ensures routes == DfsRun(edges, end, maxRoutes, path, cost, old(routes))
      decreases MaxDepth + 1 - depth, 1
    {
      if depth > MaxDepth {
        return;
      }
      if current == end {
        routes := routes + [Route(path, cost, |path| - 2)];
        return;
      }
      if current in visited {
        return;
      }
      Explore(current, path, cost, depth);
    }

    /**
     * The rest of `dfs` once the guards have passed: mark `current` visited,
     * search through each flight out of it until `maxRoutes` routes are
     * recorded, and unmark it; `routes` ends as `LoopRun` says.
     */
    method Explore(current: string, path: seq<string>, cost: nat, depth: nat)
      requires |path| == depth + 1 && path[depth] == current
      requires depth <= MaxDepth && current != end
      requires visited == Elems(path[..depth]) && current !in visited
      modifies this
      ensures visited == old(visited)
      ensures routes == LoopRun(edges, end, maxRoutes, path, cost, Out(edges, current), 0, old(routes))
      decreases MaxDepth + 1 - depth, 0
    {
      ElemsOfLast(path);
      visited := visited + {current};
      var neighbors := Out(edges, current);
      var i := 0;
      while i < |neighbors|
        invariant i <= |neighbors|
        invariant visited == Elems(path)
        invariant LoopRun(edges, end, maxRoutes, path, cost, neighbors, i, routes) ==
                  LoopRun(edges, end, maxRoutes, path, cost, neighbors, 0, old(routes))
      {
        var neighbor := neighbors[i];
        assert (path + [neighbor.city])[..depth + 1] == path;
        Dfs(neighbor.city, path + [neighbor.city], cost + neighbor.cost, depth + 1);
        i := i + 1;
        if |routes| >= maxRoutes {
          break;
        }
      }
      visited := visited - {current};
    }
  }

  /**
   * The comparator handed to `routes.sort`: negative exactly when `a` is
   * cheaper, or as cheap with fewer layovers; zero exactly when both tie.
   */
  function Compare(a: Route, b: Route): (r: int)
    ensures r < 0 <==> a.cost < b.cost || (a.cost == b.cost && a.layovers < b.layovers)
    ensures r == 0 <==> a.cost == b.cost && a.layovers == b.layovers
  {
    if a.cost != b.cost then a.cost - b.cost else a.layovers - b.layovers
  }

  /** Ascending by cost, and by layovers among equal costs. */
  ghost predicate Sorted(s: seq<Route>)
  {
    forall i, j :: 0 <= i < j < |s| ==> Compare(s[i], s[j]) <= 0
  }

  method Swap(a: array<Route>, i: nat, j: nat)
    requires i < a.Length && j < a.Length
    modifies a
    ensures a[..] == old(a[..])[i := old(a[j])][j := old(a[i])]
    ensures multiset(a[..]) == multiset(old(a[..]))
  {
    a[i], a[j] := a[j], a[i];
  }

  /** `routes.sort(...)`, in place: the result is ordered and a permutation. */
  method SortRoutes(a: array<Route>)
    modifies a
    ensures Sorted(a[..])
    ensures multiset(a[..]) == multiset(old(a[..]))
  {
    var i := 0;
    while i < a.Length
      invariant 0 <= i <= a.Length
      invariant forall k, l :: 0 <= k < l < i ==> Compare(a[k], a[l]) <= 0
      invariant multiset(a[..]) == multiset(old(a[..]))
    {
      var j := i;
      while j > 0 && Compare(a[j - 1], a[j]) > 0
        invariant 0 <= j <= i
        invariant forall k, l :: 0 <= k < l <= i && l != j ==> Compare(a[k], a[l]) <= 0
        invariant multiset(a[..]) == multiset(old(a[..]))
        decreases j
      {
        Swap(a, j - 1, j);
        j := j - 1;
      }
      if j > 0 {
        forall k | 0 <= k < j
          ensures Compare(a[k], a[j]) <= 0
        {
          assert Compare(a[k], a[j - 1]) <= 0;
        }
      }
      i := i + 1;
    }
  }

  function Min(a: nat, b: nat): nat
  {
    if a <= b then a else b
  }

  /**
   * The search half of `findAllRoutes`: a fresh `routes` and `visited`, and
   * `dfs(start, [start], 0, 0)`.  Every route found is valid, at most
   * `maxRoutes` are found (at most one when `maxRoutes` is 0), none is missed
   * unless the cap was reached, and none is found twice when no city has
   * parallel flights.
   */
  method Search(graph: Graph, start: string, end: string, maxRoutes: nat) returns (found: seq<Route>)
    ensures forall r :: r in found ==> IsRecordedRoute(graph.edges, start, end, r)
    ensures maxRoutes > 0 ==> |found| <= maxRoutes
    ensures maxRoutes == 0 ==> |found| <= 1
    ensures maxRoutes > 0 && |found| < maxRoutes ==>
              forall r :: IsRecordedRoute(graph.edges, start, end, r) ==> r in found
    ensures start == end ==> found == [Route([start], 0, -1)]
    ensures NoParallelFlights(graph.edges) ==> Distinct(found)
  {
    var search := new RouteSearch(graph.edges, end, maxRoutes);
    assert [start][..0] == [];
    search.Dfs(start, [start], 0, 0);
    found := search.routes;
    assert found[0..] == found;
    DfsRunSound(graph.edges, end, maxRoutes, [start], 0, []);
    DfsRunComplete(graph.edges, end, maxRoutes, [start], 0, []);
    CompletionsFromStart(graph.edges, start, end);
    forall r | r in found
      ensures IsRecordedRoute(graph.edges, start, end, r)
    {
      assert r in Recorded(found);
    }
    if maxRoutes > 0 && |found| < maxRoutes {
      forall r | IsRecordedRoute(graph.edges, start, end, r)
        ensures r in found
      {
        assert r in Completions(graph.edges, end, [start], 0);
        assert r in Recorded(found);
      }
    }
    if NoParallelFlights(graph.edges) {
      DfsRunNoRepeats(graph.edges, end, maxRoutes, [start], 0, []);
      NoRepeatsDistinct(found);
    }
  }

  /**
   * `findAllRoutes(graph, start, end, maxRoutes)`.  `recorded` are the routes
   * the search pushed, in discovery order, and `ranked` is them after the
   * sort; the result is the first `maxRoutes` of `ranked`.
   */
  method FindAllRoutes(graph: Graph, start: string, end: string, maxRoutes: nat)
    returns (result: seq<Route>, ghost recorded: seq<Route>, ghost ranked: seq<Route>)
    ensures forall r :: r in recorded ==> IsRecordedRoute(graph.edges, start, end, r)
    ensures maxRoutes > 0 ==> |recorded| <= maxRoutes
    ensures multiset(ranked) == multiset(recorded) && Sorted(ranked)
    ensures result == ranked[..Min(|ranked|, maxRoutes)]
    ensures |result| <= maxRoutes && forall r :: r in result ==> r in recorded
    ensures maxRoutes > 0 && |recorded| < maxRoutes ==>
              forall r :: IsRecordedRoute(graph.edges, start, end, r) ==> r in recorded
    ensures start == end && maxRoutes > 0 ==> result == [Route([start], 0, -1)]
    ensures NoParallelFlights(graph.edges) ==> Distinct(recorded) && Distinct(result)
  {
    var routes := Search(graph, start, end, maxRoutes);
    recorded := routes;
    var a := new Route[|routes|](i requires 0 <= i < |routes| => routes[i]);
    assert a[..] == routes;
    SortRoutes(a);
    ranked := a[..];
    result := a[..Min(a.Length, maxRoutes)];
    if start == end && maxRoutes > 0 {
      PermutationOfOne(ranked, Route([start], 0, -1));
      assert result == ranked[..1];
    }
    if NoParallelFlights(graph.edges) {
      DistinctNoRepeats(recorded);
      NoRepeatsDistinct(ranked);
    }
    forall r | r in result
      ensures r in recorded
    {
      assert r in multiset(ranked);
    }
  }
}
