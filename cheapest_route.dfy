/**
 * The cheapest-route engine of graph.js: the `FlightGraph` class and its
 * `findCheapestRoute`, Dijkstra's algorithm with a linear scan over the
 * unvisited cities in insertion order, an early exit once the destination is
 * selected, and the path rebuilt from the predecessor links.
 */
module CheapestRoute {
  import opened Flights

  /** A tentative distance: JavaScript's `Infinity` or a finite cost. */
  datatype Dist = Inf | Fin(n: nat)

  /** JavaScript's `<` on costs and `Infinity`. */
  predicate Less(a: Dist, b: Dist)
  {
    match (a, b)
    case (Fin(x), Fin(y)) => x < y
    case (Fin(_), Inf) => true
    case (Inf, _) => false
  }

  predicate AtMost(a: Dist, b: Dist)
  {
    !Less(b, a)
  }

  /**
   * `<` on costs and `Infinity` is a strict total order with `Infinity` on
   * top: what the selection scan's running minimum and relaxation rely on.
   */
  lemma LessOrder(a: Dist, b: Dist, c: Dist)
    ensures !Less(a, a)
    ensures Less(a, b) ==> !Less(b, a)
    ensures Less(a, b) && Less(b, c) ==> Less(a, c)
    ensures a == b || Less(a, b) || Less(b, a)
    ensures !Less(Inf, a) && (a.Fin? <==> Less(a, Inf))
  {
  }

  /**
   * `distances.get(city)` as the selection scan sees it: there the lookup is
   * the left operand of `<`, so a city without a distance compares like
   * `Infinity` (`undefined < x` is false, as is `Infinity < x` for every
   * candidate minimum).  Relaxation does not use it: `alt < undefined` is
   * false where `alt < Infinity` is true, so `Relax` skips a target without
   * a distance.
   */
  function DistOf(dist: map<string, Dist>, city: string): Dist
  {
    if city in dist then dist[city] else Inf
  }

  /**
   * A city without a distance: `distances.get(city)` is `undefined`, which
   * as the left operand of `<` loses to every candidate, exactly like
   * `Infinity`.  As the right operand it beats no finite `alt`, whereas
   * `DistOf` would let every finite `alt` beat it; so relaxation does not
   * look distances up through `DistOf`.
   */
  lemma MissingDistance(dist: map<string, Dist>, city: string, alt: nat, x: Dist)
    requires city !in dist
    ensures Get(dist, city).None?
    ensures DistOf(dist, city) == Inf && !Less(DistOf(dist, city), x)
    ensures Less(Fin(alt), DistOf(dist, city))
  {
  }

  /** `{ path, cost }`; `cost` is `None` where the code returns `undefined`. */
  datatype CheapestRoute = CheapestRoute(path: seq<string>, cost: Option<Dist>)

  /** `s` without `x`: `Set.delete` keeps the other cities in their order. */
  function Without(s: seq<string>, x: string): (r: seq<string>)
    ensures forall y :: y in r <==> y in s && y != x
    ensures Distinct(s) ==> Distinct(r)
    ensures Distinct(s) && x in s ==> |r| == |s| - 1
    ensures x !in s ==> r == s
  {
    if s == [] then []
    else if s[0] == x then Without(s[1..], x)
    else
      assert Distinct(s) ==> s[0] !in s[1..];
      [s[0]] + Without(s[1..], x)
  }

  /**
   * In a sequence of distinct cities, `Without` cuts `x` out at its one
   * position and leaves the others in their order: what the next scans see
   * and tie-break on.
   */
  lemma {:induction false} WithoutCutsOut(s: seq<string>, x: string, k: nat)
    requires Distinct(s) && k < |s| && s[k] == x
    ensures Without(s, x) == s[..k] + s[k + 1..]
    decreases |s|
  {
    if k == 0 {
      assert x !in s[1..];
      assert s[..0] + s[1..] == s[1..];
    } else {
      assert s[1..][k - 1] == x;
      WithoutCutsOut(s[1..], x, k - 1);
      assert s[0] != x;
      assert [s[0]] + (s[1..][..k - 1] + s[1..][k..]) == s[..k] + s[k + 1..];
    }
  }

  /**
   * `s + [x]` unless `x` is already there: a `Map` gains a new key at the end
   * of its insertion order and leaves an existing key where it was.
   */
  function Insert(s: seq<string>, x: string): (r: seq<string>)
    ensures forall y :: y in r <==> y in s || y == x
    ensures x in s ==> r == s
    ensures x !in s ==> |r| == |s| + 1 && r[..|s|] == s && r[|s|] == x
    ensures Distinct(s) ==> Distinct(r)
  {
    if x in s then s else s + [x]
  }

  /**
   * `r` is what the selection scan must pick from `unvisited`: `None` exactly
   * when every distance there is infinite, and otherwise the FIRST city whose
   * finite distance is strictly smaller than every earlier one and no larger
   * than any later one.
   */
  ghost predicate IsFirstMinimum(unvisited: seq<string>, dist: map<string, Dist>, r: Option<string>)
  {
    && (r.None? <==> forall j :: 0 <= j < |unvisited| ==> DistOf(dist, unvisited[j]) == Inf)
    && (r.Some? ==>
          exists k :: 0 <= k < |unvisited| && unvisited[k] == r.value &&
                      DistOf(dist, r.value).Fin? &&
                      (forall j :: 0 <= j < k ==> Less(DistOf(dist, r.value), DistOf(dist, unvisited[j]))) &&
                      (forall j :: 0 <= j < |unvisited| ==> AtMost(DistOf(dist, r.value), DistOf(dist, unvisited[j]))))
  }

  /** The tie-breaking rule leaves no choice: the selection is unique. */
  lemma FirstMinimumUnique(unvisited: seq<string>, dist: map<string, Dist>, r1: Option<string>, r2: Option<string>)
    requires IsFirstMinimum(unvisited, dist, r1) && IsFirstMinimum(unvisited, dist, r2)
    ensures r1 == r2
  {
  }

  /**
   * The selection scan: walks `unvisited` in order and takes a city only when
   * its distance is strictly below the best so far, starting from `Infinity`.
   */
  method SelectMin(unvisited: seq<string>, dist: map<string, Dist>) returns (current: Option<string>)
    ensures IsFirstMinimum(unvisited, dist, current)
    ensures current.Some? ==> current.value in unvisited && DistOf(dist, current.value).Fin?
  {
    current := None;
    var minDistance := Inf;
    ghost var k := 0;
    for i := 0 to |unvisited|
      invariant current.None? ==> minDistance == Inf
      invariant current.None? ==> forall j :: 0 <= j < i ==> DistOf(dist, unvisited[j]) == Inf
      invariant current.Some? ==>
                  && 0 <= k < i && unvisited[k] == current.value
                  && minDistance == DistOf(dist, current.value) && minDistance.Fin?
                  && (forall j :: 0 <= j < k ==> Less(minDistance, DistOf(dist, unvisited[j])))
                  && (forall j :: 0 <= j < i ==> AtMost(minDistance, DistOf(dist, unvisited[j])))
    {
      var d := DistOf(dist, unvisited[i]);
      if Less(d, minDistance) {
        current := Some(unvisited[i]);
        minDistance := d;
        k := i;
      }
    }
  }

  /** Some flight `u -> v` accounts exactly for `v`'s distance from `u`'s. */
  ghost predicate Linked(g: Adjacency, dist: map<string, Dist>, u: string, v: string)
  {
    && u in dist && v in dist && dist[u].Fin?
    && exists e :: e in Out(g, u) && e.city == v && dist[v] == Fin(dist[u].n + e.cost)
  }

  /**
   * What the neighbour loop of one step leaves behind, with `current` at a
   * finite distance: distances only decrease, `current`'s own included never;
   * every flight `current -> v` to a known city bounds `v`'s new distance by
   * `distances[current] + cost`; a distance that changed did so strictly, is
   * accounted for by one of those flights, and now has `current` as its
   * predecessor; wherever the distance did not change, neither did
   * `previous`.
   */
  ghost predicate RelaxedBy(neighbors: seq<Edge>, current: string,
                            dist: map<string, Dist>, prev: map<string, string>,
                            dist': map<string, Dist>, prev': map<string, string>)
    requires current in dist && dist[current].Fin?
  {
    && dist'.Keys == dist.Keys
    && dist'[current] == dist[current]
    && (forall v :: v in dist ==> AtMost(dist'[v], dist[v]))
    && (forall e :: e in neighbors && e.city in dist ==>
          AtMost(dist'[e.city], Fin(dist[current].n + e.cost)))
    && (forall v :: v in dist && dist'[v] != dist[v] ==>
          && Less(dist'[v], dist[v])
          && exists e :: e in neighbors && e.city == v && dist'[v] == Fin(dist[current].n + e.cost))
    && (forall v {:trigger Get(prev', v)} ::
          Get(prev', v) == if v in dist && dist'[v] != dist[v] then Some(current) else Get(prev, v))
  }

  /**
   * The neighbour loop of one step: for each flight `current -> v`, when
   * `distances[current] + cost` is strictly below `v`'s distance, it becomes
   * `v`'s distance and `previous[v]` becomes `current`.
   */
  method Relax(neighbors: seq<Edge>, current: string, dist: map<string, Dist>, prev: map<string, string>)
    returns (dist': map<string, Dist>, prev': map<string, string>)
    requires current in dist && dist[current].Fin?
    ensures RelaxedBy(neighbors, current, dist, prev, dist', prev')
  {
    dist', prev' := dist, prev;
    for i := 0 to |neighbors|
      invariant dist'.Keys == dist.Keys
      invariant dist'[current] == dist[current]
      invariant forall v :: v in dist ==> AtMost(dist'[v], dist[v])
      invariant forall j :: 0 <= j < i && neighbors[j].city in dist ==>
                  AtMost(dist'[neighbors[j].city], Fin(dist[current].n + neighbors[j].cost))
      invariant forall v :: v in dist && dist'[v] != dist[v] ==>
                  && Less(dist'[v], dist[v])
                  && exists e :: e in neighbors && e.city == v && dist'[v] == Fin(dist[current].n + e.cost)
      invariant forall v {:trigger Get(prev', v)} ::
                  Get(prev', v) == if v in dist && dist'[v] != dist[v] then Some(current) else Get(prev, v)
    {
      var neighbor := neighbors[i];
      var altDistance := Fin(dist'[current].n + neighbor.cost);
      if neighbor.city in dist' && Less(altDistance, dist'[neighbor.city]) {
        ghost var prev0 := prev';
        dist' := dist'[neighbor.city := altDistance];
        prev' := prev'[neighbor.city := current];
        forall v ensures Get(prev', v) == if v in dist && dist'[v] != dist[v] then Some(current) else Get(prev, v) {
          assert v != neighbor.city ==> Get(prev', v) == Get(prev0, v);
        }
      }
    }
    forall e | e in neighbors && e.city in dist
      ensures AtMost(dist'[e.city], Fin(dist[current].n + e.cost))
    {
      var j :| 0 <= j < |neighbors| && neighbors[j] == e;
    }
  }

  /** `Map.get`: `undefined`, here `None`, for a key the map does not hold. */
  function Get<V>(m: map<string, V>, k: string): Option<V>
  {
    if k in m then Some(m[k]) else None
  }

  /** `s`'s distance is finite and no walk from `start` to `s` is cheaper. */
  ghost predicate Optimal(g: Adjacency, start: string, dist: map<string, Dist>, s: string)
  {
    && s in dist && dist[s].Fin?
    && forall p, c :: Connects(g, p, c, start, s) ==> dist[s].n <= c
  }

  /**
   * Dijkstra's frontier: every city with flights or still unvisited has a
   * distance, every city with a distance that is not unvisited is settled,
   * `start` sits at 0, settled cities are optimal, and every flight out of a
   * settled city has been relaxed.
   */
  ghost predicate Frontier(g: Adjacency, start: string, dist: map<string, Dist>,
                           unvisited: seq<string>, settled: map<string, nat>)
  {
    && (forall u :: u in g ==> u in dist)
    && (forall u :: u in unvisited ==> u in dist)
    && (forall u :: u in dist && u !in unvisited ==> u in settled)
    && (start in dist ==> dist[start] == Fin(0))
    && (forall s :: s in settled ==> Optimal(g, start, dist, s))
    && (forall s, e :: s in settled && e in Out(g, s) ==>
          e.city in dist && dist[s].Fin? && AtMost(dist[e.city], Fin(dist[s].n + e.cost)))
  }

  /**
   * Every walk from `start` into the unvisited cities passes a first
   * unvisited city `w`, whose distance is already at most the walk's cost.
   */
  lemma {:induction false} FirstUnvisited(g: Adjacency, start: string, dist: map<string, Dist>,
                                          unvisited: seq<string>, settled: map<string, nat>,
                                          p: seq<string>, c: nat, v: string)
    returns (w: string)
    requires Frontier(g, start, dist, unvisited, settled)
    requires Connects(g, p, c, start, v) && v in unvisited
    ensures w in p && w in unvisited && dist[w].Fin? && dist[w].n <= c
    decreases |p|
  {
    if |p| == 1 {
      w := start;
    } else {
      var u := p[|p| - 2];
      var e :| e in Out(g, u) && e.city == v && e.cost <= c && IsWalk(g, p[..|p| - 1], c - e.cost);
      var q := p[..|p| - 1];
      assert Connects(g, q, c - e.cost, start, u);
      if u in unvisited {
        w := FirstUnvisited(g, start, dist, unvisited, settled, q, c - e.cost, u);
      } else {
        assert u in settled;
        w := v;
      }
    }
  }

  /**
   * Whenever a walk from `start` ends at an unvisited city, the scan selects
   * some city, and the selected distance is at most the walk's cost: a city
   * is final the moment it is selected, early exit included.
   */
  lemma MinimumIsOptimal(g: Adjacency, start: string, dist: map<string, Dist>,
                         unvisited: seq<string>, settled: map<string, nat>,
                         sel: Option<string>, p: seq<string>, c: nat, v: string)
    requires Frontier(g, start, dist, unvisited, settled)
    requires IsFirstMinimum(unvisited, dist, sel)
    requires Connects(g, p, c, start, v) && v in unvisited
    ensures sel.Some? && DistOf(dist, sel.value).Fin? && DistOf(dist, sel.value).n <= c
  {
    var w := FirstUnvisited(g, start, dist, unvisited, settled, p, c, v);
    var i :| 0 <= i < |unvisited| && unvisited[i] == w;
    assert DistOf(dist, unvisited[i]) != Inf;
  }

  /**
   * When the main loop stops, because nothing is left, because every
   * remaining distance is infinite, or because `end` was selected, the
   * distance of `end` bounds every walk from `start` to `end`.
   */
  lemma EndSettled(g: Adjacency, start: string, end: string, dist: map<string, Dist>,
                   unvisited: seq<string>, settled: map<string, nat>, sel: Option<string>)
    requires Frontier(g, start, dist, unvisited, settled)
    requires IsFirstMinimum(unvisited, dist, sel) && (sel.None? || sel.value == end)
    requires end in dist
    ensures forall p, c :: Connects(g, p, c, start, end) ==> dist[end].Fin? && dist[end].n <= c
  {
    forall p, c | Connects(g, p, c, start, end)
      ensures dist[end].Fin? && dist[end].n <= c
    {
      if end in unvisited {
        MinimumIsOptimal(g, start, dist, unvisited, settled, sel, p, c, end);
      } else {
        assert Optimal(g, start, dist, end);
      }
    }
  }

  /**
   * Only `start` reaches a finite distance without a predecessor.  (Stated
   * on `previous.get(v)` so that the solver follows the chain one link at a
   * time.)
   */
  ghost predicate Rooted(start: string, dist: map<string, Dist>, prev: map<string, string>)
  {
    forall v {:trigger Get(prev, v)} ::
      v in dist && dist[v].Fin? && Get(prev, v).None? ==> v == start
  }

  /**
   * The state of `findCheapestRoute`'s main loop.  `settled` gives each city
   * already deleted from `unvisited` the step at which it was deleted, and
   * `final` the distance it had then.  Besides `Frontier`: `unvisited` keeps
   * distinct nodes; a settled city's distance never changes again and is at
   * most any unvisited one; every predecessor was settled, strictly before
   * its successor if that is settled too, and a flight from it accounts for
   * the successor's distance; `start` has no predecessor.
   */
  ghost predicate DijkstraState(g: Adjacency, nodes: seq<string>, start: string,
                                dist: map<string, Dist>, prev: map<string, string>,
                                unvisited: seq<string>, settled: map<string, nat>,
                                final: map<string, nat>, step: nat)
  {
    && (forall v :: v in dist <==> v in nodes)
    && Distinct(unvisited) && (forall v :: v in unvisited ==> v in nodes)
    && (forall v :: v in settled ==> v in nodes && v !in unvisited)
    && step + |unvisited| == |nodes|
    && (forall v :: v in settled ==> settled[v] < step)
    && start !in prev
    && Rooted(start, dist, prev)
    && (forall v :: v in prev ==>
          prev[v] in settled && (v in settled ==> settled[prev[v]] < settled[v]))
    && (forall v :: v in prev ==> Linked(g, dist, prev[v], v))
    && (forall s :: s in settled ==> s in final && dist[s] == Fin(final[s]))
    && (forall s, v :: s in settled && v in unvisited ==> AtMost(dist[s], dist[v]))
    && Frontier(g, start, dist, unvisited, settled)
  }

  /**
   * The city selected by the scan is unvisited and no farther than any
   * unvisited city; relaxing its flights leaves every settled distance alone
   * and changes only unvisited cities other than itself.
   */
  lemma SelectionFacts(g: Adjacency, nodes: seq<string>, start: string,
                       dist: map<string, Dist>, prev: map<string, string>,
                       unvisited: seq<string>, settled: map<string, nat>,
                       final: map<string, nat>, step: nat, c: string,
                       dist': map<string, Dist>, prev': map<string, string>)
    requires DijkstraState(g, nodes, start, dist, prev, unvisited, settled, final, step)
    requires IsFirstMinimum(unvisited, dist, Some(c))
    requires c in dist && dist[c].Fin?
    requires RelaxedBy(Out(g, c), c, dist, prev, dist', prev')
    ensures c in unvisited && c !in settled
    ensures forall v :: v in unvisited ==> AtMost(dist[c], dist[v])
    ensures forall s :: s in settled ==> dist'[s] == dist[s] && AtMost(dist[s], dist[c])
    ensures forall v :: v in dist && dist'[v] != dist[v] ==> v != c && v !in settled
  {
    var k :| 0 <= k < |unvisited| && unvisited[k] == c &&
             (forall j :: 0 <= j < |unvisited| ==> AtMost(DistOf(dist, c), DistOf(dist, unvisited[j])));
    forall v | v in unvisited
      ensures AtMost(dist[c], dist[v])
    {
      var j :| 0 <= j < |unvisited| && unvisited[j] == v;
    }
    forall s | s in settled
      ensures dist'[s] == dist[s] && AtMost(dist[s], dist[c])
    {
      assert AtMost(dist[s], dist[c]);
    }
  }

  /** The city selected by the scan is optimal: no route reaches it for less. */
  lemma SelectedIsOptimal(g: Adjacency, nodes: seq<string>, start: string,
                          dist: map<string, Dist>, prev: map<string, string>,
                          unvisited: seq<string>, settled: map<string, nat>,
                          final: map<string, nat>, step: nat, c: string)
    requires DijkstraState(g, nodes, start, dist, prev, unvisited, settled, final, step)
    requires IsFirstMinimum(unvisited, dist, Some(c))
    requires c in dist && dist[c].Fin?
    ensures forall p, cost :: Connects(g, p, cost, start, c) ==> dist[c].n <= cost
  {
    forall p, cost | Connects(g, p, cost, start, c)
      ensures dist[c].n <= cost
    {
      MinimumIsOptimal(g, start, dist, unvisited, settled, Some(c), p, cost, c);
    }
  }

  /** Relaxing keeps `start` at the root of the predecessor forest. */
  lemma StepKeepsRoot(g: Adjacency, start: string, c: string,
                      dist: map<string, Dist>, prev: map<string, string>,
                      dist': map<string, Dist>, prev': map<string, string>)
    requires c in dist && dist[c].Fin?
    requires start !in prev && Rooted(start, dist, prev)
    requires start in dist ==> dist[start] == Fin(0)
    requires RelaxedBy(Out(g, c), c, dist, prev, dist', prev')
    ensures start !in prev' && Rooted(start, dist', prev')
  {
    assert Get(prev', start) == Get(prev, start);
    forall v | v in dist' && dist'[v].Fin? && Get(prev', v).None?
      ensures v == start
    {
      assert Get(prev, v).None?;
    }
  }

  /**
   * Relaxing from `c`, settled at `step`, keeps every predecessor settled
   * before its successor and accounting for the successor's distance.
   */
  lemma StepKeepsLinks(g: Adjacency, c: string, step: nat, settled: map<string, nat>,
                       dist: map<string, Dist>, prev: map<string, string>,
                       dist': map<string, Dist>, prev': map<string, string>)
    requires c in dist && dist[c].Fin? && c !in settled
    requires RelaxedBy(Out(g, c), c, dist, prev, dist', prev')
    requires forall v :: v in settled ==> v in dist && settled[v] < step
    requires forall v :: v in prev ==>
               prev[v] in settled && (v in settled ==> settled[prev[v]] < settled[v])
    requires forall v :: v in prev ==> Linked(g, dist, prev[v], v)
    requires forall s :: s in settled ==> dist'[s] == dist[s]
    requires forall v :: v in dist && dist'[v] != dist[v] ==> v != c && v !in settled
    ensures forall v :: v in prev' ==>
              && prev'[v] in settled[c := step]
              && (v in settled[c := step] ==> settled[c := step][prev'[v]] < settled[c := step][v])
    ensures forall v :: v in prev' ==> Linked(g, dist', prev'[v], v)
  {
    var settled' := settled[c := step];
    forall v | v in prev'
      ensures prev'[v] in settled' && (v in settled' ==> settled'[prev'[v]] < settled'[v])
      ensures Linked(g, dist', prev'[v], v)
    {
      assert Get(prev', v) == if v in dist && dist'[v] != dist[v] then Some(c) else Get(prev, v);
      if v in dist && dist'[v] != dist[v] {
        var e :| e in Out(g, c) && e.city == v && dist'[v] == Fin(dist[c].n + e.cost);
        assert Linked(g, dist', c, v);
      } else {
        assert v in prev && prev'[v] == prev[v];
        var u := prev[v];
        assert Linked(g, dist, u, v);
        var e :| e in Out(g, u) && e.city == v && dist[v] == Fin(dist[u].n + e.cost);
        assert Linked(g, dist', u, v);
      }
    }
  }

  /** Relaxing from `c` keeps the settled distances below the unvisited ones. */
  lemma StepKeepsOrder(g: Adjacency, nodes: seq<string>, start: string,
                       dist: map<string, Dist>, prev: map<string, string>,
                       unvisited: seq<string>, settled: map<string, nat>,
                       final: map<string, nat>, step: nat, c: string, rest: seq<string>,
                       dist': map<string, Dist>, prev': map<string, string>)
    requires DijkstraState(g, nodes, start, dist, prev, unvisited, settled, final, step)
    requires c in dist && dist[c].Fin?
    requires RelaxedBy(Out(g, c), c, dist, prev, dist', prev')
    requires forall v :: v in rest ==> v in unvisited
    requires forall v :: v in unvisited ==> AtMost(dist[c], dist[v])
    requires forall s :: s in settled ==> dist'[s] == dist[s] && AtMost(dist[s], dist[c])
    ensures forall s, v :: s in settled[c := step] && v in rest ==> AtMost(dist'[s], dist'[v])
  {
    forall s, v | s in settled[c := step] && v in rest
      ensures AtMost(dist'[s], dist'[v])
    {
      assert AtMost(dist[c], dist'[v]);
    }
  }

  /** Relaxing from `c`, the selected and optimal city, keeps `Frontier` with `c` settled. */
  lemma StepKeepsFrontier(g: Adjacency, start: string, c: string, step: nat,
                          settled: map<string, nat>, unvisited: seq<string>, rest: seq<string>,
                          dist: map<string, Dist>, prev: map<string, string>,
                          dist': map<string, Dist>, prev': map<string, string>)
    requires Frontier(g, start, dist, unvisited, settled)
    requires forall v :: v in rest <==> v in unvisited && v != c
    requires forall u, e :: u in g && e in g[u] ==> e.city in dist
    requires c in unvisited && dist[c].Fin?
    requires RelaxedBy(Out(g, c), c, dist, prev, dist', prev')
    requires forall s :: s in settled ==> s in dist && dist'[s] == dist[s]
    requires forall p, cost :: Connects(g, p, cost, start, c) ==> dist[c].n <= cost
    ensures Frontier(g, start, dist', rest, settled[c := step])
  {
    var settled' := settled[c := step];
    forall s | s in settled'
      ensures Optimal(g, start, dist', s)
    {
      assert dist'[s] == dist[s];
    }
    forall s, e | s in settled' && e in Out(g, s)
      ensures e.city in dist' && dist'[s].Fin? && AtMost(dist'[e.city], Fin(dist'[s].n + e.cost))
    {
      assert e.city in dist;
      assert AtMost(dist'[e.city], dist[e.city]);
    }
  }

  /**
   * Deleting `c` from `unvisited` and settling it at `step` keeps the
   * bookkeeping: every node keeps a distance, the sets stay disjoint, the
   * step count advances with the deletion, and settled distances stay final.
   */
  lemma StepKeepsShape(g: Adjacency, nodes: seq<string>, start: string,
                       dist: map<string, Dist>, prev: map<string, string>,
                       unvisited: seq<string>, settled: map<string, nat>,
                       final: map<string, nat>, step: nat,
                       c: string, rest: seq<string>, dist': map<string, Dist>,
                       settled': map<string, nat>, final': map<string, nat>)
    requires DijkstraState(g, nodes, start, dist, prev, unvisited, settled, final, step)
    requires forall v :: v in rest <==> v in unvisited && v != c
    requires Distinct(rest) && |rest| == |unvisited| - 1
    requires c in unvisited && c in dist && dist[c].Fin?
    requires dist'.Keys == dist.Keys && dist'[c] == dist[c]
    requires forall s :: s in settled ==> dist'[s] == dist[s] && AtMost(dist[s], dist[c])
    requires settled' == settled[c := step] && final' == final[c := dist'[c].n]
    ensures forall v :: v in dist' <==> v in nodes
    ensures Distinct(rest) && (forall v :: v in rest ==> v in nodes)
    ensures forall v :: v in settled' ==> v in nodes && v !in rest
    ensures step + 1 + |rest| == |nodes|
    ensures forall v :: v in settled' ==> settled'[v] < step + 1
    ensures forall s :: s in settled' ==> s in final' && dist'[s] == Fin(final'[s])
  {
  }

  /** `DijkstraState` from its parts, so that callers' contexts stay small. */
  lemma AssembleState(g: Adjacency, nodes: seq<string>, start: string,
                      dist: map<string, Dist>, prev: map<string, string>,
                      unvisited: seq<string>, settled: map<string, nat>,
                      final: map<string, nat>, step: nat)
    requires forall v :: v in dist <==> v in nodes
    requires Distinct(unvisited) && (forall v :: v in unvisited ==> v in nodes)
    requires forall v :: v in settled ==> v in nodes && v !in unvisited
    requires step + |unvisited| == |nodes|
    requires forall v :: v in settled ==> settled[v] < step
    requires start !in prev
    requires Rooted(start, dist, prev)
    requires forall v :: v in prev ==>
               prev[v] in settled && (v in settled ==> settled[prev[v]] < settled[v])
    requires forall v :: v in prev ==> Linked(g, dist, prev[v], v)
    requires forall s :: s in settled ==> s in final && dist[s] == Fin(final[s])
    requires forall s, v :: s in settled && v in unvisited ==> AtMost(dist[s], dist[v])
    requires Frontier(g, start, dist, unvisited, settled)
    ensures DijkstraState(g, nodes, start, dist, prev, unvisited, settled, final, step)
  {
  }

  /**
   * One iteration of the main loop: deleting the selected city `c` from
   * `unvisited` and relaxing its flights keeps `DijkstraState`, with `c`
   * settled at this step at its current distance.
   */
  lemma SettleStep(g: Adjacency, nodes: seq<string>, start: string,
                   dist: map<string, Dist>, prev: map<string, string>,
                   unvisited: seq<string>, settled: map<string, nat>,
                   final: map<string, nat>, step: nat, c: string, rest: seq<string>,
                   dist': map<string, Dist>, prev': map<string, string>,
                   settled': map<string, nat>, final': map<string, nat>)
    requires DijkstraState(g, nodes, start, dist, prev, unvisited, settled, final, step)
    requires forall v :: v in rest <==> v in unvisited && v != c
    requires Distinct(rest) && |rest| == |unvisited| - 1
    requires forall u, e :: u in g && e in g[u] ==> e.city in nodes
    requires IsFirstMinimum(unvisited, dist, Some(c))
    requires c in dist && dist[c].Fin?
    requires RelaxedBy(Out(g, c), c, dist, prev, dist', prev')
    requires settled' == settled[c := step] && final' == final[c := dist'[c].n]
    ensures DijkstraState(g, nodes, start, dist', prev', rest, settled', final', step + 1)
  {
    SelectionFacts(g, nodes, start, dist, prev, unvisited, settled, final, step, c, dist', prev');
    StepKeepsRoot(g, start, c, dist, prev, dist', prev');
    StepKeepsLinks(g, c, step, settled, dist, prev, dist', prev');
    StepKeepsOrder(g, nodes, start, dist, prev, unvisited, settled, final, step, c, rest, dist', prev');
    assert Frontier(g, start, dist', rest, settled') by {
      SelectedIsOptimal(g, nodes, start, dist, prev, unvisited, settled, final, step, c);
      StepKeepsFrontier(g, start, c, step, settled, unvisited, rest, dist, prev, dist', prev');
    }
    StepKeepsShape(g, nodes, start, dist, prev, unvisited, settled, final, step, c, rest, dist', settled', final');
    AssembleState(g, nodes, start, dist', prev', rest, settled', final', step + 1);
  }

  /** The rank of a city on the predecessor chain: its settling step, or `bound`. */
  ghost function Rank(settled: map<string, nat>, bound: nat, city: string): nat
  {
    if city in settled then settled[city] else bound
  }

  /**
   * The second loop of `findCheapestRoute`: `path.unshift(current)` and
   * `current = previous.get(current)` until `undefined`.  Every predecessor
   * was settled strictly before its successor, so the chain is acyclic and
   * ends; the path rebuilt is a walk from `start` to `end` costing exactly
   * `distances[end]`.
   */
  method Reconstruct(g: Adjacency, start: string, end: string,
                     dist: map<string, Dist>, prev: map<string, string>,
                     ghost settled: map<string, nat>, ghost bound: nat)
    returns (path: seq<string>)
    requires end in dist ==> dist[end].Fin?
    requires start !in prev
    requires start in dist ==> dist[start] == Fin(0)
    requires Rooted(start, dist, prev)
    requires forall v :: v in prev ==>
               prev[v] in settled && (v in settled ==> settled[prev[v]] < settled[v])
    requires forall v :: v in settled ==> settled[v] < bound
    requires forall v :: v in prev ==> Linked(g, dist, prev[v], v)
    ensures end in dist ==> Connects(g, path, dist[end].n, start, end)
    ensures end !in dist || start == end ==> path == [end]
    ensures Distinct(path)
  {
    path := [];
    var current := Some(end);
    ghost var walked: nat := 0;
    while current.Some?
      invariant path == [] ==> current == Some(end)
      invariant path != [] ==> path[|path| - 1] == end && current == Get(prev, path[0])
      invariant path != [] && end in dist ==>
                  && path[0] in dist && dist[path[0]].Fin? && dist[path[0]].n + walked == dist[end].n
                  && IsWalk(g, path, walked)
      invariant end !in dist || start == end ==> path == [] || path == [end]
      invariant RankedChain(settled, bound, path)
      invariant path != [] && current.Some? ==>
                  Rank(settled, bound, current.value) < Rank(settled, bound, path[0])
      decreases if current.Some? then Rank(settled, bound, current.value) + 1 else 0
    {
      var c := current.value;
      if path == [] {
        walked := 0;
        assert IsWalk(g, [c], walked);
      } else if end in dist {
        walked := ChainStep(g, dist, c, path, walked);
      }
      ChainRanked(settled, bound, c, path);
      path := [c] + path;
      current := Get(prev, c);
    }
    RankedDistinct(settled, bound, path);
  }

  /** The ranks along `path` strictly increase towards its end. */
  ghost predicate RankedChain(settled: map<string, nat>, bound: nat, path: seq<string>)
  {
    forall j, k :: 0 <= j < k < |path| ==> Rank(settled, bound, path[j]) < Rank(settled, bound, path[k])
  }

  /** Putting a city of lower rank in front keeps the ranks increasing. */
  lemma ChainRanked(settled: map<string, nat>, bound: nat, c: string, path: seq<string>)
    requires RankedChain(settled, bound, path)
    requires path != [] ==> Rank(settled, bound, c) < Rank(settled, bound, path[0])
    ensures RankedChain(settled, bound, [c] + path)
  {
    var p := [c] + path;
    forall j, k | 0 <= j < k < |p|
      ensures Rank(settled, bound, p[j]) < Rank(settled, bound, p[k])
    {
      if j == 0 {
        assert p[k] == path[k - 1];
        if k > 1 {
          assert Rank(settled, bound, path[0]) < Rank(settled, bound, path[k - 1]);
        }
      } else {
        assert p[j] == path[j - 1] && p[k] == path[k - 1];
      }
    }
  }

  /** Cities of strictly increasing rank are distinct. */
  lemma RankedDistinct(settled: map<string, nat>, bound: nat, path: seq<string>)
    requires RankedChain(settled, bound, path)
    ensures Distinct(path)
  {
    forall i, j | 0 <= i < j < |path|
      ensures path[i] != path[j]
    {
      assert Rank(settled, bound, path[i]) < Rank(settled, bound, path[j]);
    }
  }

  /** One `unshift`: a predecessor link extends the rebuilt walk at its front. */
  lemma ChainStep(g: Adjacency, dist: map<string, Dist>, u: string, path: seq<string>, walked: nat)
    returns (walked': nat)
    requires |path| >= 1 && Linked(g, dist, u, path[0]) && IsWalk(g, path, walked)
    ensures IsWalk(g, [u] + path, walked') && dist[u].n + walked' == dist[path[0]].n + walked
  {
    var e :| e in Out(g, u) && e.city == path[0] && dist[path[0]] == Fin(dist[u].n + e.cost);
    WalkPrepend(g, u, e, path, walked);
    walked' := walked + e.cost;
  }

  /**
   * The state after the initialisation loop: every node unvisited, at
   * distance 0 for `start` and infinity for the rest, nothing settled.
   */
  lemma InitialState(g: Adjacency, nodes: seq<string>, start: string, dist: map<string, Dist>)
    requires Distinct(nodes)
    requires forall u :: u in g ==> u in nodes
    requires forall v :: v in dist <==> v in nodes
    requires forall v :: v in dist ==> dist[v] == if v == start then Fin(0) else Inf
    ensures DijkstraState(g, nodes, start, dist, map[], nodes, map[], map[], 0)
  {
    forall v | v in dist && dist[v].Fin? && Get<string>(map[], v).None?
      ensures v == start
    {
    }
    AssembleState(g, nodes, start, dist, map[], nodes, map[], map[], 0);
  }

  /**
   * When the main loop stops, because nothing is left or the scan chose
   * `end` or found only infinite distances, `end`'s distance is optimal, and
   * the predecessor links satisfy what the path reconstruction needs.
   */
  lemma LoopOutcome(g: Adjacency, nodes: seq<string>, start: string, end: string,
                    dist: map<string, Dist>, prev: map<string, string>,
                    unvisited: seq<string>, settled: map<string, nat>,
                    final: map<string, nat>, step: nat, sel: Option<string>)
    requires DijkstraState(g, nodes, start, dist, prev, unvisited, settled, final, step)
    requires IsFirstMinimum(unvisited, dist, sel) && (sel.None? || sel.value == end)
    ensures end in dist <==> end in nodes
    ensures end in dist ==> forall p, c :: Connects(g, p, c, start, end) ==> dist[end].Fin? && dist[end].n <= c
    ensures start !in prev && Rooted(start, dist, prev)
    ensures start in dist ==> dist[start] == Fin(0)
    ensures forall v :: v in prev ==>
              prev[v] in settled && (v in settled ==> settled[prev[v]] < settled[v])
    ensures forall v :: v in settled ==> settled[v] < step
    ensures forall v :: v in prev ==> Linked(g, dist, prev[v], v)
  {
    if end in dist {
      EndSettled(g, start, end, dist, unvisited, settled, sel);
    }
  }

  /**
   * graph.js's `FlightGraph`.  `nodes` lists the keys of the `nodes` map in
   * insertion order (its values are never read); `edges` maps a city to its
   * outgoing flights.
   */
  class FlightGraph {
    var nodes: seq<string>
    var edges: Adjacency

    /** The keys are distinct and every endpoint of every flight is a node. */
    ghost predicate Valid()
      reads this
    {
      && Distinct(nodes)
      && (forall u :: u in edges ==> u in nodes)
      && (forall u, e :: u in edges && e in edges[u] ==> e.city in nodes)
    }

    constructor ()
      ensures Valid() && nodes == [] && edges == map[]
    {
      nodes := [];
      edges := map[];
    }

    /** Inserts `city` only if it is not yet a node; the flights are untouched. */
    method AddNode(city: string)
      modifies this
      ensures nodes == Insert(old(nodes), city)
      ensures edges == old(edges)
      ensures old(Valid()) ==> Valid()
    {
      if city !in nodes {
        nodes := nodes + [city];
      }
    }

    /**
     * Makes both endpoints nodes and appends exactly one flight to the list
     * of `from`; every other list is left as it was.
     */
    method AddEdge(from: string, to: string, cost: nat)
      modifies this
      ensures nodes == Insert(Insert(old(nodes), from), to)
      ensures edges == old(edges)[from := Out(old(edges), from) + [Edge(to, cost)]]
      ensures old(Valid()) ==> Valid()
    {
      AddNode(from);
      AddNode(to);
      if from !in edges {
        edges := edges[from := []];
      }
      edges := edges[from := edges[from] + [Edge(to, cost)]];
    }

    /**
     * `findCheapestRoute(start, end)`.  An unknown `end` gives
     * `{ path: [end], cost: undefined }`; otherwise the cost is `Infinity`
     * with an empty path exactly when no walk leads from `start` to `end`,
     * and a finite cost comes with a walk from `start` to `end` of that cost
     * which no other walk undercuts.
     */
    method FindCheapestRoute(start: string, end: string) returns (result: CheapestRoute)
      requires Valid()
      ensures result.cost.None? <==> end !in nodes
      ensures end !in nodes ==> result.path == [end]
      ensures result.cost == Some(Inf) ==>
                result.path == [] && forall p, c :: !Connects(edges, p, c, start, end)
      ensures result.cost.Some? && result.cost.value.Fin? ==>
                && Connects(edges, result.path, result.cost.value.n, start, end)
                && forall p, c :: Connects(edges, p, c, start, end) ==> result.cost.value.n <= c
      ensures start == end && end in nodes ==> result == CheapestRoute([start], Some(Fin(0)))
      ensures Distinct(result.path)
    {
      var distances: map<string, Dist> := map[];
      var previous: map<string, string> := map[];
      var unvisited: seq<string> := [];
      for i := 0 to |nodes|
        invariant unvisited == nodes[..i]
        invariant forall v :: v in distances <==> v in nodes[..i]
        invariant forall v :: v in distances ==> distances[v] == if v == start then Fin(0) else Inf
      {
        distances := distances[nodes[i] := if nodes[i] == start then Fin(0) else Inf];
        unvisited := unvisited + [nodes[i]];
      }
      assert nodes[..|nodes|] == nodes;

      InitialState(edges, nodes, start, distances);

      ghost var settled: map<string, nat> := map[];
      ghost var final: map<string, nat> := map[];
      ghost var step: nat := 0;
      ghost var sel: Option<string> := None;
      while |unvisited| > 0
        invariant DijkstraState(edges, nodes, start, distances, previous, unvisited, settled, final, step)
        invariant |unvisited| == 0 ==> sel.None?
        decreases |unvisited|
      {
        var current := SelectMin(unvisited, distances);
        if current.None? || current.value == end {
          sel := current;
          break;
        }
        var c := current.value;
        ghost var before, beforePrev, beforeUnvisited := distances, previous, unvisited;
        unvisited := Without(unvisited, c);
        var neighbors := Out(edges, c);
        distances, previous := Relax(neighbors, c, distances, previous);
        SettleStep(edges, nodes, start, before, beforePrev, beforeUnvisited, settled, final, step,
                   c, unvisited, distances, previous, settled[c := step], final[c := distances[c].n]);
        settled := settled[c := step];
        final := final[c := distances[c].n];
        step := step + 1;
      }

      LoopOutcome(edges, nodes, start, end, distances, previous, unvisited, settled, final, step, sel);
      if Get(distances, end) == Some(Inf) {
        return CheapestRoute([], Some(Inf));
      }
      var path := Reconstruct(edges, start, end, distances, previous, settled, step);
      result := CheapestRoute(path, Get(distances, end));
    }
  }

  /** `distances.get(city)`. */
}
