/**
 * Vocabulary shared by the two route engines: a flight record, adjacency
 * lists keyed by city name, and what it means for a sequence of cities to be
 * a route through those lists.
 */
module Flights {

  datatype Option<T> = None | Some(value: T)

  /** One outgoing flight, the record `{ city, cost }` of an adjacency list. */
  datatype Edge = Edge(city: string, cost: nat)

  /** Every city's outgoing flights, in the order they were added. */
  type Adjacency = map<string, seq<Edge>>

  /** `edges.get(city) || []`: a city without a list has no outgoing flights. */
  function Out(g: Adjacency, city: string): (r: seq<Edge>)
    ensures city !in g ==> r == []
  {
    if city in g then g[city] else []
  }

  predicate Distinct<T(==)>(s: seq<T>)
  {
    forall i, j :: 0 <= i < j < |s| ==> s[i] != s[j]
  }

  ghost function Elems<T>(s: seq<T>): set<T>
  {
    set x | x in s
  }

  /** The elements of a non-empty sequence are those before its last, and its last. */
  lemma ElemsOfLast<T>(p: seq<T>)
    requires |p| >= 1
    ensures Elems(p) == Elems(p[..|p| - 1]) + {p[|p| - 1]}
  {
    assert p == p[..|p| - 1] + [p[|p| - 1]];
  }

  /** A sequence whose last element is new to the rest has distinct elements when the rest does. */
  lemma LastIsNew<T>(p: seq<T>)
    requires |p| >= 1 && Distinct(p[..|p| - 1]) && p[|p| - 1] !in p[..|p| - 1]
    ensures Distinct(p)
  {
    assert p == p[..|p| - 1] + [p[|p| - 1]];
  }

  /** No value occurs in `s` more than once. */
  ghost predicate NoRepeats<T(!new)>(s: seq<T>)
  {
    forall x :: multiset(s)[x] <= 1
  }

  /** A sequence in which no value occurs twice has distinct elements. */
  lemma NoRepeatsDistinct<T(!new)>(s: seq<T>)
    requires NoRepeats(s)
    ensures Distinct(s)
  {
    forall i, j | 0 <= i < j < |s|
      ensures s[i] != s[j]
    {
      assert s == s[..j] + [s[j]] + s[j + 1..];
      assert multiset(s)[s[j]] == multiset(s[..j])[s[j]] + 1 + multiset(s[j + 1..])[s[j]];
      assert s[i] in multiset(s[..j]);
    }
  }

  /** Conversely, a sequence with distinct elements holds each value at most once. */
  lemma {:induction false} DistinctNoRepeats<T(!new)>(s: seq<T>)
    requires Distinct(s)
    ensures NoRepeats(s)
  {
    if s != [] {
      var t := s[..|s| - 1];
      assert s == t + [s[|s| - 1]];
      DistinctNoRepeats(t);
      forall x
        ensures multiset(s)[x] <= 1
      {
        if s[|s| - 1] == x {
          assert x !in t;
        }
      }
    }
  }

  /** Sequences without repeats and without common elements concatenate to one without repeats. */
  lemma NoRepeatsConcat<T(!new)>(a: seq<T>, b: seq<T>)
    requires NoRepeats(a) && NoRepeats(b)
    requires forall x :: x in a ==> x !in b
    ensures NoRepeats(a + b)
  {
    assert multiset(a + b) == multiset(a) + multiset(b);
    forall x
      ensures multiset(a + b)[x] <= 1
    {
      if x in a {
        assert x !in multiset(b);
      }
    }
  }

  /** The only permutation of a one-element sequence is itself. */
  lemma PermutationOfOne<T>(a: seq<T>, x: T)
    requires multiset(a) == multiset{x}
    ensures a == [x]
  {
    assert |a| == |multiset(a)| == 1;
    assert a[0] in multiset(a);
  }

  /**
   * `p` is a non-empty sequence of cities in which each city is followed by
   * the destination of one of its flights, and `c` is the sum of the costs of
   * the flights taken.  Parallel flights between the same two cities are
   * allowed, so the flight taken at each step is chosen existentially.
   */
  ghost predicate IsWalk(g: Adjacency, p: seq<string>, c: nat)
    decreases |p|
  {
    if |p| <= 1 then |p| == 1 && c == 0
    else exists e :: e in Out(g, p[|p| - 2]) && e.city == p[|p| - 1] && e.cost <= c &&
                     IsWalk(g, p[..|p| - 1], c - e.cost)
  }

  /** `p` leads from `a` to `b` through `g` at total cost `c`. */
  ghost predicate Connects(g: Adjacency, p: seq<string>, c: nat, a: string, b: string)
  {
    |p| >= 1 && p[0] == a && p[|p| - 1] == b && IsWalk(g, p, c)
  }

  /**
   * Taking one more flight from the last city extends a walk at its end:
   * `q` and `d` are the extended walk and its cost, named as the caller
   * names them.
   */
  lemma WalkAppend(g: Adjacency, p: seq<string>, c: nat, e: Edge, q: seq<string>, d: nat)
    requires IsWalk(g, p, c)
    requires e in Out(g, p[|p| - 1])
    requires q == p + [e.city] && d == c + e.cost
    ensures IsWalk(g, q, d)
  {
    assert q[..|p|] == p;
  }

  /** Appending the first element of `t`, then the rest of `t`, appends `t`. */
  lemma SpliceFirst<T>(p: seq<T>, t: seq<T>)
    requires |t| >= 1
    ensures (p + [t[0]]) + t[1..] == p + t
  {
    assert t == [t[0]] + t[1..];
  }

  /** A sequence of three or more, without its first element, split before its last. */
  lemma DropFirstSplit<T>(p: seq<T>)
    requires |p| >= 3
    ensures p[1..] == p[..|p| - 1][1..] + [p[|p| - 1]]
    ensures p[..|p| - 1][1..][|p| - 3] == p[|p| - 2]
  {
  }

  /** A sequence of two or more, with an element put in front, split before its last. */
  lemma PrependSplit<T>(u: T, p: seq<T>)
    requires |p| >= 2
    ensures [u] + p == ([u] + p[..|p| - 1]) + [p[|p| - 1]]
    ensures ([u] + p[..|p| - 1])[|p| - 1] == p[|p| - 2]
  {
    assert ([u] + p)[..|p|] == [u] + p[..|p| - 1];
  }

  /**
   * The converse of `WalkPrepend`: a walk of two or more cities starts with
   * one flight out of its first city, followed by a walk from the second.
   */
  lemma {:induction false} WalkSplitFront(g: Adjacency, p: seq<string>, c: nat) returns (e: Edge)
    requires |p| >= 2 && IsWalk(g, p, c)
    ensures e in Out(g, p[0]) && e.city == p[1] && e.cost <= c && IsWalk(g, p[1..], c - e.cost)
    decreases |p|
  {
    var f :| f in Out(g, p[|p| - 2]) && f.city == p[|p| - 1] && f.cost <= c &&
             IsWalk(g, p[..|p| - 1], c - f.cost);
    var q := p[..|p| - 1];
    if |p| == 2 {
      e := f;
      assert IsWalk(g, q, c - f.cost);
      assert c == f.cost;
    } else {
      e := WalkSplitFront(g, q, c - f.cost);
      DropFirstSplit(p);
      WalkAppend(g, q[1..], c - f.cost - e.cost, f, p[1..], c - e.cost);
    }
  }

  /** Taking a flight into the first city extends a walk at its front. */
  lemma {:induction false} WalkPrepend(g: Adjacency, u: string, e: Edge, p: seq<string>, c: nat)
    requires IsWalk(g, p, c)
    requires e in Out(g, u) && e.city == p[0]
    ensures IsWalk(g, [u] + p, c + e.cost)
    decreases |p|
  {
    var q := [u] + p;
    if |p| == 1 {
      assert q[..1] == [u];
      assert IsWalk(g, q[..1], 0);
    } else {
      var f :| f in Out(g, p[|p| - 2]) && f.city == p[|p| - 1] && f.cost <= c &&
               IsWalk(g, p[..|p| - 1], c - f.cost);
      WalkPrepend(g, u, e, p[..|p| - 1], c - f.cost);
      PrependSplit(u, p);
      WalkAppend(g, [u] + p[..|p| - 1], c - f.cost + e.cost, f, q, c + e.cost);
    }
  }
}
