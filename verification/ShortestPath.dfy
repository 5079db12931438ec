// Dijkstra's algorithm with early stop, the live code at the end of
// ev-sdk/apps/upgrading/debug_app.cpp.  The graph is an adjacency matrix in which
// 0 means "no edge"; the number of vertices is a parameter here.
module ShortestPath {

  const INF: int := 0x7FFF_FFFF

  /** The value of an adjacency matrix. */
  type Matrix = seq<seq<int>>

  ghost predicate Square(g: Matrix) {
    forall u :: 0 <= u < |g| ==> |g[u]| == |g|
  }

  /** Non-negative weights, small enough that no distance overflows an int. */
  ghost predicate WellFormed(g: Matrix, maxWeight: nat) {
    && Square(g)
    && (forall u, v :: 0 <= u < |g| && 0 <= v < |g| ==> 0 <= g[u][v] <= maxWeight)
    && (g != [] ==> (|g| - 1) * maxWeight < INF)
  }

  /** k * w, as a sum. */
  ghost function Times(k: nat, w: nat): nat {
    if k == 0 then 0 else Times(k - 1, w) + w
  }

  lemma {:induction false} TimesIsProduct(k: nat, w: nat)
    ensures Times(k, w) == k * w
  {
    if k > 0 {
      TimesIsProduct(k - 1, w);
      assert k * w == (k - 1) * w + w;
    }
  }

  lemma {:induction false} TimesGrows(k: nat, n: nat, w: nat)
    requires k <= n
    ensures Times(k, w) <= Times(n, w)
  {
    if k < n { TimesGrows(k, n - 1, w); }
  }

  ghost function View(a: array2<int>): (g: Matrix)
    requires a.Length0 == a.Length1
    reads a
    ensures |g| == a.Length0 && Square(g)
    ensures forall u, v :: 0 <= u < |g| && 0 <= v < |g| ==> g[u][v] == a[u, v]
  {
    seq(a.Length0, u requires 0 <= u < a.Length0 reads a =>
      seq(a.Length1, v requires 0 <= v < a.Length1 reads a => a[u, v]))
  }

  // ----- paths ---------------------------------------------------------------------------

  /** A non-empty vertex sequence from `src` along existing edges. */
  ghost predicate PathFrom(g: Matrix, src: nat, p: seq<nat>)
    requires Square(g)
  {
    && p != [] && p[|p| - 1] < |g|
    && if |p| == 1 then p[0] == src else
         var q := p[..|p| - 1];
         PathFrom(g, src, q) && g[p[|p| - 2]][p[|p| - 1]] != 0
  }

  ghost predicate PathBetween(g: Matrix, src: nat, dest: nat, p: seq<nat>)
    requires Square(g)
  {
    PathFrom(g, src, p) && p[|p| - 1] == dest
  }

  ghost function Weight(g: Matrix, src: nat, p: seq<nat>): int
    requires Square(g) && PathFrom(g, src, p)
  {
    if |p| == 1 then 0 else Weight(g, src, p[..|p| - 1]) + g[p[|p| - 2]][p[|p| - 1]]
  }

  /** `d` is the weight of some path from `src` to `dest`. */
  ghost predicate Attained(g: Matrix, src: nat, dest: nat, d: int)
    requires Square(g)
  {
    exists p :: PathBetween(g, src, dest, p) && Weight(g, src, p) == d
  }

  /** `d` is the least weight of all paths from `src` to `dest`, or INT_MAX when there is none. */
  ghost predicate IsDistance(g: Matrix, src: nat, dest: nat, d: int)
    requires Square(g)
  {
    if d == 0x7FFF_FFFF then forall p :: !PathBetween(g, src, dest, p)
    else Attained(g, src, dest, d) && forall p :: PathBetween(g, src, dest, p) ==> d <= Weight(g, src, p)
  }

  lemma ExtendAttained(g: Matrix, src: nat, u: nat, v: nat, d: int)
    requires Square(g) && u < |g| && v < |g| && Attained(g, src, u, d) && g[u][v] != 0
    ensures Attained(g, src, v, d + g[u][v])
  {
    var p :| PathBetween(g, src, u, p) && Weight(g, src, p) == d;
    var q := p + [v];
    assert q[..|q| - 1] == p;
    assert PathBetween(g, src, v, q) && Weight(g, src, q) == d + g[u][v];
  }

  // ----- the invariant of the main loop ----------------------------------------------------

  /** Every finite distance is the weight of some path, and at most `bound`. */
  ghost predicate Sound(g: Matrix, src: nat, dist: seq<int>, bound: int)
    requires Square(g)
  {
    && |dist| == |g| && src < |g| && dist[src] == 0
    && forall v :: 0 <= v < |dist| ==> dist[v] == INF || (0 <= dist[v] <= bound < INF && Attained(g, src, v, dist[v]))
  }

  /** Every edge out of a visited vertex has been relaxed. */
  ghost predicate Relaxed(g: Matrix, dist: seq<int>, visited: seq<bool>)
    requires Square(g) && |g| == |dist| == |visited|
  {
    forall u, v :: 0 <= u < |g| && 0 <= v < |g| && visited[u] && g[u][v] != 0 ==> dist[v] <= dist[u] + g[u][v] < INF
  }

  /** No visited vertex is farther than an unvisited one. */
  ghost predicate Ordered(dist: seq<int>, visited: seq<bool>)
    requires |dist| == |visited|
  {
    forall u, v :: 0 <= u < |dist| && 0 <= v < |dist| && visited[u] && !visited[v] ==> dist[u] <= dist[v]
  }

  /** The state between two rounds. */
  ghost predicate Round(g: Matrix, src: nat, dist: seq<int>, visited: seq<bool>, bound: int) {
    && Square(g) && |dist| == |visited|
    && Sound(g, src, dist, bound) && Relaxed(g, dist, visited) && Ordered(dist, visited)
  }

  lemma StartRound(g: Matrix, src: nat, dist: seq<int>, visited: seq<bool>)
    requires Square(g) && |g| == |dist| == |visited| && src < |g|
    requires forall v :: 0 <= v < |g| ==> !visited[v] && dist[v] == if v == src then 0 else INF
    ensures Round(g, src, dist, visited, 0)
  {
    assert PathBetween(g, src, src, [src]) && Weight(g, src, [src]) == 0;
  }

  /** What no path can beat: the end of a path is visited at no more than the path's weight, or some
      unvisited vertex already has a finite distance of at most that weight. */
  lemma {:induction false} PathBound(g: Matrix, maxWeight: nat, src: nat, p: seq<nat>, dist: seq<int>,
                                     visited: seq<bool>, bound: int)
    returns (x: nat)
    requires WellFormed(g, maxWeight) && Round(g, src, dist, visited, bound) && PathFrom(g, src, p)
    ensures x < |g| && dist[x] <= Weight(g, src, p) && dist[x] < INF
    ensures visited[x] ==> x == p[|p| - 1]
    decreases |p|
  {
    if |p| == 1 {
      x := src;
    } else {
      var q, t := p[..|p| - 1], p[|p| - 1];
      x := PathBound(g, maxWeight, src, q, dist, visited, bound);
      assert g[p[|p| - 2]][t] >= 0;
      if visited[x] {
        x := t;
      }
    }
  }

  /** An unvisited vertex that no other unvisited one undercuts has its final distance. */
  lemma Settled(g: Matrix, maxWeight: nat, src: nat, t: nat, dist: seq<int>, visited: seq<bool>, bound: int)
    requires WellFormed(g, maxWeight) && Round(g, src, dist, visited, bound)
    requires t < |g| && !visited[t] && forall v :: 0 <= v < |g| && !visited[v] ==> dist[t] <= dist[v]
    ensures IsDistance(g, src, t, dist[t])
  {
    forall p | PathBetween(g, src, t, p)
      ensures dist[t] < INF && dist[t] <= Weight(g, src, p)
    {
      var x := PathBound(g, maxWeight, src, p, dist, visited, bound);
    }
  }

  // ----- the algorithm -----------------------------------------------------------------------

  /** The unvisited vertex with the least finite distance, or -1. */
  method MinDistance(dist: array<int>, visited: array<bool>) returns (u: int)
    requires dist.Length == visited.Length
    requires forall v :: 0 <= v < dist.Length ==> dist[v] <= INF
    ensures -1 <= u < dist.Length
    ensures u == -1 ==> forall v :: 0 <= v < dist.Length && !visited[v] ==> dist[v] == INF
    ensures u != -1 ==> !visited[u] && dist[u] < INF
    ensures u != -1 ==> forall v :: 0 <= v < dist.Length && !visited[v] ==> dist[u] <= dist[v]
  {
    var min := INF;
    u := -1;
    for v := 0 to dist.Length
      invariant -1 <= u < v
      invariant u == -1 ==> min == INF && forall w :: 0 <= w < v && !visited[w] ==> dist[w] == INF
      invariant u != -1 ==> !visited[u] && min == dist[u] < INF
      invariant u != -1 ==> forall w :: 0 <= w < v && !visited[w] ==> min <= dist[w]
    {
      if !visited[v] && dist[v] < min {
        min := dist[v];
        u := v;
      }
    }
  }

  /** The distance of `v` after relaxing the edge from `u`. */
  function RelaxEdge(du: int, dv: int, w: int, done: bool): int {
    if !done && w != 0 && du != INF && du + w < dv then du + w else dv
  }

  /** The vertex `u` has just been marked visited and is the nearest of those that were not. */
  ghost predicate Nearest(g: Matrix, u: nat, dist: seq<int>, was: seq<bool>, visited: seq<bool>) {
    && u < |g| == |dist| == |was| && visited == was[u := true] && !was[u] && dist[u] < INF
    && forall v :: 0 <= v < |g| && !was[v] ==> dist[u] <= dist[v]
  }

  /** Visiting the nearest unvisited vertex `u` and relaxing its edges makes the next round. */
  lemma NextRound(g: Matrix, maxWeight: nat, src: nat, u: nat, dist: seq<int>, visited: seq<bool>,
                  visited': seq<bool>, dist': seq<int>, bound: int)
    requires WellFormed(g, maxWeight) && Round(g, src, dist, visited, bound) && bound + maxWeight < INF
    requires Nearest(g, u, dist, visited, visited') && |dist'| == |g|
    requires forall v :: 0 <= v < |g| ==> dist'[v] == RelaxEdge(dist[u], dist[v], g[u][v], visited'[v])
    ensures Round(g, src, dist', visited', bound + maxWeight)
  {
    assert dist'[u] == dist[u];
    forall v | 0 <= v < |g|
      ensures dist'[v] == INF || (0 <= dist'[v] <= bound + maxWeight && Attained(g, src, v, dist'[v]))
      ensures dist'[v] <= dist[v] && (visited'[v] ==> dist'[v] == dist[v] <= dist[u])
      ensures !visited'[v] ==> dist[u] <= dist'[v]
    {
      if dist'[v] != dist[v] {
        ExtendAttained(g, src, u, v, dist[u]);
      }
    }
  }

  /** The inner loop relaxes the edges out of `u` and so completes the round. */
  method RelaxFrom(a: array2<int>, u: nat, dist: array<int>, visited: array<bool>,
                   ghost g: Matrix, ghost was: seq<bool>, ghost src: nat, ghost maxWeight: nat, ghost bound: int)
    requires a.Length0 == a.Length1 == dist.Length == visited.Length
    requires View(a) == g && WellFormed(g, maxWeight) && Round(g, src, dist[..], was, bound) && bound + maxWeight < INF
    requires Nearest(g, u, dist[..], was, visited[..])
    modifies dist
    ensures Round(g, src, dist[..], visited[..], bound + maxWeight)
  {
    ghost var before := dist[..];
    for v := 0 to dist.Length
      invariant forall w :: 0 <= w < v ==> dist[w] == RelaxEdge(before[u], before[w], a[u, w], visited[w])
      invariant forall w :: v <= w < dist.Length ==> dist[w] == before[w]
      invariant dist[u] == before[u]
    {
      if !visited[v] && a[u, v] != 0 && dist[u] != INF && dist[u] + a[u, v] < dist[v] {
        dist[v] := dist[u] + a[u, v];
      }
    }
    NextRound(g, maxWeight, src, u, before, was, visited[..], dist[..], bound);
  }

  function Unvisited(visited: seq<bool>): nat {
    if visited == [] then 0 else (if visited[0] then 0 else 1) + Unvisited(visited[1..])
  }

  lemma {:induction false} VisitOne(visited: seq<bool>, u: nat)
    requires u < |visited| && !visited[u]
    ensures Unvisited(visited[u := true]) == Unvisited(visited) - 1
  {
    if u == 0 {
      assert visited[u := true][1..] == visited[1..];
    } else {
      assert visited[u := true][1..] == visited[1..][u - 1 := true];
      VisitOne(visited[1..], u - 1);
    }
  }

  lemma {:induction false} NoneVisited(visited: seq<bool>)
    requires forall v :: 0 <= v < |visited| ==> !visited[v]
    ensures Unvisited(visited) == |visited|
  {
    if visited != [] { NoneVisited(visited[1..]); }
  }

  lemma {:induction false} AllVisited(visited: seq<bool>, v: nat)
    requires Unvisited(visited) == 0 && v < |visited|
    ensures visited[v]
  {
    if v > 0 { AllVisited(visited[1..], v - 1); }
  }

  /** When one vertex is left unvisited, it is the destination. */
  lemma OnlyOneLeft(visited: seq<bool>, t: nat, v: nat)
    requires Unvisited(visited) == 1 && t < |visited| && !visited[t] && v < |visited| && v != t
    ensures visited[v]
  {
    VisitOne(visited, t);
    AllVisited(visited[t := true], v);
  }

  /** One pass of the main loop: visits the nearest vertex `u` and, unless the search is over, relaxes from it. */
  method Visit(a: array2<int>, dest: nat, dist: array<int>, visited: array<bool>,
               ghost g: Matrix, ghost src: nat, ghost maxWeight: nat, ghost bound: int) returns (u: int)
    requires a.Length0 == a.Length1 == dist.Length == visited.Length && dest < a.Length0 && !visited[dest]
    requires View(a) == g && WellFormed(g, maxWeight) && Round(g, src, dist[..], visited[..], bound)
    requires bound + maxWeight < INF
    modifies dist, visited
    ensures u == -1 || u == dest ==> IsDistance(g, src, dest, dist[dest])
    ensures u != -1 && u != dest ==>
      && Round(g, src, dist[..], visited[..], bound + maxWeight)
      && !visited[dest] && Unvisited(visited[..]) == Unvisited(old(visited[..])) - 1
  {
    ghost var was := visited[..];
    u := MinDistance(dist, visited);
    if u == -1 {
      Settled(g, maxWeight, src, dest, dist[..], was, bound);
      return;
    }
    visited[u] := true;
    VisitOne(was, u);
    if u == dest {
      Settled(g, maxWeight, src, dest, dist[..], was, bound);
    } else {
      RelaxFrom(a, u, dist, visited, g, was, src, maxWeight, bound);
    }
  }

  /** All distances infinite but that of the source, and nothing visited. */
  method Initialise(n: nat, src: nat, dest: nat, ghost g: Matrix) returns (dist: array<int>, visited: array<bool>)
    requires src < n && dest < n == |g| && Square(g)
    ensures fresh(dist) && fresh(visited) && dist.Length == visited.Length == n
    ensures Round(g, src, dist[..], visited[..], 0) && Unvisited(visited[..]) == n && !visited[dest]
  {
    dist := new int[n];
    visited := new bool[n];
    for i := 0 to n
      invariant forall v :: 0 <= v < i ==> !visited[v] && dist[v] == INF
    {
      dist[i] := INF;
      visited[i] := false;
    }
    dist[src] := 0;
    StartRound(g, src, dist[..], visited[..]);
    NoneVisited(visited[..]);
  }

  lemma LastOne(g: Matrix, maxWeight: nat, src: nat, t: nat, dist: seq<int>, visited: seq<bool>, bound: int)
    requires WellFormed(g, maxWeight) && Round(g, src, dist, visited, bound)
    requires t < |g| && !visited[t] && Unvisited(visited) == 1
    ensures IsDistance(g, src, t, dist[t])
  {
    forall v | 0 <= v < |g| && v != t ensures visited[v] { OnlyOneLeft(visited, t, v); }
    Settled(g, maxWeight, src, t, dist, visited, bound);
  }

  /** The least weight over all paths from `src` to `dest`, although the search stops as soon as `dest` is
      reached and visits at most all vertices but one. */
  method Dijkstra(a: array2<int>, src: nat, dest: nat, ghost maxWeight: nat) returns (d: int)
    requires a.Length0 == a.Length1 && WellFormed(View(a), maxWeight) && src < a.Length0 && dest < a.Length0
    ensures IsDistance(View(a), src, dest, d)
  {
    hide Round, IsDistance;
    var n := a.Length0;
    ghost var g := View(a);
    TimesIsProduct(n - 1, maxWeight);
    var dist, visited := Initialise(n, src, dest, g);
    for count := 0 to n - 1
      invariant View(a) == g && Unvisited(visited[..]) == n - count
      invariant Round(g, src, dist[..], visited[..], Times(count, maxWeight)) && !visited[dest]
    {
      TimesGrows(count + 1, n - 1, maxWeight);
      ghost var bound := Times(count, maxWeight);
      assert Times(count + 1, maxWeight) == bound + maxWeight;
      var u := Visit(a, dest, dist, visited, g, src, maxWeight, bound);
      if u == -1 || u == dest {
        return dist[dest];
      }
    }
    LastOne(g, maxWeight, src, dest, dist[..], visited[..], Times(n - 1, maxWeight));
    d := dist[dest];
  }

  // ----- undirected graphs ---------------------------------------------------------------------

  ghost predicate Symmetric(g: Matrix) {
    Square(g) && forall u, v :: 0 <= u < |g| && 0 <= v < |g| ==> g[u][v] == g[v][u]
  }

  /** Sets the weight of one undirected edge in place and keeps the graph symmetric. */
  method UpdateEdge(a: array2<int>, from: nat, to: nat, newWeight: int)
    requires a.Length0 == a.Length1 && from < a.Length0 && to < a.Length0
    modifies a
    ensures forall u, v :: 0 <= u < a.Length0 && 0 <= v < a.Length0 ==>
      a[u, v] == if (u == from && v == to) || (u == to && v == from) then newWeight else old(a[u, v])
    ensures old(Symmetric(View(a))) ==> Symmetric(View(a))
  {
    a[from, to] := newWeight;
    a[to, from] := newWeight;
    if old(Symmetric(View(a))) {
      forall u, v | 0 <= u < a.Length0 && 0 <= v < a.Length0
        ensures View(a)[u][v] == View(a)[v][u]
      {
        assert old(View(a))[u][v] == old(View(a))[v][u];
      }
    }
  }

  lemma {:induction false} Prepend(g: Matrix, t: nat, y: nat, r: seq<nat>)
    requires Square(g) && t < |g| && y < |g| && PathFrom(g, y, r) && g[t][y] != 0
    ensures PathFrom(g, t, [t] + r) && Weight(g, t, [t] + r) == g[t][y] + Weight(g, y, r)
    decreases |r|
  {
    var p := [t] + r;
    if |r| == 1 {
      assert p[..1] == [t];
    } else {
      assert p[..|p| - 1] == [t] + r[..|r| - 1];
      Prepend(g, t, y, r[..|r| - 1]);
    }
  }

  lemma {:induction false} ReversePath(g: Matrix, s: nat, t: nat, p: seq<nat>)
    requires Symmetric(g) && PathBetween(g, s, t, p)
    ensures Attained(g, t, s, Weight(g, s, p))
    decreases |p|
  {
    if |p| == 1 {
      assert PathBetween(g, t, s, [t]) && Weight(g, t, [t]) == 0;
    } else {
      var y := p[|p| - 2];
      ReversePath(g, s, y, p[..|p| - 1]);
      var r :| PathBetween(g, y, s, r) && Weight(g, y, r) == Weight(g, s, p[..|p| - 1]);
      Prepend(g, t, y, r);
      assert PathBetween(g, t, s, [t] + r);
    }
  }

  /** In an undirected graph the distance does not depend on the direction. */
  lemma DistanceSymmetric(g: Matrix, s: nat, t: nat, d: int)
    requires Symmetric(g) && IsDistance(g, s, t, d)
    ensures IsDistance(g, t, s, d)
  {
    forall p | PathBetween(g, t, s, p)
      ensures d != INF && d <= Weight(g, t, p)
    {
      ReversePath(g, t, s, p);
    }
    if d != INF {
      var p :| PathBetween(g, s, t, p) && Weight(g, s, p) == d;
      ReversePath(g, s, t, p);
    }
  }
}
