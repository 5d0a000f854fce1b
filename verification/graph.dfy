/** The grid as a graph: in-bounds cells, walls, and walks along the edges
    that `getNeighbors` follows (one orthogonal step into a non-wall cell).
    Everything here is a value; the mutable grid exposes its wall layout as a
    `Layout` so that the searches can be stated against these definitions. */
module Graph {
  import opened Geometry

  datatype Layout = Layout(rows: int, cols: int, walls: set<Coord>) {

    predicate InBounds(c: Coord) {
      0 <= c.row < rows && 0 <= c.col < cols
    }

    /** A cell a search may step into. */
    predicate Open(c: Coord) {
      InBounds(c) && c !in walls
    }

    /** One edge of the search graph: `b` is among `getNeighbors(a)`. */
    predicate Step(a: Coord, b: Coord) {
      Adjacent(a, b) && Open(b)
    }

    /** A walk starts at an in-bounds cell (a marker) and then only steps
        into open neighbours; its length in edges is |p| - 1. */
    ghost predicate IsWalk(p: seq<Coord>) {
      && |p| > 0
      && InBounds(p[0])
      && forall i :: 0 < i < |p| ==> Step(p[i - 1], p[i])
    }

    ghost predicate WalkBetween(s: Coord, t: Coord, p: seq<Coord>) {
      IsWalk(p) && p[0] == s && p[|p| - 1] == t
    }

    ghost predicate Reachable(s: Coord, t: Coord) {
      exists p :: WalkBetween(s, t, p)
    }

    /** No walk from `s` to `t` has fewer than `d` edges. */
    ghost predicate NoShorterWalk(s: Coord, t: Coord, d: nat) {
      forall p :: WalkBetween(s, t, p) ==> |p| - 1 >= d
    }

    /** `p` is a walk from `s` to `t` of minimum length. */
    ghost predicate ShortestWalk(s: Coord, t: Coord, p: seq<Coord>) {
      WalkBetween(s, t, p) && NoShorterWalk(s, t, |p| - 1)
    }

    /** Every edge leaving `S` ends in `S`. */
    ghost predicate Closed(S: set<Coord>) {
      forall x, y :: x in S && Step(x, y) ==> y in S
    }
  }

  lemma WalkPrefix(L: Layout, p: seq<Coord>, k: nat)
    requires L.IsWalk(p) && 0 < k <= |p|
    ensures L.IsWalk(p[..k])
  {
  }

  /** A walk that starts inside a set closed under edges never leaves it. */
  lemma {:induction false} ClosedHoldsWalk(L: Layout, S: set<Coord>, p: seq<Coord>)
    requires L.Closed(S)
    requires L.IsWalk(p) && p[0] in S
    ensures p[|p| - 1] in S
  {
    if |p| > 1 {
      var pre := p[..|p| - 1];
      WalkPrefix(L, p, |p| - 1);
      ClosedHoldsWalk(L, S, pre);
      assert L.Step(pre[|pre| - 1], p[|p| - 1]);
    }
  }

  /** So a cell outside a closed set that holds `s` is unreachable from `s`. */
  lemma ClosedSetBoundsReach(L: Layout, S: set<Coord>, s: Coord, t: Coord)
    requires L.Closed(S) && s in S && t !in S
    ensures !L.Reachable(s, t)
  {
    if L.Reachable(s, t) {
      var p :| L.WalkBetween(s, t, p);
      ClosedHoldsWalk(L, S, p);
    }
  }

  /** The frontier argument behind breadth-first and uniform-cost search.
      `V` holds the cells labelled so far (with `dist`), `C` the cells whose
      neighbours have all been labelled; every labelled but unfinished cell
      has label at least `m`, and no label undercuts a walk. Then every walk
      from `s` to an unlabelled cell has more than `m` edges. */
  lemma {:induction false} FrontierBound(L: Layout, s: Coord, V: set<Coord>, C: set<Coord>,
                                         dist: map<Coord, nat>, m: nat, p: seq<Coord>)
    requires s in V && C <= V && V <= dist.Keys
    requires forall x, y :: x in C && L.Step(x, y) ==> y in V
    requires forall x :: x in V && x !in C ==> dist[x] >= m
    requires forall x, q :: x in V && L.WalkBetween(s, x, q) ==> |q| - 1 >= dist[x]
    requires L.IsWalk(p) && p[0] == s && p[|p| - 1] !in V
    ensures |p| - 1 >= m + 1
  {
    var n := |p|;
    var pre := p[..n - 1];
    WalkPrefix(L, p, n - 1);
    var w := p[n - 2];
    assert L.Step(w, p[n - 1]);
    if w in V {
      assert w !in C;
      assert L.WalkBetween(s, w, pre);
    } else {
      FrontierBound(L, s, V, C, dist, m, pre);
    }
  }

  /** A walk never beats the Manhattan distance between its ends: the
      heuristic is admissible. */
  lemma {:induction false} WalkAtLeastHeuristic(L: Layout, p: seq<Coord>)
    requires L.IsWalk(p)
    ensures |p| - 1 >= Heuristic(p[0], p[|p| - 1])
  {
    if |p| > 1 {
      var pre := p[..|p| - 1];
      WalkPrefix(L, p, |p| - 1);
      WalkAtLeastHeuristic(L, pre);
      HeuristicSymmetric(p[0], pre[|pre| - 1]);
      HeuristicSymmetric(p[0], p[|p| - 1]);
      HeuristicStep(pre[|pre| - 1], p[|p| - 1], p[0]);
    }
  }

  /** One move of a staircase walk towards `t`: first along the row
      coordinate, then along the column coordinate. */
  function Toward(a: Coord, t: Coord): (b: Coord)
    requires a != t
    ensures Adjacent(a, b)
    ensures Heuristic(b, t) + 1 == Heuristic(a, t)
  {
    if a.row < t.row then Coord(a.row + 1, a.col)
    else if a.row > t.row then Coord(a.row - 1, a.col)
    else if a.col < t.col then Coord(a.row, a.col + 1)
    else Coord(a.row, a.col - 1)
  }

  /** The staircase walk from `a` to `t`. */
  function Staircase(a: Coord, t: Coord): (p: seq<Coord>)
    ensures |p| == Heuristic(a, t) + 1
    ensures p[0] == a && p[|p| - 1] == t
    decreases Heuristic(a, t)
  {
    if a == t then [a] else [a] + Staircase(Toward(a, t), t)
  }

  /** The staircase stays in the bounding box of its two ends. */
  predicate Between(a: Coord, t: Coord, c: Coord) {
    && (a.row <= c.row <= t.row || t.row <= c.row <= a.row)
    && (a.col <= c.col <= t.col || t.col <= c.col <= a.col)
  }

  lemma {:induction false} StaircaseIsWalk(L: Layout, a: Coord, t: Coord)
    requires L.walls == {} && L.InBounds(a) && L.InBounds(t)
    ensures L.IsWalk(Staircase(a, t))
    decreases Heuristic(a, t)
  {
    if a != t {
      var b := Toward(a, t);
      assert L.InBounds(b);
      StaircaseIsWalk(L, b, t);
      var rest := Staircase(b, t);
      assert Staircase(a, t) == [a] + rest;
      forall i | 0 < i < |[a] + rest|
        ensures L.Step(([a] + rest)[i - 1], ([a] + rest)[i])
      {
        if i > 1 {
          assert ([a] + rest)[i - 1] == rest[i - 2] && ([a] + rest)[i] == rest[i - 1];
        }
      }
    }
  }

  /** On a grid without walls the shortest walk between two cells has
      exactly Manhattan-distance many edges. */
  lemma NoWallsShortest(L: Layout, a: Coord, t: Coord)
    requires L.walls == {} && L.InBounds(a) && L.InBounds(t)
    ensures L.ShortestWalk(a, t, Staircase(a, t))
  {
    StaircaseIsWalk(L, a, t);
    forall p | L.WalkBetween(a, t, p)
      ensures |p| - 1 >= Heuristic(a, t)
    {
      WalkAtLeastHeuristic(L, p);
    }
  }
}
