/** `astar(startNode, endNode)`: best-first search over an open list. Each
    round sorts the open list by `fScore` and takes the first cell, records
    it, stops if it is the end cell, and otherwise relaxes its open
    neighbours with gScore + 1, setting `fScore` to the new gScore plus the
    Manhattan heuristic and appending the neighbour to the open list unless
    it is already there.

    The open list is re-sorted every round, so the model takes out some cell
    of least `fScore` and keeps the others in place. The ghost map `g` holds
    the finite `gScore` fields and `pred` the `previousNode` links. */
module AStarSearch {
  import opened Geometry
  import opened Graph
  import opened GridModel
  import opened SearchLabels

  /** The search between two steps: gScores, links and the open list. */
  datatype Search = Search(g: map<Coord, nat>, pred: map<Coord, Coord>, open: seq<Coord>)

  /** `s` without its `i`-th element: `shift` after the sort. */
  function Remove(s: seq<Coord>, i: nat): (r: seq<Coord>)
    requires i < |s|
    ensures |r| == |s| - 1
    ensures forall c :: c in r ==> c in s
    ensures Distinct(s) ==> Distinct(r) && forall c :: c in r <==> c in s && c != s[i]
  {
    var r := s[..i] + s[i + 1..];
    assert forall j :: 0 <= j < |r| ==> r[j] == if j < i then s[j] else s[j + 1];
    assert forall j :: 0 <= j < |s| && j != i ==> s[j] == if j < i then r[j] else r[j - 1];
    r
  }

  /** The links with gScore as rank: every scored cell but `start` has a
      predecessor one edge away with a smaller gScore. */
  ghost predicate Descending(L: Layout, start: Coord, g: map<Coord, nat>, pred: map<Coord, Coord>) {
    && pred.Keys == g.Keys - {start}
    && forall c {:trigger pred[c]} :: c in pred ==>
         pred[c] in g && L.Step(pred[c], c) && g[pred[c]] < g[c]
  }

  /** The state of the search between two rounds. The open list has no
      repeats and holds scored cells; `start` keeps gScore 0; the links
      descend in gScore along edges; every scored cell is open or recorded,
      and every recorded cell is scored. Beside it `astar` keeps that every
      edge out of a recorded cell ends in a scored cell (`ClosedInto`). */
  ghost predicate Searching(L: Layout, start: Coord, s: Search, order: seq<Coord>) {
    && Distinct(s.open)
    && (forall c :: c in s.open ==> c in s.g)
    && start in s.g && s.g[start] == 0
    && (forall c :: c in s.g ==> InBounds(c))
    && Descending(L, start, s.g, s.pred)
    && (forall c :: c in s.g ==> c in s.open || c in order)
    && (forall c :: c in order ==> c in s.g)
    && (|order| > 0 ==> order[0] == start)
    && (|order| == 0 ==> s.open == [start])
  }

  /** What `astar` leaves behind: the order starts at `start` and holds
      scored cells; `start` keeps gScore 0 and no predecessor; the links
      descend in gScore along edges; the order ends at `end` the first time
      `end` is taken out, and if it never is, no walk leads from `start` to
      `end`. */
  ghost predicate Searched(L: Layout, start: Coord, end: Coord, order: seq<Coord>,
                           g: map<Coord, nat>, pred: map<Coord, Coord>)
  {
    && |order| > 0 && order[0] == start
    && (forall c :: c in order ==> c in g)
    && start in g && g[start] == 0
    && (forall c :: c in g ==> InBounds(c))
    && Descending(L, start, g, pred)
    && (end in order ==> order[|order| - 1] == end && end !in order[..|order| - 1])
    && (end !in order ==> !L.Reachable(start, end))
  }

  lemma Begins(L: Layout, start: Coord)
    requires InBounds(start)
    ensures Searching(L, start, Search(map[start := 0], map[], [start]), [])
    ensures Finished([], 0) == {}
  {
  }

  /** Taking cell `i` out of the open list and recording it keeps the state,
      with the cells recorded before it still finished. */
  lemma Take(L: Layout, start: Coord, s: Search, order: seq<Coord>, i: nat)
    requires Searching(L, start, s, order) && ClosedInto(L, Finished(order, |order|), s.g.Keys)
    requires i < |s.open|
    ensures var cur := s.open[i];
      && Searching(L, start, Search(s.g, s.pred, Remove(s.open, i)), order + [cur])
      && ClosedInto(L, Finished(order + [cur], |order|), s.g.Keys)
  {
    var cur := s.open[i];
    var order' := order + [cur];
    assert order'[..|order|] == order;
    if |order| == 0 {
      assert cur == start;
    }
  }

  /** Taking `end` out of the open list ends the search. */
  lemma Arrive(L: Layout, start: Coord, end: Coord, s: Search, order: seq<Coord>, i: nat)
    requires Searching(L, start, s, order) && end !in order
    requires i < |s.open| && s.open[i] == end
    ensures Searched(L, start, end, order + [end], s.g, s.pred)
  {
    var order' := order + [end];
    assert order'[..|order|] == order;
    if |order| == 0 {
      assert end == start;
    }
  }

  /** One step of the neighbour loop: a neighbour whose gScore exceeds
      `tentative` gets it, `cur` as predecessor, and a place at the end of
      the open list unless it has one already. */
  function Relaxed(s: Search, cur: Coord, n: Coord, tentative: nat): Search {
    if ScoreOf(s.g, n).Exceeds(tentative) then
      Search(s.g[n := tentative], s.pred[n := cur], if n in s.open then s.open else s.open + [n])
    else s
  }

  /** The neighbour loop run over the first `k` cells of `ns`, in order. */
  function RelaxedFirst(s: Search, cur: Coord, ns: seq<Coord>, k: nat, tentative: nat): Search
    requires k <= |ns|
  {
    if k == 0 then s
    else Relaxed(RelaxedFirst(s, cur, ns, k - 1, tentative), cur, ns[k - 1], tentative)
  }

  /** One step of the neighbour loop keeps the state and the gScore of
      `cur`. In particular `start`, at gScore 0, is never improved on and
      never gets a predecessor. */
  lemma RelaxedKeeps(L: Layout, start: Coord, s: Search, order: seq<Coord>,
                     cur: Coord, gcur: nat, n: Coord)
    requires Searching(L, start, s, order) && |order| > 0
    requires cur in s.g && s.g[cur] == gcur
    requires L.Step(cur, n) && InBounds(n)
    ensures var t := Relaxed(s, cur, n, gcur + 1);
      Searching(L, start, t, order) && cur in t.g && t.g[cur] == gcur
  {
    var t := Relaxed(s, cur, n, gcur + 1);
    if t != s {
      assert n != start && n != cur;
      forall c | c in t.pred
        ensures t.pred[c] in t.g && L.Step(t.pred[c], c) && t.g[t.pred[c]] < t.g[c]
      {
        if c != n {
          assert s.pred[c] in s.g;
        }
      }
      forall i, j | 0 <= i < j < |t.open|
        ensures t.open[i] != t.open[j]
      {
        if n !in s.open && j == |s.open| {
          assert t.open[i] in s.open;
        }
      }
    }
  }

  /** Any property of the search that one step of the neighbour loop keeps,
      the whole loop keeps. */
  lemma {:induction false} RelaxedFirstPreserves(Inv: Search -> bool, s: Search, cur: Coord,
                                                 ns: seq<Coord>, k: nat, tentative: nat)
    requires k <= |ns| && Inv(s)
    requires forall u: Search, j: nat :: j < |ns| && Inv(u) ==> Inv(Relaxed(u, cur, ns[j], tentative))
    ensures Inv(RelaxedFirst(s, cur, ns, k, tentative))
  {
    if k > 0 {
      RelaxedFirstPreserves(Inv, s, cur, ns, k - 1, tentative);
    }
  }

  /** The neighbour loop scores every cell it examines and forgets no
      score. */
  lemma {:induction false} RelaxedFirstGrows(s: Search, cur: Coord, ns: seq<Coord>, k: nat,
                                             tentative: nat)
    requires k <= |ns|
    ensures var t := RelaxedFirst(s, cur, ns, k, tentative);
      && (forall j :: 0 <= j < k ==> ns[j] in t.g)
      && s.g.Keys <= t.g.Keys
  {
    if k > 0 {
      RelaxedFirstGrows(s, cur, ns, k - 1, tentative);
    }
  }

  /** Once every open neighbour of the last recorded cell is scored, that
      cell is finished too. */
  lemma Close(L: Layout, order: seq<Coord>, scored: set<Coord>, scored': set<Coord>, cur: Coord)
    requires L.rows == NumRows && L.cols == NumCols && InBounds(cur)
    requires |order| > 0 && cur == order[|order| - 1]
    requires ClosedInto(L, Finished(order, |order| - 1), scored) && scored <= scored'
    requires forall k :: 0 <= k < |Neighbours(L, cur)| ==> Neighbours(L, cur)[k] in scored'
    ensures ClosedInto(L, Finished(order, |order|), scored')
  {
    FinishedNext(order, |order| - 1);
    NeighboursAreSteps(L, cur);
    var ns := Neighbours(L, cur);
    forall y | L.Step(cur, y)
      ensures y in scored'
    {
      var k :| 0 <= k < |ns| && ns[k] == y;
    }
  }

  /** The neighbour loop over the open neighbours of `cur` keeps the state
      and the gScore of `cur`. */
  lemma RelaxedAllKeeps(L: Layout, start: Coord, s: Search, order: seq<Coord>, cur: Coord, gcur: nat)
    requires L.rows == NumRows && L.cols == NumCols && InBounds(cur)
    requires Searching(L, start, s, order) && |order| > 0
    requires cur in s.g && s.g[cur] == gcur
    ensures Searching(L, start, RelaxedFirst(s, cur, Neighbours(L, cur), |Neighbours(L, cur)|, gcur + 1), order)
  {
    var ns := Neighbours(L, cur);
    NeighboursAreSteps(L, cur);
    var Inv := (u: Search) => Searching(L, start, u, order) && cur in u.g && u.g[cur] == gcur;
    forall u: Search, j: nat | j < |ns| && Inv(u)
      ensures Inv(Relaxed(u, cur, ns[j], gcur + 1))
    {
      assert ns[j] in ns;
      RelaxedKeeps(L, start, u, order, cur, gcur, ns[j]);
    }
    RelaxedFirstPreserves(Inv, s, cur, ns, |ns|, gcur + 1);
  }

  /** The search after a round of `astar` that takes cell `i` out of the
      open list and runs the neighbour loop of that cell. */
  ghost function Next(L: Layout, s: Search, i: nat): Search
    requires i < |s.open| && s.open[i] in s.g
  {
    RelaxedFirst(Search(s.g, s.pred, Remove(s.open, i)), s.open[i], Neighbours(L, s.open[i]),
                 |Neighbours(L, s.open[i])|, s.g[s.open[i]] + 1)
  }

  /** After cell `i` is taken out of the open list, recorded, and its
      neighbour loop run, the state holds with that cell finished. */
  lemma RelaxDone(L: Layout, start: Coord, s: Search, order: seq<Coord>, i: nat)
    requires L.rows == NumRows && L.cols == NumCols
    requires i < |s.open| && s.open[i] in s.g && InBounds(s.open[i])
    requires |order| > 0 && order[|order| - 1] == s.open[i]
    requires Searching(L, start, Search(s.g, s.pred, Remove(s.open, i)), order)
    requires ClosedInto(L, Finished(order, |order| - 1), s.g.Keys)
    ensures Searching(L, start, Next(L, s, i), order)
    ensures ClosedInto(L, Finished(order, |order|), Next(L, s, i).g.Keys)
  {
    var cur := s.open[i];
    var s1 := Search(s.g, s.pred, Remove(s.open, i));
    var ns := Neighbours(L, cur);
    RelaxedAllKeeps(L, start, s1, order, cur, s.g[cur]);
    RelaxedFirstGrows(s1, cur, ns, |ns|, s.g[cur] + 1);
    Close(L, order, s.g.Keys, Next(L, s, i).g.Keys, cur);
  }

  /** The sum of the finite gScores of the cells of `cs`. */
  ghost function Total(g: map<Coord, nat>, cs: seq<Coord>): nat {
    if cs == [] then 0 else (if cs[0] in g then g[cs[0]] else 0) + Total(g, cs[1..])
  }

  /** Lowering one gScore lowers the sum over any list that holds the cell. */
  lemma {:induction false} TotalLowers(g: map<Coord, nat>, cs: seq<Coord>, n: Coord, v: nat)
    requires n in g && v < g[n]
    ensures Total(g[n := v], cs) <= Total(g, cs)
    ensures n in cs ==> Total(g[n := v], cs) < Total(g, cs)
  {
    if cs != [] {
      TotalLowers(g, cs[1..], n, v);
      if cs[0] != n {
        assert n in cs ==> n in cs[1..];
      }
    }
  }

  /** `t` comes after `s` in the neighbour loop: no score is forgotten, the
      sum over the board does not grow unless a cell is scored anew, it
      drops if some score drops, and the open list only grows with the
      scores. */
  ghost predicate Advanced(s: Search, t: Search) {
    && s.g.Keys <= t.g.Keys
    && (t.g.Keys == s.g.Keys ==> Total(t.g, AllCells()) <= Total(s.g, AllCells()))
    && (t.g.Keys == s.g.Keys && t.g != s.g ==> Total(t.g, AllCells()) < Total(s.g, AllCells()))
    && (t.g == s.g ==> t.open == s.open)
  }

  lemma RelaxedAdvances(s: Search, cur: Coord, n: Coord, tentative: nat)
    requires InBounds(n)
    ensures Advanced(s, Relaxed(s, cur, n, tentative))
  {
    if n in s.g && tentative < s.g[n] {
      TotalLowers(s.g, AllCells(), n, tentative);
    }
  }

  lemma AdvancedTransitive(s: Search, u: Search, t: Search)
    requires Advanced(s, u) && Advanced(u, t)
    ensures Advanced(s, t)
  {
  }

  /** The whole neighbour loop advances the search. */
  lemma RelaxedFirstAdvances(s: Search, cur: Coord, ns: seq<Coord>, tentative: nat)
    requires forall y :: y in ns ==> InBounds(y)
    ensures Advanced(s, RelaxedFirst(s, cur, ns, |ns|, tentative))
  {
    var Inv := (u: Search) => Advanced(s, u);
    forall u: Search, j: nat | j < |ns| && Inv(u)
      ensures Inv(Relaxed(u, cur, ns[j], tentative))
    {
      assert ns[j] in ns;
      RelaxedAdvances(u, cur, ns[j], tentative);
      AdvancedTransitive(s, u, Relaxed(u, cur, ns[j], tentative));
    }
    RelaxedFirstPreserves(Inv, s, cur, ns, |ns|, tentative);
  }

  /** The termination measure of the main loop drops from `s` to `t`:
      fewer unscored cells, or as many and a smaller sum of gScores, or both
      the same and a shorter open list. */
  ghost predicate Lower(s: Search, t: Search) {
    || CellSet() - t.g.Keys < CellSet() - s.g.Keys
    || (CellSet() - t.g.Keys == CellSet() - s.g.Keys && Total(t.g, AllCells()) < Total(s.g, AllCells()))
    || (CellSet() - t.g.Keys == CellSet() - s.g.Keys && Total(t.g, AllCells()) == Total(s.g, AllCells())
        && |t.open| < |s.open|)
  }

  /** One round of `astar` lowers the termination measure: taking cell `i`
      out of the open list and running the neighbour loop of that cell
      scores a new cell, lowers a score, or leaves the scores as they were
      and the open list one shorter. */
  lemma RoundLowers(L: Layout, s: Search, i: nat)
    requires L.rows == NumRows && L.cols == NumCols
    requires i < |s.open| && s.open[i] in s.g && InBounds(s.open[i])
    requires forall c :: c in Next(L, s, i).g ==> InBounds(c)
    ensures Lower(s, Next(L, s, i))
  {
    var cur := s.open[i];
    NeighboursAreSteps(L, cur);
    RelaxedFirstAdvances(Search(s.g, s.pred, Remove(s.open, i)), cur, Neighbours(L, cur), s.g[cur] + 1);
    var t := Next(L, s, i);
    if t.g.Keys != s.g.Keys {
      Shrinks(s.g.Keys, t.g.Keys);
    }
  }

  /** A round of `astar` that takes out cell `i` and runs its neighbour
      loop keeps the state with that cell recorded and finished, and lowers
      the termination measure. */
  lemma Round(L: Layout, start: Coord, s: Search, order: seq<Coord>, i: nat)
    requires L.rows == NumRows && L.cols == NumCols
    requires Searching(L, start, s, order) && ClosedInto(L, Finished(order, |order|), s.g.Keys)
    requires i < |s.open|
    ensures s.open[i] in s.g
    ensures Searching(L, start, Next(L, s, i), order + [s.open[i]])
    ensures ClosedInto(L, Finished(order + [s.open[i]], |order| + 1), Next(L, s, i).g.Keys)
    ensures Lower(s, Next(L, s, i))
  {
    Take(L, start, s, order, i);
    RelaxDone(L, start, s, order + [s.open[i]], i);
    RoundLowers(L, s, i);
  }

  /** An empty open list with `end` never taken out: the scored cells are
      all recorded and finished, so no edge leaves them and `end`, outside
      them, is out of reach. */
  lemma Exhausted(L: Layout, start: Coord, end: Coord, s: Search, order: seq<Coord>)
    requires Searching(L, start, s, order) && ClosedInto(L, Finished(order, |order|), s.g.Keys)
    requires s.open == [] && end !in order
    ensures Searched(L, start, end, order, s.g, s.pred)
  {
    assert order[..|order|] == order;
    assert L.Closed(s.g.Keys);
    ClosedSetBoundsReach(L, s.g.Keys, start, end);
  }

  /** The sort-and-shift of `astar`: the stable sort by `fScore` puts first
      the earliest cell of least `fScore`, and `shift` takes it. */
  method LowestF(g: Grid, openSet: seq<Coord>) returns (i: nat)
    requires Spans(g.fScore) && openSet != []
    requires forall c :: c in openSet ==> InBounds(c)
    ensures i < |openSet|
    ensures forall j :: 0 <= j < |openSet| ==> g.F(openSet[i]).AtMost(g.F(openSet[j]))
    ensures forall j :: 0 <= j < i ==> !g.F(openSet[j]).AtMost(g.F(openSet[i]))
  {
    i := 0;
    for k := 1 to |openSet|
      invariant i < k
      invariant forall j :: 0 <= j < k ==> g.F(openSet[i]).AtMost(g.F(openSet[j]))
      invariant forall j :: 0 <= j < i ==> !g.F(openSet[j]).AtMost(g.F(openSet[i]))
    {
      if !g.F(openSet[i]).AtMost(g.F(openSet[k])) {
        i := k;
      }
    }
  }

  /** The `for (const neighbor of ...)` loop of `astar` over the neighbour
      list `ns` of the current cell: each neighbour whose gScore exceeds
      `tentative` gets it as gScore, `cur` as `previousNode`, its fScore
      recomputed, and a place in the open list unless it has one. */
  method RelaxAll(g: Grid, cur: Coord, end: Coord, tentative: nat, ns: seq<Coord>,
                  openSet: seq<Coord>, ghost s: Search)
      returns (openSet': seq<Coord>)
    requires Spans(g.gScore) && Spans(g.fScore) && Spans(g.previousNode) && g.gScore != g.fScore
    requires g.GScoresAre(s.g) && g.FScoresAre(s.g, end) && g.LinksAre(s.pred)
    requires s.open == openSet
    requires forall j :: 0 <= j < |ns| ==> InBounds(ns[j])
    modifies g.gScore, g.fScore, g.previousNode
    ensures openSet' == RelaxedFirst(s, cur, ns, |ns|, tentative).open
    ensures g.GScoresAre(RelaxedFirst(s, cur, ns, |ns|, tentative).g)
    ensures g.FScoresAre(RelaxedFirst(s, cur, ns, |ns|, tentative).g, end)
    ensures g.LinksAre(RelaxedFirst(s, cur, ns, |ns|, tentative).pred)
  {
    openSet' := openSet;
    for i := 0 to |ns|
      invariant openSet' == RelaxedFirst(s, cur, ns, i, tentative).open
      invariant g.GScoresAre(RelaxedFirst(s, cur, ns, i, tentative).g)
      invariant g.FScoresAre(RelaxedFirst(s, cur, ns, i, tentative).g, end)
      invariant g.LinksAre(RelaxedFirst(s, cur, ns, i, tentative).pred)
    {
      ghost var t := RelaxedFirst(s, cur, ns, i, tentative);
      var n := ns[i];
      g.GScoreRead(t.g, n);
      if g.G(n).Exceeds(tentative) {
        g.SetPrev(n, cur, t.pred);
        g.SetG(n, tentative, t.g);
        g.SetF(n, tentative + Heuristic(n, end), t.g, tentative, end);
        if n !in openSet' {
          openSet' := openSet' + [n];
        }
      }
    }
  }

  /** `Next(s, i)` is the neighbour loop run over any list equal to the
      neighbours of the cell taken, with its gScore plus one. */
  lemma NextIs(L: Layout, s: Search, i: nat, ns: seq<Coord>, tentative: nat)
    requires i < |s.open| && s.open[i] in s.g
    requires ns == Neighbours(L, s.open[i]) && tentative == s.g[s.open[i]] + 1
    ensures Next(L, s, i) == RelaxedFirst(Search(s.g, s.pred, Remove(s.open, i)), s.open[i], ns, |ns|, tentative)
  {
  }

  /** The neighbour step of `astar` after it has taken cell `i` out of the
      open list of `s`, leaving `openSet`: the state after it is
      `Next(s, i)`, the neighbour loop over `getNeighbors(cur)` with
      `currentNode.gScore + 1`. */
  method RelaxNeighbours(g: Grid, cur: Coord, end: Coord, openSet: seq<Coord>, ghost L: Layout, ghost s: Search, ghost i: nat)
      returns (openSet': seq<Coord>)
    requires Spans(g.isWall) && Spans(g.gScore) && Spans(g.fScore) && Spans(g.previousNode)
    requires g.gScore != g.fScore && g.Layout() == L
    requires i < |s.open| && cur == s.open[i] && InBounds(cur) && cur in s.g
    requires openSet == Remove(s.open, i)
    requires g.GScoresAre(s.g) && g.FScoresAre(s.g, end) && g.LinksAre(s.pred)
    modifies g.gScore, g.fScore, g.previousNode
    ensures openSet' == Next(L, s, i).open
    ensures g.GScoresAre(Next(L, s, i).g) && g.FScoresAre(Next(L, s, i).g, end)
    ensures g.LinksAre(Next(L, s, i).pred)
  {
    g.GScoreRead(s.g, cur);
    // `currentNode.gScore + 1`, the same for every neighbour
    var tentative := g.G(cur).value + 1;
    assert tentative == s.g[s.open[i]] + 1;
    var ns := g.GetNeighbors(cur);
    NeighboursInBounds(L, cur);
    assert ns == Neighbours(L, s.open[i]);
    NextIs(L, s, i, ns, tentative);
    openSet' := RelaxAll(g, cur, end, tentative, ns, openSet, Search(s.g, s.pred, Remove(s.open, i)));
  }

  method AStar(g: Grid, start: Coord, end: Coord)
      returns (order: seq<Coord>, ghost gs: map<Coord, nat>, ghost pred: map<Coord, Coord>)
    requires g.Shaped() && InBounds(start) && InBounds(end)
    requires g.Unlinked() && g.GScoresAre(map[]) && g.FScoresAre(map[], end)
    modifies g.gScore, g.fScore, g.previousNode
    ensures Searched(g.Layout(), start, end, order, gs, pred)
    ensures g.GScoresAre(gs) && g.FScoresAre(gs, end) && g.LinksAre(pred)
  {
    ghost var L := g.Layout();
    var openSet := [start];
    g.SetG(start, 0, map[]);
    g.SetF(start, Heuristic(start, end), map[], 0, end);
    order := [];
    ghost var s := Search(map[start := 0], map[], [start]);
    Begins(L, start);
    while openSet != []
      invariant g.Layout() == L && g.GScoresAre(s.g) && g.FScoresAre(s.g, end) && g.LinksAre(s.pred)
      invariant s.open == openSet
      invariant Searching(L, start, s, order) && ClosedInto(L, Finished(order, |order|), s.g.Keys)
      invariant end !in order
      decreases CellSet() - s.g.Keys, Total(s.g, AllCells()), |openSet|
    {
      var i := LowestF(g, openSet);
      var cur := openSet[i];
      assert cur in s.open;
      openSet := Remove(openSet, i);
      if cur == end {
        Arrive(L, start, end, s, order, i);
        order := order + [cur];
        gs, pred := s.g, s.pred;
        return;
      }
      openSet := RelaxNeighbours(g, cur, end, openSet, L, s, i);
      assert g.Layout() == L;
      Round(L, start, s, order, i);
      order := order + [cur];
      s := Next(L, s, i);
    }
    Exhausted(L, start, end, s, order);
    gs, pred := s.g, s.pred;
  }
}
