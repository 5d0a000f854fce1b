/** `dijkstra(startNode, endNode)`: uniform-cost search over the whole list
    of cells. Each round sorts the unvisited cells by `distance` and takes
    the first; a wall is dropped without being recorded, an infinite
    distance ends the search, and otherwise the cell is recorded and its
    open neighbours are relaxed with distance + 1.

    The unvisited list is re-sorted every round, so only its contents
    matter and it is held as a set. The ghost map `dist` holds the finite
    `distance` fields and `pred` the `previousNode` links. */
module DijkstraSearch {
  import opened Geometry
  import opened Graph
  import opened GridModel
  import opened SearchLabels

  /** The unvisited list: a cell leaves it at most once, the recorded cells
      are open cells that have left it, and every open cell that has left it
      was recorded. */
  ghost predicate Picked(L: Layout, start: Coord, unvisited: set<Coord>, order: seq<Coord>) {
    && (forall c :: c in unvisited ==> InBounds(c))
    && Distinct(order)
    && (forall c :: c in order ==> InBounds(c) && c !in unvisited && c !in L.walls)
    && (forall c :: InBounds(c) && c !in unvisited && c !in L.walls ==> c in order)
    && (|order| > 0 ==> order[0] == start)
  }

  /** The finite distances: the start is at 0, no label exceeds `level + 1`,
      the recorded cells are labelled at most `level` in non-decreasing
      order, and the labelled unvisited cells are at least `level`. A start
      on a wall is dropped, so then nothing is ever recorded. */
  ghost predicate Labelled(L: Layout, start: Coord, unvisited: set<Coord>, order: seq<Coord>,
                           dist: map<Coord, nat>, level: nat)
  {
    && start in dist && dist[start] == 0
    && (forall c :: c in dist ==> InBounds(c) && dist[c] <= level + 1)
    && (forall c :: c in order ==> c in dist && dist[c] <= level)
    && Nondecreasing(order, dist)
    && (forall c :: c in unvisited && c in dist ==> level <= dist[c])
    && (start in L.walls ==> order == [])
    && (|order| == 0 ==> dist.Keys == {start} && level == 0)
  }

  /** The state of the search between two rounds; the first `done` recorded
      cells have had their neighbours relaxed. */
  ghost predicate Settling(L: Layout, start: Coord, unvisited: set<Coord>, order: seq<Coord>,
                           dist: map<Coord, nat>, pred: map<Coord, Coord>, level: nat, done: nat)
  {
    && Picked(L, start, unvisited, order)
    && Labelled(L, start, unvisited, order, dist, level)
    && done <= |order|
    && ClosedInto(L, Finished(order, done), dist.Keys)
    && LowerBounds(L, start, dist)
    && LevelLinks(L, start, dist, pred, order)
  }

  /** `unvisitedNodes.sort((a, b) => a.distance - b.distance); unvisitedNodes.shift()`:
      some unvisited cell of least distance, `Infinity` above every number.
      The cells are scanned in an arbitrary order, as the list's order does
      not matter once it is sorted. */
  method ClosestUnvisited(g: Grid, unvisited: set<Coord>, ghost dist: map<Coord, nat>) returns (cur: Coord)
    requires Spans(g.distance) && g.DistancesAre(dist) && unvisited != {}
    requires forall c :: c in unvisited ==> InBounds(c)
    ensures cur in unvisited && g.Dist(cur) == ScoreOf(dist, cur)
    ensures forall c :: c in unvisited ==> ScoreOf(dist, cur).AtMost(ScoreOf(dist, c))
  {
    g.DistancesRead(dist);
    cur :| cur in unvisited;
    var rest := unvisited - {cur};
    while rest != {}
      invariant rest <= unvisited && cur in unvisited
      invariant forall c :: c in unvisited && c !in rest ==> g.Dist(cur).AtMost(g.Dist(c))
      decreases rest
    {
      var c :| c in rest;
      if !g.Dist(cur).AtMost(g.Dist(c)) {
        cur := c;
      }
      rest := rest - {c};
    }
  }

  /** The search starts with every cell unvisited and only the start at
      distance 0. */
  lemma Begins(L: Layout, start: Coord, unvisited: set<Coord>)
    requires InBounds(start)
    requires forall c :: c in unvisited <==> InBounds(c)
    ensures Settling(L, start, unvisited, [], map[start := 0], map[], 0, 0)
  {
    forall x, q | x in map[start := 0] && L.WalkBetween(start, x, q)
      ensures |q| - 1 >= 0
    {
    }
  }

  /** A labelled cell other than the start is open. */
  lemma LabelledOpen(L: Layout, start: Coord, dist: map<Coord, nat>, pred: map<Coord, Coord>,
                     order: seq<Coord>, c: Coord)
    requires LevelLinks(L, start, dist, pred, order)
    requires c in dist && c != start
    ensures c !in L.walls
  {
    assert c in pred;
  }

  /** `if (closestNode.isWall) continue;`: dropping a wall keeps the state. */
  lemma SkipWall(L: Layout, start: Coord, unvisited: set<Coord>, order: seq<Coord>,
                 dist: map<Coord, nat>, pred: map<Coord, Coord>, level: nat, cur: Coord)
    requires Settling(L, start, unvisited, order, dist, pred, level, |order|)
    requires cur in unvisited && cur in L.walls
    ensures Settling(L, start, unvisited - {cur}, order, dist, pred, level, |order|)
  {
  }

  /** Recording the closest cell keeps the unvisited list and the record
      in step. */
  lemma RecordPicked(L: Layout, start: Coord, unvisited: set<Coord>, order: seq<Coord>, cur: Coord)
    requires Picked(L, start, unvisited, order)
    requires cur in unvisited && cur !in L.walls && (|order| == 0 ==> cur == start)
    ensures Picked(L, start, unvisited - {cur}, order + [cur])
  {
  }

  /** Recording the closest cell makes its distance the new level. */
  lemma RecordLabelled(L: Layout, start: Coord, unvisited: set<Coord>, order: seq<Coord>,
                       dist: map<Coord, nat>, level: nat, cur: Coord)
    requires Labelled(L, start, unvisited, order, dist, level)
    requires cur in unvisited && cur !in L.walls && cur in dist
    requires forall c :: c in unvisited ==> ScoreOf(dist, cur).AtMost(ScoreOf(dist, c))
    ensures Labelled(L, start, unvisited - {cur}, order + [cur], dist, dist[cur])
  {
    if |order| == 0 {
      assert cur == start;
    }
    NondecreasingAppend(order, dist, cur);
    forall c | c in unvisited - {cur} && c in dist
      ensures dist[cur] <= dist[c]
    {
      assert ScoreOf(dist, cur).AtMost(ScoreOf(dist, c));
    }
  }

  /** Recording the closest cell when its distance is finite: it becomes
      the newest recorded cell and its distance the new level. */
  lemma Record(L: Layout, start: Coord, unvisited: set<Coord>, order: seq<Coord>,
               dist: map<Coord, nat>, pred: map<Coord, Coord>, level: nat, cur: Coord)
    requires Settling(L, start, unvisited, order, dist, pred, level, |order|)
    requires cur in unvisited && cur !in L.walls && cur in dist
    requires forall c :: c in unvisited ==> ScoreOf(dist, cur).AtMost(ScoreOf(dist, c))
    ensures Settling(L, start, unvisited - {cur}, order + [cur], dist, pred, dist[cur], |order|)
  {
    RecordLabelled(L, start, unvisited, order, dist, level, cur);
    RecordPicked(L, start, unvisited, order, cur);
    assert (order + [cur])[..|order|] == order;
  }

  /** When no unvisited cell has a finite distance (the closest one is at
      `Infinity`, or none is left) and the start is open, the labelled
      cells are exactly the recorded ones and no edge leaves them. */
  lemma Stalled(L: Layout, start: Coord, unvisited: set<Coord>, order: seq<Coord>,
                dist: map<Coord, nat>, pred: map<Coord, Coord>, level: nat)
    requires Settling(L, start, unvisited, order, dist, pred, level, |order|)
    requires forall c :: c in unvisited ==> c !in dist
    ensures start !in L.walls ==> start in order && L.Closed(dist.Keys)
    ensures start !in L.walls ==> forall c :: c in dist ==> c in order
  {
    if start !in L.walls {
      forall c | c in dist
        ensures c in order
      {
        if c != start {
          LabelledOpen(L, start, dist, pred, order, c);
        }
      }
      assert order[..|order|] == order;
    }
  }

  /** Hence, with the start open, a cell that was not recorded cannot be
      reached from the start. */
  lemma Unreached(L: Layout, start: Coord, end: Coord, order: seq<Coord>, dist: map<Coord, nat>)
    requires L.Closed(dist.Keys) && start in dist
    requires forall c :: c in dist ==> c in order
    requires end !in order
    ensures !L.Reachable(start, end)
  {
    ClosedSetBoundsReach(L, dist.Keys, start, end);
  }

  /** What a search state says about the recorded cells and the labels. */
  lemma Outcome(L: Layout, start: Coord, unvisited: set<Coord>, order: seq<Coord>,
                dist: map<Coord, nat>, pred: map<Coord, Coord>, level: nat, done: nat)
    requires Settling(L, start, unvisited, order, dist, pred, level, done)
    ensures forall c :: c in order ==> InBounds(c) && c !in L.walls && c in dist
    ensures Distinct(order) && (|order| > 0 ==> order[0] == start)
    ensures start in L.walls ==> order == []
    ensures start in dist && dist[start] == 0
    ensures forall c :: c in dist ==> InBounds(c)
    ensures Nondecreasing(order, dist)
    ensures LevelLinks(L, start, dist, pred, order)
    ensures LowerBounds(L, start, dist)
  {
  }

  /** What `dijkstra` returns: the recorded cells are distinct open cells,
      starting with the start; the end, if recorded, is last; with the start
      open, an end that was not recorded is unreachable; the labels start at
      0, grow along the order, are lower bounds on walk length, and follow
      the links. */
  ghost predicate Found(L: Layout, start: Coord, end: Coord, order: seq<Coord>,
                        dist: map<Coord, nat>, pred: map<Coord, Coord>)
  {
    && (forall c :: c in order ==> InBounds(c) && c !in L.walls && c in dist)
    && Distinct(order) && (|order| > 0 ==> order[0] == start)
    && (start in L.walls ==> order == [])
    && (end in order ==> order[|order| - 1] == end)
    && (start !in L.walls && end !in order ==> !L.Reachable(start, end))
    && start in dist && dist[start] == 0
    && (forall c :: c in dist ==> InBounds(c))
    && Nondecreasing(order, dist)
    && LevelLinks(L, start, dist, pred, order)
    && LowerBounds(L, start, dist)
  }

  /** One round of the main loop after the closest unvisited cell `cur` is
      taken out: a wall is dropped, a cell at `Infinity` ends the search,
      and any other cell is recorded, which ends the search if it is the end. */
  lemma Round(L: Layout, start: Coord, end: Coord, unvisited: set<Coord>, order: seq<Coord>,
              dist: map<Coord, nat>, pred: map<Coord, Coord>, level: nat, cur: Coord)
    requires L.rows == NumRows && L.cols == NumCols
    requires Settling(L, start, unvisited, order, dist, pred, level, |order|)
    requires end !in order
    requires cur in unvisited
    requires forall c :: c in unvisited ==> ScoreOf(dist, cur).AtMost(ScoreOf(dist, c))
    ensures cur in L.walls ==> Settling(L, start, unvisited - {cur}, order, dist, pred, level, |order|)
    ensures cur !in L.walls && cur !in dist ==> Found(L, start, end, order, dist, pred)
    ensures cur !in L.walls && cur in dist ==>
      && (forall c :: c in dist ==> dist[c] <= dist[cur] + 1)
      && (cur == end ==> Found(L, start, end, order + [cur], dist, pred))
      && (cur != end ==>
            var t := RelaxedFirst(Labels(dist, pred), cur, Neighbours(L, cur), |Neighbours(L, cur)|, dist[cur]);
            Settling(L, start, unvisited - {cur}, order + [cur], t.dist, t.pred, dist[cur], |order| + 1))
  {
    if cur in L.walls {
      SkipWall(L, start, unvisited, order, dist, pred, level, cur);
    } else if cur !in dist {
      forall c | c in unvisited
        ensures c !in dist
      {
        assert ScoreOf(dist, cur).AtMost(ScoreOf(dist, c));
      }
      Exhausted(L, start, end, unvisited, order, dist, pred, level);
    } else {
      Record(L, start, unvisited, order, dist, pred, level, cur);
      if cur == end {
        Outcome(L, start, unvisited - {cur}, order + [cur], dist, pred, dist[cur], |order|);
      } else {
        NeighboursAreSteps(L, cur);
        RelaxDone(L, start, unvisited - {cur}, order + [cur], Labels(dist, pred), dist[cur], |order|,
                  cur, Neighbours(L, cur));
      }
    }
  }

  /** With no unvisited cell at a finite distance the search is over. */
  lemma Exhausted(L: Layout, start: Coord, end: Coord, unvisited: set<Coord>, order: seq<Coord>,
                  dist: map<Coord, nat>, pred: map<Coord, Coord>, level: nat)
    requires Settling(L, start, unvisited, order, dist, pred, level, |order|)
    requires forall c :: c in unvisited ==> c !in dist
    requires end !in order
    ensures Found(L, start, end, order, dist, pred)
  {
    Stalled(L, start, unvisited, order, dist, pred, level);
    if start !in L.walls {
      Unreached(L, start, end, order, dist);
    }
    Outcome(L, start, unvisited, order, dist, pred, level, |order|);
  }

  /** The labels and links the neighbour loop updates. */
  datatype Labels = Labels(dist: map<Coord, nat>, pred: map<Coord, Coord>)

  /** The body of the neighbour loop: a neighbour at `Infinity` gets
      distance `level + 1` and `cur` as its predecessor. (A neighbour with a
      finite distance is never improved: it is at most `level + 1`.) */
  function Relaxed(s: Labels, cur: Coord, n: Coord, level: nat): Labels {
    if n in s.dist then s else Labels(s.dist[n := level + 1], s.pred[n := cur])
  }

  /** The neighbour loop run over the first `k` cells of `ns`, in order. */
  function RelaxedFirst(s: Labels, cur: Coord, ns: seq<Coord>, k: nat, level: nat): Labels
    requires k <= |ns|
  {
    if k == 0 then s
    else Relaxed(RelaxedFirst(s, cur, ns, k - 1, level), cur, ns[k - 1], level)
  }

  /** The new label `level + 1` undercuts no walk. */
  lemma RelaxBounds(L: Layout, start: Coord, unvisited: set<Coord>, order: seq<Coord>,
                    dist: map<Coord, nat>, pred: map<Coord, Coord>, level: nat, done: nat,
                    cur: Coord, n: Coord)
    requires Settling(L, start, unvisited, order, dist, pred, level, done)
    requires done + 1 == |order| && cur == order[done] && dist[cur] == level
    requires n !in dist
    ensures LowerBounds(L, start, dist[n := level + 1])
  {
    var closed := Finished(order, done);
    forall k | 0 <= k < done
      ensures order[k] in closed
    {
      assert order[k] == order[..done][k];
    }
    assert start !in L.walls;
    forall x | x in dist && x !in closed
      ensures dist[x] >= level
    {
      if x in order {
        var k :| 0 <= k < |order| && order[k] == x;
      } else if x != start {
        LabelledOpen(L, start, dist, pred, order, x);
      }
    }
    LabelFrontier(L, start, dist.Keys, closed, dist, level, n);
  }

  /** One round of the neighbour loop keeps the search state. */
  lemma RelaxedKeeps(L: Layout, start: Coord, unvisited: set<Coord>, order: seq<Coord>, s: Labels,
                     level: nat, done: nat, cur: Coord, n: Coord)
    requires Settling(L, start, unvisited, order, s.dist, s.pred, level, done)
    requires done + 1 == |order| && cur == order[done] && cur in s.dist && s.dist[cur] == level
    requires L.Step(cur, n) && InBounds(n)
    ensures var t := Relaxed(s, cur, n, level);
      && Settling(L, start, unvisited, order, t.dist, t.pred, level, done)
      && cur in t.dist && t.dist[cur] == level
  {
    if n !in s.dist {
      assert n != start && n !in order;
      RelaxBounds(L, start, unvisited, order, s.dist, s.pred, level, done, cur, n);
      NondecreasingFrame(order, s.dist, n, level + 1);
      assert cur in order;
      LinkLabel(L, start, order, s.dist, s.pred, level, cur, n);
    }
  }

  /** The neighbour loop labels every cell it examines and forgets no label. */
  lemma {:induction false} RelaxedFirstGrows(s: Labels, cur: Coord, ns: seq<Coord>, k: nat, level: nat)
    requires k <= |ns|
    ensures var t := RelaxedFirst(s, cur, ns, k, level);
      && (forall j :: 0 <= j < k ==> ns[j] in t.dist)
      && s.dist.Keys <= t.dist.Keys
  {
    if k > 0 {
      RelaxedFirstGrows(s, cur, ns, k - 1, level);
    }
  }

  /** Any property of the labels that one round of the neighbour loop keeps,
      the whole loop keeps. */
  lemma {:induction false} RelaxedFirstPreserves(Inv: Labels -> bool, s: Labels, cur: Coord,
                                                 ns: seq<Coord>, k: nat, level: nat)
    requires k <= |ns| && Inv(s)
    requires forall u: Labels, j: nat :: j < |ns| && Inv(u) ==> Inv(Relaxed(u, cur, ns[j], level))
    ensures Inv(RelaxedFirst(s, cur, ns, k, level))
  {
    if k > 0 {
      RelaxedFirstPreserves(Inv, s, cur, ns, k - 1, level);
    }
  }

  /** The neighbour loop keeps the search state and the label of `cur`. */
  lemma RelaxedAllKeeps(L: Layout, start: Coord, unvisited: set<Coord>, order: seq<Coord>, s: Labels,
                        level: nat, done: nat, cur: Coord, ns: seq<Coord>)
    requires done + 1 == |order| && Settling(L, start, unvisited, order, s.dist, s.pred, level, done)
    requires cur == order[done] && cur in s.dist && s.dist[cur] == level
    requires forall j :: 0 <= j < |ns| ==> L.Step(cur, ns[j]) && InBounds(ns[j])
    ensures var t := RelaxedFirst(s, cur, ns, |ns|, level);
      Settling(L, start, unvisited, order, t.dist, t.pred, level, done)
  {
    var Inv := (u: Labels) =>
      && Settling(L, start, unvisited, order, u.dist, u.pred, level, done)
      && cur in u.dist && u.dist[cur] == level;
    forall u: Labels, j: nat | j < |ns| && Inv(u)
      ensures Inv(Relaxed(u, cur, ns[j], level))
    {
      RelaxedKeeps(L, start, unvisited, order, u, level, done, cur, ns[j]);
    }
    RelaxedFirstPreserves(Inv, s, cur, ns, |ns|, level);
  }

  /** Once every open neighbour of `cur` is labelled, `cur` is finished. */
  lemma Close(L: Layout, start: Coord, unvisited: set<Coord>, order: seq<Coord>,
              dist: map<Coord, nat>, pred: map<Coord, Coord>, level: nat, done: nat,
              cur: Coord, ns: seq<Coord>)
    requires Settling(L, start, unvisited, order, dist, pred, level, done)
    requires done < |order| && cur == order[done]
    requires forall y :: y in ns <==> L.Step(cur, y)
    requires forall k :: 0 <= k < |ns| ==> ns[k] in dist
    ensures Settling(L, start, unvisited, order, dist, pred, level, done + 1)
  {
    FinishedNext(order, done);
    forall y | L.Step(cur, y)
      ensures y in dist
    {
      var k :| 0 <= k < |ns| && ns[k] == y;
    }
  }

  /** After the neighbour loop over all open neighbours of `cur`, the state
      holds with `cur` finished. */
  lemma RelaxDone(L: Layout, start: Coord, unvisited: set<Coord>, order: seq<Coord>, s: Labels,
                  level: nat, done: nat, cur: Coord, ns: seq<Coord>)
    requires done + 1 == |order| && Settling(L, start, unvisited, order, s.dist, s.pred, level, done)
    requires cur == order[done] && cur in s.dist && s.dist[cur] == level
    requires forall y :: y in ns <==> L.Step(cur, y)
    requires forall y :: y in ns ==> InBounds(y)
    ensures var t := RelaxedFirst(s, cur, ns, |ns|, level);
      Settling(L, start, unvisited, order, t.dist, t.pred, level, |order|)
  {
    RelaxedAllKeeps(L, start, unvisited, order, s, level, done, cur, ns);
    RelaxedFirstGrows(s, cur, ns, |ns|, level);
    var t := RelaxedFirst(s, cur, ns, |ns|, level);
    Close(L, start, unvisited, order, t.dist, t.pred, level, done, cur, ns);
  }

  /** The `for (const neighbor of ...)` loop of `dijkstra` over the
      neighbour list `ns` of the recorded cell `cur`: every neighbour whose
      `distance` exceeds `distance` (`closestNode.distance + 1`) gets that
      distance and `cur` as `previousNode`, which on the labels is
      `RelaxedFirst` over `ns`. */
  method RelaxAll(g: Grid, cur: Coord, distance: nat, ns: seq<Coord>,
                  ghost s: Labels, ghost level: nat) returns (ghost t: Labels)
    requires g.Shaped() && g.DistancesAre(s.dist) && g.LinksAre(s.pred)
    requires distance == level + 1
    requires forall c :: c in s.dist ==> s.dist[c] <= level + 1
    requires forall j :: 0 <= j < |ns| ==> InBounds(ns[j])
    modifies g.distance, g.previousNode
    ensures t == RelaxedFirst(s, cur, ns, |ns|, level)
    ensures g.DistancesAre(t.dist) && g.LinksAre(t.pred)
  {
    t := s;
    for i := 0 to |ns|
      invariant g.DistancesAre(t.dist) && g.LinksAre(t.pred)
      invariant t == RelaxedFirst(s, cur, ns, i, level)
      invariant forall c :: c in t.dist ==> t.dist[c] <= level + 1
    {
      var n := ns[i];
      g.DistanceRead(t.dist, n);
      if g.Dist(n).Exceeds(distance) {
        g.SetDist(n, distance, t.dist);
        g.SetPrev(n, cur, t.pred);
        t := Labels(t.dist[n := distance], t.pred[n := cur]);
      }
    }
  }

  /** The neighbour step of `dijkstra` for the recorded cell `cur`: the
      labels after it are `RelaxedFirst` over `getNeighbors(cur)`. */
  method RelaxNeighbours(g: Grid, cur: Coord, ghost s: Labels, ghost level: nat)
      returns (ghost t: Labels)
    requires g.Shaped() && InBounds(cur) && g.DistancesAre(s.dist) && g.LinksAre(s.pred)
    requires cur in s.dist && s.dist[cur] == level
    requires forall c :: c in s.dist ==> s.dist[c] <= level + 1
    modifies g.distance, g.previousNode
    ensures t == RelaxedFirst(s, cur, Neighbours(g.Layout(), cur), |Neighbours(g.Layout(), cur)|, level)
    ensures g.DistancesAre(t.dist) && g.LinksAre(t.pred)
  {
    g.DistanceRead(s.dist, cur);
    // `closestNode.distance + 1`, the same for every neighbour
    var distance := g.Dist(cur).value + 1;
    var ns := g.GetNeighbors(cur);
    NeighboursInBounds(g.Layout(), cur);
    t := RelaxAll(g, cur, distance, ns, s, level);
  }

  method Dijkstra(g: Grid, start: Coord, end: Coord)
      returns (order: seq<Coord>, ghost dist: map<Coord, nat>, ghost pred: map<Coord, Coord>)
    requires g.Shaped() && InBounds(start) && InBounds(end)
    requires g.Unlinked() && g.DistancesAre(map[])
    modifies g.distance, g.previousNode
    ensures Found(g.Layout(), start, end, order, dist, pred)
    ensures g.DistancesAre(dist) && g.LinksAre(pred)
  {
    ghost var L := g.Layout();
    var unvisited := set c | c in AllCells();
    g.SetDist(start, 0, map[]);
    order := [];
    dist := map[start := 0];
    pred := map[];
    ghost var level: nat := 0;
    Begins(L, start, unvisited);
    while unvisited != {}
      invariant g.Layout() == L && g.DistancesAre(dist) && g.LinksAre(pred)
      invariant Settling(L, start, unvisited, order, dist, pred, level, |order|)
      invariant end !in order
      decreases unvisited
    {
      var cur := ClosestUnvisited(g, unvisited, dist);
      ghost var before := unvisited;
      unvisited := unvisited - {cur};
      Round(L, start, end, before, order, dist, pred, level, cur);
      if g.Wall(cur) {
        continue;
      }
      if g.Dist(cur) == Infinity {
        return;
      }
      order := order + [cur];
      level := dist[cur];
      if cur == end {
        return;
      }
      ghost var t := RelaxNeighbours(g, cur, Labels(dist, pred), level);
      dist, pred := t.dist, t.pred;
    }
    Exhausted(L, start, end, unvisited, order, dist, pred, level);
  }
}
