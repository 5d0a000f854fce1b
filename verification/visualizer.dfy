/** `runVisualization`: unless a run is in progress, it clears the
    transient fields, runs the selected search from the start marker to the
    end marker, walks the `previousNode` chain back from the end cell when
    the search visited it (`animateSearch` calls `animatePath` when it meets
    the end cell in the visitation order), and reports "no path" when the
    end cell has no `previousNode`. */
module Visualizer {
  import opened Geometry
  import opened Graph
  import opened GridModel
  import opened SearchLabels
  import opened PathWalk
  import BfsSearch
  import DijkstraSearch
  import AStarSearch

  /** The value of `algorithmSelect`. */
  datatype Algorithm = Bfs | Dijkstra | AStar

  /** What a search leaves for the path walk: links ranked by `rank`; the
      end is in the visitation order exactly when it has a link; then the
      chain back from it is a walk from the start (a shortest one when
      `shortest`), and otherwise, when the search is `complete`, no walk
      leads from the start to the end. */
  ghost predicate Outcome(L: Layout, start: Coord, end: Coord, order: seq<Coord>,
                          pred: map<Coord, Coord>, rank: map<Coord, nat>, shortest: bool, complete: bool)
  {
    && Ranked(pred, rank) && (forall c :: c in rank ==> InBounds(c))
    && (end in order <==> end in pred)
    && (end in order ==> end in rank && L.WalkBetween(start, end, Chain(pred, rank, end)))
    && (end in order && shortest ==> end in rank && L.ShortestWalk(start, end, Chain(pred, rank, end)))
    && (end !in order && complete ==> !L.Reachable(start, end))
  }

  /** After `bfs` the chain back from a visited end cell is a shortest
      path, and the end cell has a link exactly when it was visited. */
  lemma BfsOutcome(L: Layout, start: Coord, end: Coord, order: seq<Coord>,
                   dist: map<Coord, nat>, pred: map<Coord, Coord>)
    requires L.rows == NumRows && L.cols == NumCols && InBounds(start) && start != end
    requires end !in order ==> !L.Reachable(start, end)
    requires forall c :: c in dist ==> InBounds(c)
    requires forall c :: c in order ==> c in dist
    requires start in dist && dist[start] == 0
    requires LevelLinks(L, start, dist, pred, order) && LowerBounds(L, start, dist)
    ensures Outcome(L, start, end, order, pred, dist, true, true)
  {
    LevelChain(L, start, dist, pred, order, start);
    if end in dist {
      ShortestChain(L, start, dist, pred, order, end);
      assert L.Reachable(start, end);
    }
  }

  /** The same after `dijkstra` from an open start. From a start on a wall
      (a start dragged onto a wall keeps it) `dijkstra` skips the start,
      visits nothing and leaves no link, so the end has no `previousNode`
      whether or not it is reachable. */
  lemma DijkstraOutcome(L: Layout, start: Coord, end: Coord, order: seq<Coord>,
                        dist: map<Coord, nat>, pred: map<Coord, Coord>)
    requires L.rows == NumRows && L.cols == NumCols && InBounds(start) && start != end
    requires DijkstraSearch.Found(L, start, end, order, dist, pred)
    ensures Outcome(L, start, end, order, pred, dist, true, start !in L.walls)
    ensures start in L.walls ==> order == [] && pred == map[]
  {
    if start !in L.walls {
      BfsOutcome(L, start, end, order, dist, pred);
    } else {
      assert pred == map[];
      LevelChain(L, start, dist, pred, order, start);
    }
  }

  /** After `astar` the chain back from a visited end cell is a path, and
      the end cell has a link exactly when it was visited. */
  lemma AStarOutcome(L: Layout, start: Coord, end: Coord, order: seq<Coord>,
                     gs: map<Coord, nat>, pred: map<Coord, Coord>)
    requires L.rows == NumRows && L.cols == NumCols && InBounds(start) && start != end
    requires AStarSearch.Searched(L, start, end, order, gs, pred)
    ensures Outcome(L, start, end, order, pred, gs, false, true)
  {
    DescendingChain(L, start, gs, pred, start);
    if end in gs {
      DescendingChain(L, start, gs, pred, end);
      assert L.Reachable(start, end);
    }
  }

  /** The `switch (algorithm)` of `runVisualization`, on a cleared grid. */
  method RunSearch(g: Grid, algorithm: Algorithm, start: Coord, end: Coord)
      returns (order: seq<Coord>, ghost pred: map<Coord, Coord>, ghost rank: map<Coord, nat>)
    requires g.Shaped() && g.Cleared()
    requires InBounds(start) && InBounds(end) && start != end
    modifies g.distance, g.gScore, g.fScore, g.previousNode
    ensures g.LinksAre(pred)
    ensures Outcome(g.Layout(), start, end, order, pred, rank, algorithm != AStar,
                    algorithm != Dijkstra || !g.Wall(start))
    ensures algorithm == Dijkstra && g.Wall(start) ==> order == []
  {
    g.ClearedIsBlank(end);
    ghost var L := g.Layout();
    match algorithm {
      case Bfs =>
        order, rank, pred := BfsSearch.Bfs(g, start, end);
        BfsOutcome(L, start, end, order, rank, pred);
      case Dijkstra =>
        order, rank, pred := DijkstraSearch.Dijkstra(g, start, end);
        DijkstraOutcome(L, start, end, order, rank, pred);
      case AStar =>
        order, rank, pred := AStarSearch.AStar(g, start, end);
        AStarOutcome(L, start, end, order, rank, pred);
    }
  }

  method RunVisualization(g: Grid, algorithm: Algorithm)
      returns (order: seq<Coord>, path: seq<Coord>, noPath: bool)
    requires g.Shaped() && InBounds(g.start) && InBounds(g.end) && g.start != g.end
    modifies g, g.distance, g.gScore, g.fScore, g.previousNode
    ensures g.running == old(g.running) && g.start == old(g.start) && g.end == old(g.end)
    ensures old(g.running) ==>
              order == [] && path == [] && !noPath && unchanged(g.distance, g.gScore, g.fScore, g.previousNode)
    ensures !old(g.running) ==> (noPath <==> path == []) && (path == [] <==> g.end !in order)
    ensures !old(g.running) && path != [] ==> g.Layout().WalkBetween(g.start, g.end, path)
    ensures !old(g.running) && path != [] && algorithm != AStar ==>
              g.Layout().ShortestWalk(g.start, g.end, path)
    ensures !old(g.running) && path == [] && (algorithm != Dijkstra || !g.Wall(g.start)) ==>
              !g.Layout().Reachable(g.start, g.end)
    ensures !old(g.running) && algorithm == Dijkstra && g.Wall(g.start) ==> order == [] && noPath
  {
    if g.running {
      return [], [], false;
    }
    g.running := true;
    g.ClearPath();
    var start, end := g.start, g.end;
    ghost var pred, rank;
    order, pred, rank := RunSearch(g, algorithm, start, end);
    path := [];
    if end in order {
      path := WalkBack(g, end, pred, rank);
    }
    g.LinkRead(pred, end);
    noPath := g.Prev(end) == None;
    g.running := false;
  }
}
