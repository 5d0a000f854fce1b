/** The chain walk of `animatePath(endNode)`: starting at the end cell, it
    puts each cell at the front of `path` and moves to its `previousNode`
    until that is null, so `path` runs from the head of the chain to the end
    cell.

    The walk stops only because every link a search leaves behind points to
    a cell of smaller rank: the hop count for `bfs` and `dijkstra`, the
    gScore for `astar`. The ghost function `Chain` is the list the walk
    builds; the lemmas below say what it is after each search. */
module PathWalk {
  import opened Geometry
  import opened Graph
  import opened GridModel
  import opened SearchLabels
  import AStarSearch

  /** Every link leads from a ranked cell to a ranked cell of smaller rank. */
  ghost predicate Ranked(pred: map<Coord, Coord>, rank: map<Coord, nat>) {
    forall c {:trigger pred[c]} :: c in pred ==> c in rank && pred[c] in rank && rank[pred[c]] < rank[c]
  }

  /** The cells met when following the links back from `c`, head first. */
  ghost function Chain(pred: map<Coord, Coord>, rank: map<Coord, nat>, c: Coord): seq<Coord>
    requires Ranked(pred, rank) && c in rank
    decreases rank[c]
  {
    if c in pred then Chain(pred, rank, pred[c]) + [c] else [c]
  }

  /** The chain ends at `c`, starts at a cell without a link, follows the
      links one cell at a time and climbs strictly in rank. */
  lemma {:induction false} ChainShape(pred: map<Coord, Coord>, rank: map<Coord, nat>, c: Coord)
    requires Ranked(pred, rank) && c in rank
    ensures var p := Chain(pred, rank, c);
      && |p| > 0 && p[|p| - 1] == c && p[0] !in pred
      && (forall i :: 0 <= i < |p| ==> p[i] in rank)
      && (forall i :: 0 < i < |p| ==> p[i] in pred && pred[p[i]] == p[i - 1])
      && (forall i, j :: 0 <= i < j < |p| ==> rank[p[i]] < rank[p[j]])
    decreases rank[c]
  {
    if c in pred {
      ChainShape(pred, rank, pred[c]);
    }
  }

  /** A chain climbs strictly in rank, so it never repeats a cell. */
  lemma ChainDistinct(pred: map<Coord, Coord>, rank: map<Coord, nat>, c: Coord)
    requires Ranked(pred, rank) && c in rank
    ensures Distinct(Chain(pred, rank, c))
  {
    ChainShape(pred, rank, c);
  }

  /** One step of the walk: moving `c` from the chain to the front of the
      walked part keeps the two together equal to the whole chain. */
  lemma ChainStep(pred: map<Coord, Coord>, rank: map<Coord, nat>, c: Coord, path: seq<Coord>, end: Coord)
    requires Ranked(pred, rank) && c in rank && end in rank
    requires Chain(pred, rank, c) + path == Chain(pred, rank, end)
    ensures c in pred ==> pred[c] in rank && Chain(pred, rank, pred[c]) + ([c] + path) == Chain(pred, rank, end)
    ensures c !in pred ==> [c] + path == Chain(pred, rank, end)
  {
    if c in pred {
      assert Chain(pred, rank, c) == Chain(pred, rank, pred[c]) + [c];
      assert Chain(pred, rank, c) + path == Chain(pred, rank, pred[c]) + ([c] + path);
    }
  }

  /** `animatePath`'s `while (currentNode !== null)` loop over the
      `previousNode` fields, which hold the links `pred`. */
  method WalkBack(g: Grid, end: Coord, ghost pred: map<Coord, Coord>, ghost rank: map<Coord, nat>)
      returns (path: seq<Coord>)
    requires Spans(g.previousNode) && g.LinksAre(pred)
    requires Ranked(pred, rank) && end in rank && forall c :: c in rank ==> InBounds(c)
    ensures path == Chain(pred, rank, end)
  {
    path := [];
    var cur: Option<Coord> := Some(end);
    while cur != None
      invariant cur.Some? ==> cur.value in rank
      invariant cur.Some? ==> Chain(pred, rank, cur.value) + path == Chain(pred, rank, end)
      invariant cur.None? ==> path == Chain(pred, rank, end)
      decreases if cur.Some? then rank[cur.value] + 1 else 0
    {
      var c := cur.value;
      ChainStep(pred, rank, c, path, end);
      g.LinkRead(pred, c);
      path := [c] + path;
      cur := g.Prev(c);
    }
  }

  /** After `bfs` or `dijkstra`, whose links step down one hop count at a
      time to the start at 0, the chain from a labelled cell is a walk from
      the start of exactly its label's length. */
  lemma {:induction false} LevelChain(L: Layout, start: Coord, dist: map<Coord, nat>,
                                      pred: map<Coord, Coord>, done: seq<Coord>, c: Coord)
    requires LevelLinks(L, start, dist, pred, done)
    requires start in dist && dist[start] == 0 && L.InBounds(start) && c in dist
    ensures Ranked(pred, dist)
    ensures L.WalkBetween(start, c, Chain(pred, dist, c))
    ensures |Chain(pred, dist, c)| - 1 == dist[c]
    decreases dist[c]
  {
    assert Ranked(pred, dist);
    if c in pred {
      var p := Chain(pred, dist, pred[c]);
      LevelChain(L, start, dist, pred, done, pred[c]);
      assert Chain(pred, dist, c) == p + [c];
      assert L.Step(p[|p| - 1], c);
    }
  }

  /** With the labels lower bounds on walk length as well, that walk is a
      shortest one: following `previousNode` back from a cell `bfs` or
      `dijkstra` labelled gives a shortest path by hop count. */
  lemma ShortestChain(L: Layout, start: Coord, dist: map<Coord, nat>,
                      pred: map<Coord, Coord>, done: seq<Coord>, c: Coord)
    requires LevelLinks(L, start, dist, pred, done) && LowerBounds(L, start, dist)
    requires start in dist && dist[start] == 0 && L.InBounds(start) && c in dist
    ensures Ranked(pred, dist)
    ensures L.ShortestWalk(start, c, Chain(pred, dist, c))
  {
    LevelChain(L, start, dist, pred, done, c);
  }

  /** After `astar`, whose links step down in gScore to the start at 0, the
      chain from a scored cell is a walk from the start no longer than the
      cell's gScore. */
  lemma {:induction false} DescendingChain(L: Layout, start: Coord, gs: map<Coord, nat>,
                                           pred: map<Coord, Coord>, c: Coord)
    requires AStarSearch.Descending(L, start, gs, pred)
    requires start in gs && gs[start] == 0 && L.InBounds(start) && c in gs
    ensures Ranked(pred, gs)
    ensures L.WalkBetween(start, c, Chain(pred, gs, c))
    ensures |Chain(pred, gs, c)| - 1 <= gs[c]
    decreases gs[c]
  {
    assert Ranked(pred, gs);
    if c in pred {
      var p := Chain(pred, gs, pred[c]);
      DescendingChain(L, start, gs, pred, pred[c]);
      assert Chain(pred, gs, c) == p + [c];
      assert L.Step(p[|p| - 1], c);
    }
  }
}
