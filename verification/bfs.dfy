/** `bfs(startNode, endNode)`: breadth-first search over the grid with a FIFO
    queue. A cell is marked visited when it is enqueued, and the search stops
    as soon as the end cell is dequeued. It returns the visitation order and
    leaves a `previousNode` link on every enqueued cell except the start.

    The ghost map `dist` labels every visited cell with its BFS level; the
    contract says the levels are exact hop counts, which makes the
    `previousNode` chain from the end cell a shortest path. */
module BfsSearch {
  import opened Geometry
  import opened Graph
  import opened GridModel
  import opened SearchLabels

  /** The queue discipline: `order` holds the dequeued cells, `queue` the
      enqueued ones still waiting, `visited` both, and no cell is twice in
      either. */
  ghost predicate Queued(start: Coord, order: seq<Coord>, queue: seq<Coord>, visited: set<Coord>) {
    && Distinct(order) && Distinct(queue)
    && (forall c :: c in order ==> c !in queue)
    && (forall c :: c in visited <==> c in order || c in queue)
    && (forall c :: c in visited ==> InBounds(c))
    && start in visited
    && (|order| == 0 ==> queue == [start])
    && (|order| > 0 ==> order[0] == start)
  }

  /** The level labels: labels along `order` and along `queue` never
      decrease, dequeued cells are at most `level`, and the queue spans
      `level` and `level + 1`. */
  ghost predicate Levelled(start: Coord, order: seq<Coord>, queue: seq<Coord>, visited: set<Coord>,
                           dist: map<Coord, nat>, level: nat)
    requires forall c :: c in visited <==> c in order || c in queue
    requires start in visited
  {
    && dist.Keys == visited
    && dist[start] == 0
    && Nondecreasing(order, dist) && Nondecreasing(queue, dist)
    && (forall c :: c in order ==> dist[c] <= level)
    && (forall c :: c in queue ==> level <= dist[c] <= level + 1)
  }

  /** The state of the search between two queue operations: the queue
      discipline, the level labels, the finished cells, the labels as lower
      bounds on walk length, and the links following the labels. */
  ghost predicate Searching(L: Layout, start: Coord, order: seq<Coord>, queue: seq<Coord>,
                           visited: set<Coord>, dist: map<Coord, nat>, pred: map<Coord, Coord>,
                           level: nat, done: nat)
  {
    && Queued(start, order, queue, visited)
    && Levelled(start, order, queue, visited, dist, level)
    && done <= |order|
    && ClosedInto(L, Finished(order, done), visited)
    && LowerBounds(L, start, dist)
    && LevelLinks(L, start, dist, pred, order)
  }

  lemma DequeueQueued(start: Coord, order: seq<Coord>, queue: seq<Coord>, visited: set<Coord>)
    requires Queued(start, order, queue, visited) && |queue| > 0
    ensures Queued(start, order + [queue[0]], queue[1..], visited)
  {
    var cur := queue[0];
    var order', queue' := order + [cur], queue[1..];
    assert cur in queue;
    forall c | c in visited
      ensures c in order' || c in queue'
    {
      if c in queue && c != cur {
        var k :| 0 <= k < |queue| && queue[k] == c;
        assert queue'[k - 1] == c;
      }
    }
    forall c | c in queue'
      ensures c !in order'
    {
      var k :| 0 <= k < |queue'| && queue'[k] == c;
      assert queue[k + 1] == c;
    }
  }

  lemma DequeueLevelled(start: Coord, order: seq<Coord>, queue: seq<Coord>, visited: set<Coord>,
                        dist: map<Coord, nat>, level: nat)
    requires Queued(start, order, queue, visited) && |queue| > 0
    requires Levelled(start, order, queue, visited, dist, level)
    ensures Queued(start, order + [queue[0]], queue[1..], visited)
    ensures queue[0] in dist
    ensures Levelled(start, order + [queue[0]], queue[1..], visited, dist, dist[queue[0]])
  {
    DequeueQueued(start, order, queue, visited);
    var cur := queue[0];
    var order', queue' := order + [cur], queue[1..];
    assert cur in queue;
    forall c | c in order'
      ensures dist[c] <= dist[cur]
    {
      if c != cur {
        assert c in order;
      }
    }
    forall i, j | 0 <= i <= j < |order'|
      ensures dist[order'[i]] <= dist[order'[j]]
    {
      if j == |order'| - 1 {
        assert order'[i] in order';
      }
    }
    forall c | c in queue'
      ensures dist[cur] <= dist[c] <= dist[cur] + 1
    {
      var k :| 0 <= k < |queue'| && queue'[k] == c;
      assert queue[k + 1] == c;
    }
    forall i, j | 0 <= i <= j < |queue'|
      ensures dist[queue'[i]] <= dist[queue'[j]]
    {
      assert queue'[i] == queue[i + 1] && queue'[j] == queue[j + 1];
    }
  }

  /** Dequeueing the head moves it to `order` and raises the level to its label. */
  lemma Dequeue(L: Layout, start: Coord, order: seq<Coord>, queue: seq<Coord>,
                visited: set<Coord>, dist: map<Coord, nat>, pred: map<Coord, Coord>,
                level: nat)
    requires Searching(L, start, order, queue, visited, dist, pred, level, |order|)
    requires |queue| > 0
    ensures queue[0] in dist
    ensures Searching(L, start, order + [queue[0]], queue[1..], visited, dist, pred, dist[queue[0]], |order|)
  {
    DequeueLevelled(start, order, queue, visited, dist, level);
    assert (order + [queue[0]])[..|order|] == order[..|order|];
    forall c | c in pred
      ensures pred[c] in order + [queue[0]]
    {
      assert pred[c] in order;
    }
  }

  lemma EnqueueQueued(start: Coord, order: seq<Coord>, queue: seq<Coord>, visited: set<Coord>, n: Coord)
    requires Queued(start, order, queue, visited) && |order| > 0
    requires InBounds(n) && n !in visited
    ensures Queued(start, order, queue + [n], visited + {n})
  {
    var queue' := queue + [n];
    forall i, j | 0 <= i < j < |queue'|
      ensures queue'[i] != queue'[j]
    {
      if j == |queue'| - 1 {
        assert queue'[i] in queue;
      }
    }
    forall c | c in visited + {n}
      ensures c in order || c in queue'
    {
      if c in queue {
        var k :| 0 <= k < |queue| && queue[k] == c;
        assert queue'[k] == c;
      }
    }
  }

  lemma EnqueueLevelled(start: Coord, order: seq<Coord>, queue: seq<Coord>, visited: set<Coord>,
                        dist: map<Coord, nat>, level: nat, n: Coord)
    requires Queued(start, order, queue, visited) && |order| > 0
    requires Levelled(start, order, queue, visited, dist, level)
    requires InBounds(n) && n !in visited
    ensures Queued(start, order, queue + [n], visited + {n})
    ensures Levelled(start, order, queue + [n], visited + {n}, dist[n := level + 1], level)
  {
    EnqueueQueued(start, order, queue, visited, n);
    NondecreasingFrame(order, dist, n, level + 1);
    NondecreasingFrame(queue, dist, n, level + 1);
    var queue' := queue + [n];
    var dist' := dist[n := level + 1];
    assert n != start;
    forall i, j | 0 <= i <= j < |queue'|
      ensures dist'[queue'[i]] <= dist'[queue'[j]]
    {
      if i < j && j == |queue'| - 1 {
        assert queue'[i] in queue;
      } else if j < |queue'| - 1 {
        assert queue'[i] == queue[i] && queue'[j] == queue[j];
      }
    }
    forall c | c in order
      ensures dist'[c] <= level
    {
    }
    forall c | c in queue'
      ensures level <= dist'[c] <= level + 1
    {
      if c != n {
        var k :| 0 <= k < |queue'| && queue'[k] == c;
        assert queue[k] == c;
      }
    }
  }

  /** The new label `level + 1` of an unvisited neighbour of the current
      cell undercuts no walk: every cell labelled below `level` is finished. */
  lemma EnqueueBounds(L: Layout, start: Coord, order: seq<Coord>, queue: seq<Coord>,
                      visited: set<Coord>, dist: map<Coord, nat>, pred: map<Coord, Coord>,
                      level: nat, done: nat, cur: Coord, n: Coord)
    requires Searching(L, start, order, queue, visited, dist, pred, level, done)
    requires done + 1 == |order| && cur == order[done] && dist[cur] == level
    requires n !in visited
    ensures LowerBounds(L, start, dist[n := level + 1])
  {
    var closed := Finished(order, done);
    forall k | 0 <= k < done
      ensures order[k] in closed
    {
      assert order[k] == order[..done][k];
    }
    forall x | x in visited && x !in closed
      ensures dist[x] >= level
    {
      if x in order {
        var k :| 0 <= k < |order| && order[k] == x;
      }
    }
    LabelFrontier(L, start, visited, closed, dist, level, n);
  }

  /** Enqueueing an unvisited neighbour `n` of the current cell `cur` labels
      it one level deeper and links it back to `cur`. */
  lemma Enqueue(L: Layout, start: Coord, order: seq<Coord>, queue: seq<Coord>,
                visited: set<Coord>, dist: map<Coord, nat>, pred: map<Coord, Coord>,
                level: nat, done: nat, cur: Coord, n: Coord)
    requires Searching(L, start, order, queue, visited, dist, pred, level, done)
    requires done + 1 == |order| && cur == order[done] && dist[cur] == level
    requires L.Step(cur, n) && InBounds(n) && n !in visited
    ensures n != cur
    ensures Searching(L, start, order, queue + [n], visited + {n}, dist[n := level + 1],
                      pred[n := cur], level, done)
  {
    EnqueueLevelled(start, order, queue, visited, dist, level, n);
    EnqueueBounds(L, start, order, queue, visited, dist, pred, level, done, cur, n);
    assert cur in order;
    LinkLabel(L, start, order, dist, pred, level, cur, n);
  }

  /** Once every open neighbour of `cur` is visited, `cur` is closed. */
  lemma Close(L: Layout, start: Coord, order: seq<Coord>, queue: seq<Coord>,
              visited: set<Coord>, dist: map<Coord, nat>, pred: map<Coord, Coord>,
              level: nat, done: nat, cur: Coord, ns: seq<Coord>)
    requires Searching(L, start, order, queue, visited, dist, pred, level, done)
    requires done < |order| && cur == order[done]
    requires forall y :: y in ns <==> L.Step(cur, y)
    requires forall k :: 0 <= k < |ns| ==> ns[k] in visited
    ensures Searching(L, start, order, queue, visited, dist, pred, level, done + 1)
  {
    assert order[..done + 1] == order[..done] + [cur];
    assert Finished(order, done + 1) == Finished(order, done) + {cur};
    forall y | L.Step(cur, y)
      ensures y in visited
    {
      var k :| 0 <= k < |ns| && ns[k] == y;
    }
  }

  /** What a search state says about its dequeue order and its labels. */
  lemma Outcome(L: Layout, start: Coord, order: seq<Coord>, queue: seq<Coord>,
                visited: set<Coord>, dist: map<Coord, nat>, pred: map<Coord, Coord>,
                level: nat, done: nat)
    requires Searching(L, start, order, queue, visited, dist, pred, level, done)
    ensures (|order| > 0 ==> order[0] == start) && Distinct(order)
    ensures forall c :: c in dist ==> InBounds(c)
    ensures forall c :: c in order ==> c in dist
    ensures start in dist && dist[start] == 0
    ensures Nondecreasing(order, dist)
    ensures LevelLinks(L, start, dist, pred, order)
    ensures LowerBounds(L, start, dist)
  {
  }

  /** The search starts with only `start` queued, visited and labelled 0. */
  lemma Starts(L: Layout, start: Coord)
    requires InBounds(start)
    ensures Searching(L, start, [], [start], {start}, map[start := 0], map[], 0, 0)
  {
    forall x, q | x in map[start := 0] && L.WalkBetween(start, x, q)
      ensures |q| - 1 >= 0
    {
    }
  }

  /** With the queue empty every visited cell is finished, so no edge
      leaves the visited set. */
  lemma Exhausted(L: Layout, start: Coord, order: seq<Coord>, visited: set<Coord>,
                  dist: map<Coord, nat>, pred: map<Coord, Coord>, level: nat)
    requires Searching(L, start, order, [], visited, dist, pred, level, |order|)
    ensures L.Closed(visited) && start in visited
  {
    assert order[..|order|] == order;
  }

  /** The part of the search state the neighbour loop updates. */
  datatype Frontier = Frontier(queue: seq<Coord>, visited: set<Coord>,
                               dist: map<Coord, nat>, pred: map<Coord, Coord>)

  /** The body of the neighbour loop: an unvisited neighbour `n` of `cur` is
      marked visited, labelled one level deeper than `cur`, linked back to
      `cur` and enqueued; a visited one is skipped. */
  function Discovered(s: Frontier, cur: Coord, n: Coord, level: nat): Frontier {
    if n in s.visited then s
    else Frontier(s.queue + [n], s.visited + {n}, s.dist[n := level + 1], s.pred[n := cur])
  }

  /** The neighbour loop run over the first `k` cells of `ns`, in order. */
  function DiscoveredFirst(s: Frontier, cur: Coord, ns: seq<Coord>, k: nat, level: nat): Frontier
    requires k <= |ns|
  {
    if k == 0 then s
    else Discovered(DiscoveredFirst(s, cur, ns, k - 1, level), cur, ns[k - 1], level)
  }

  /** One round of the neighbour loop keeps the search state. */
  lemma DiscoveredKeeps(L: Layout, start: Coord, order: seq<Coord>, s: Frontier,
                        level: nat, done: nat, cur: Coord, n: Coord)
    requires Searching(L, start, order, s.queue, s.visited, s.dist, s.pred, level, done)
    requires done + 1 == |order| && cur == order[done] && cur in s.dist && s.dist[cur] == level
    requires L.Step(cur, n) && InBounds(n)
    ensures var t := Discovered(s, cur, n, level);
      && Searching(L, start, order, t.queue, t.visited, t.dist, t.pred, level, done)
      && cur in t.dist && t.dist[cur] == level
  {
    if n !in s.visited {
      Enqueue(L, start, order, s.queue, s.visited, s.dist, s.pred, level, done, cur, n);
    }
  }

  /** The neighbour loop visits every cell it examines, forgets no visited
      cell, and enqueues exactly the cells it newly visits. */
  lemma {:induction false} DiscoveredFirstGrows(s: Frontier, cur: Coord, ns: seq<Coord>, k: nat, level: nat)
    requires k <= |ns|
    ensures var t := DiscoveredFirst(s, cur, ns, k, level);
      && (forall j :: 0 <= j < k ==> ns[j] in t.visited)
      && s.visited <= t.visited
      && |t.queue| - |s.queue| == |t.visited| - |s.visited|
  {
    if k > 0 {
      DiscoveredFirstGrows(s, cur, ns, k - 1, level);
    }
  }

  /** Any property of the frontier that one round of the neighbour loop
      keeps, the whole loop keeps. */
  lemma {:induction false} DiscoveredFirstPreserves(Inv: Frontier -> bool, s: Frontier, cur: Coord,
                                                    ns: seq<Coord>, k: nat, level: nat)
    requires k <= |ns| && Inv(s)
    requires forall u: Frontier, j: nat :: j < |ns| && Inv(u) ==> Inv(Discovered(u, cur, ns[j], level))
    ensures Inv(DiscoveredFirst(s, cur, ns, k, level))
  {
    if k > 0 {
      DiscoveredFirstPreserves(Inv, s, cur, ns, k - 1, level);
    }
  }

  /** Running the neighbour loop over the open neighbours of `cur` keeps
      the search state and the label of `cur`. */
  lemma DiscoveredAllKeeps(L: Layout, start: Coord, order: seq<Coord>, s: Frontier,
                           level: nat, done: nat, cur: Coord, ns: seq<Coord>)
    requires Searching(L, start, order, s.queue, s.visited, s.dist, s.pred, level, done)
    requires done + 1 == |order| && cur == order[done] && cur in s.dist && s.dist[cur] == level
    requires forall j :: 0 <= j < |ns| ==> L.Step(cur, ns[j]) && InBounds(ns[j])
    ensures var t := DiscoveredFirst(s, cur, ns, |ns|, level);
      && Searching(L, start, order, t.queue, t.visited, t.dist, t.pred, level, done)
      && cur in t.dist && t.dist[cur] == level
  {
    var Inv := (u: Frontier) =>
      && Searching(L, start, order, u.queue, u.visited, u.dist, u.pred, level, done)
      && cur in u.dist && u.dist[cur] == level;
    forall u: Frontier, j: nat | j < |ns| && Inv(u)
      ensures Inv(Discovered(u, cur, ns[j], level))
    {
      DiscoveredKeeps(L, start, order, u, level, done, cur, ns[j]);
    }
    DiscoveredFirstPreserves(Inv, s, cur, ns, |ns|, level);
  }

  /** After the neighbour loop over all open neighbours of `cur`, the search
      state holds with `cur` finished, and the unvisited cells shrank
      unless nothing new was visited. */
  lemma NeighboursDone(L: Layout, start: Coord, order: seq<Coord>, s: Frontier,
                       level: nat, done: nat, cur: Coord, ns: seq<Coord>)
    requires done + 1 == |order| && Searching(L, start, order, s.queue, s.visited, s.dist, s.pred, level, done)
    requires order[|order| - 1] == cur && cur in s.dist && s.dist[cur] == level
    requires forall y :: y in ns <==> L.Step(cur, y)
    requires forall y :: y in ns ==> InBounds(y)
    ensures var t := DiscoveredFirst(s, cur, ns, |ns|, level);
      && Searching(L, start, order, t.queue, t.visited, t.dist, t.pred, level, |order|)
      && s.visited <= t.visited
      && |t.queue| - |s.queue| == |t.visited| - |s.visited|
      && (t.visited != s.visited ==> CellSet() - t.visited < CellSet() - s.visited)
  {
    var t := DiscoveredFirst(s, cur, ns, |ns|, level);
    DiscoveredAllKeeps(L, start, order, s, level, done, cur, ns);
    DiscoveredFirstGrows(s, cur, ns, |ns|, level);
    Close(L, start, order, t.queue, t.visited, t.dist, t.pred, level, done, cur, ns);
    if t.visited != s.visited {
      Shrinks(s.visited, t.visited);
    }
  }

  /** The `for (const neighbor of getNeighbors(node))` loop of `bfs`: each
      neighbour not yet visited, in `getNeighbors` order, is marked visited,
      linked to `cur`, labelled `level + 1` and enqueued, which is the fold
      `DiscoveredFirst`; once it has run, `cur` is finished. */
  method VisitNeighbours(g: Grid, cur: Coord, queue: seq<Coord>, visited: set<Coord>,
                         ghost L: Layout, ghost start: Coord, ghost order: seq<Coord>,
                         ghost level: nat, ghost done: nat,
                         ghost dist: map<Coord, nat>, ghost pred: map<Coord, Coord>)
      returns (queue': seq<Coord>, visited': set<Coord>,
               ghost dist': map<Coord, nat>, ghost pred': map<Coord, Coord>)
    requires g.Shaped() && g.Layout() == L && g.LinksAre(pred)
    requires done + 1 == |order| && Searching(L, start, order, queue, visited, dist, pred, level, done)
    requires order[|order| - 1] == cur && cur in dist && dist[cur] == level
    modifies g.previousNode
    ensures g.LinksAre(pred')
    ensures Frontier(queue', visited', dist', pred') ==
              DiscoveredFirst(Frontier(queue, visited, dist, pred), cur, Neighbours(L, cur), |Neighbours(L, cur)|, level)
    ensures Searching(L, start, order, queue', visited', dist', pred', level, |order|)
    ensures visited <= visited'
    ensures |queue'| - |queue| == |visited'| - |visited|
    ensures visited' != visited ==> CellSet() - visited' < CellSet() - visited
  {
    ghost var s0 := Frontier(queue, visited, dist, pred);
    queue', visited', dist', pred' := queue, visited, dist, pred;
    var ns := g.GetNeighbors(cur);
    NeighboursAreSteps(L, cur);
    for i := 0 to |ns|
      invariant g.LinksAre(pred')
      invariant Frontier(queue', visited', dist', pred') == DiscoveredFirst(s0, cur, ns, i, level)
    {
      var n := ns[i];
      if n !in visited' {
        visited' := visited' + {n};
        g.SetPrev(n, cur, pred');
        queue' := queue' + [n];
        dist' := dist'[n := level + 1];
        pred' := pred'[n := cur];
      }
    }
    NeighboursDone(L, start, order, s0, level, done, cur, ns);
  }

  method Bfs(g: Grid, start: Coord, end: Coord)
      returns (order: seq<Coord>, ghost dist: map<Coord, nat>, ghost pred: map<Coord, Coord>)
    requires g.Shaped() && InBounds(start) && InBounds(end)
    requires g.Unlinked()
    modifies g.previousNode
    ensures |order| > 0 && order[0] == start && Distinct(order)
    ensures end in order ==> order[|order| - 1] == end
    ensures end !in order ==> !g.Layout().Reachable(start, end)
    ensures forall c :: c in dist ==> InBounds(c)
    ensures forall c :: c in order ==> c in dist
    ensures start in dist && dist[start] == 0
    ensures Nondecreasing(order, dist)
    ensures g.LinksAre(pred) && LevelLinks(g.Layout(), start, dist, pred, order)
    ensures LowerBounds(g.Layout(), start, dist)
  {
    ghost var L := g.Layout();
    var queue := [start];
    var visited := {start};
    order := [];
    dist := map[start := 0];
    pred := map[];
    ghost var level: nat := 0;
    Starts(L, start);
    while |queue| > 0
      invariant g.Layout() == L && g.LinksAre(pred)
      invariant Searching(L, start, order, queue, visited, dist, pred, level, |order|)
      invariant end !in order
      decreases CellSet() - visited, |queue|
    {
      ghost var done := |order|;
      Dequeue(L, start, order, queue, visited, dist, pred, level);
      var cur := queue[0];
      queue := queue[1..];
      order := order + [cur];
      level := dist[cur];
      if cur == end {
        Outcome(L, start, order, queue, visited, dist, pred, level, done);
        return;
      }
      queue, visited, dist, pred :=
        VisitNeighbours(g, cur, queue, visited, L, start, order, level, done, dist, pred);
    }
    Outcome(L, start, order, queue, visited, dist, pred, level, |order|);
    Exhausted(L, start, order, visited, dist, pred, level);
    ClosedSetBoundsReach(L, visited, start, end);
  }
}
