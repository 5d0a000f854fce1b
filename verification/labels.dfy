/** Facts shared by the two uniform-cost searches, `bfs` and `dijkstra`.
    Both label cells with a hop count (a ghost map `dist` beside the
    source's `visited` set or `distance` field), finish cells in the order
    they leave the queue or the unvisited list, and link every labelled cell
    but the start back to a finished cell one hop closer. */
module SearchLabels {
  import opened Geometry
  import opened Graph
  import opened GridModel

  /** The predecessor map of a search, with `dist` as label: the labelled
      cells other than `start` have a predecessor, which is one edge away,
      labelled one less, and lies in `done`. */
  ghost predicate LevelLinks(L: Layout, start: Coord, dist: map<Coord, nat>,
                             pred: map<Coord, Coord>, done: seq<Coord>)
  {
    && pred.Keys == dist.Keys - {start}
    && forall c {:trigger pred[c]} :: c in pred ==>
         pred[c] in done && pred[c] in dist && L.Step(pred[c], c) && dist[c] == dist[pred[c]] + 1
  }

  /** With the labels non-decreasing along `done`, the link of a cell of
      `done` points to a cell strictly earlier in `done`. */
  lemma LinksPointEarlier(L: Layout, start: Coord, dist: map<Coord, nat>,
                          pred: map<Coord, Coord>, done: seq<Coord>)
    requires LevelLinks(L, start, dist, pred, done)
    requires forall c :: c in done ==> c in dist
    requires Nondecreasing(done, dist)
    ensures forall i {:trigger done[i] in pred} :: 0 <= i < |done| && done[i] in pred ==> pred[done[i]] in done
    ensures forall i, j :: 0 <= i < |done| && 0 <= j < |done| && done[i] in pred && done[j] == pred[done[i]] ==> j < i
  {
    forall i, j | 0 <= i < |done| && 0 <= j < |done| && done[i] in pred && done[j] == pred[done[i]]
      ensures j < i
    {
      assert dist[done[j]] < dist[done[i]];
    }
  }

  /** No walk from `start` undercuts a label. */
  ghost predicate LowerBounds(L: Layout, start: Coord, dist: map<Coord, nat>) {
    forall x, q :: x in dist && L.WalkBetween(start, x, q) ==> |q| - 1 >= dist[x]
  }

  ghost predicate Nondecreasing(s: seq<Coord>, dist: map<Coord, nat>)
    requires forall c :: c in s ==> c in dist
  {
    forall i, j :: 0 <= i <= j < |s| ==> dist[s[i]] <= dist[s[j]]
  }

  lemma NondecreasingFrame(s: seq<Coord>, dist: map<Coord, nat>, n: Coord, v: nat)
    requires forall c :: c in s ==> c in dist
    requires Nondecreasing(s, dist) && n !in s
    ensures Nondecreasing(s, dist[n := v])
  {
    forall i, j | 0 <= i <= j < |s|
      ensures dist[n := v][s[i]] <= dist[n := v][s[j]]
    {
      assert s[i] in s && s[j] in s;
    }
  }

  /** Appending a cell labelled at least every label in `s` keeps `s`
      non-decreasing. */
  lemma NondecreasingAppend(s: seq<Coord>, dist: map<Coord, nat>, c: Coord)
    requires forall x :: x in s ==> x in dist
    requires Nondecreasing(s, dist) && c in dist
    requires forall x :: x in s ==> dist[x] <= dist[c]
    ensures Nondecreasing(s + [c], dist)
  {
    var s' := s + [c];
    forall i, j | 0 <= i <= j < |s'|
      ensures dist[s'[i]] <= dist[s'[j]]
    {
      if j < |s| {
        assert s'[i] == s[i] && s'[j] == s[j];
      } else if i < |s| {
        assert s'[i] == s[i] && s[i] in s;
      }
    }
  }

  /** The cells whose neighbours have all been examined: the first `done`
      of the finished order. */
  ghost function Finished(order: seq<Coord>, done: nat): set<Coord>
    requires done <= |order|
  {
    set c | c in order[..done]
  }

  lemma FinishedNext(order: seq<Coord>, done: nat)
    requires done < |order|
    ensures Finished(order, done + 1) == Finished(order, done) + {order[done]}
  {
    assert order[..done + 1] == order[..done] + [order[done]];
  }

  /** Every edge out of `closed` ends in `visited`. */
  ghost predicate ClosedInto(L: Layout, closed: set<Coord>, visited: set<Coord>) {
    forall x, y :: x in closed && L.Step(x, y) ==> y in visited
  }

  /** Labelling a fresh neighbour of the current cell with the next level
      keeps every label a lower bound on walk length. */
  lemma LabelFrontier(L: Layout, start: Coord, visited: set<Coord>, closed: set<Coord>,
                      dist: map<Coord, nat>, level: nat, n: Coord)
    requires start in visited && closed <= visited && dist.Keys == visited
    requires forall x, y :: x in closed && L.Step(x, y) ==> y in visited
    requires forall x :: x in visited && x !in closed ==> dist[x] >= level
    requires LowerBounds(L, start, dist) && n !in visited
    ensures LowerBounds(L, start, dist[n := level + 1])
  {
    forall x, q | x in dist[n := level + 1] && L.WalkBetween(start, x, q)
      ensures |q| - 1 >= dist[n := level + 1][x]
    {
      if x == n {
        FrontierBound(L, start, visited, closed, dist, level, q);
      }
    }
  }

  /** Linking `n` back to the current cell keeps the links on the labels. */
  lemma LinkLabel(L: Layout, start: Coord, order: seq<Coord>, dist: map<Coord, nat>,
                  pred: map<Coord, Coord>, level: nat, cur: Coord, n: Coord)
    requires LevelLinks(L, start, dist, pred, order)
    requires cur in order && cur in dist && dist[cur] == level
    requires L.Step(cur, n) && n !in dist && n != start
    ensures LevelLinks(L, start, dist[n := level + 1], pred[n := cur], order)
  {
  }

  /** Growing a set of cells shrinks the set of cells outside it. */
  lemma Shrinks(visited: set<Coord>, visited': set<Coord>)
    requires visited <= visited' && visited' != visited
    requires forall c :: c in visited' ==> InBounds(c)
    ensures CellSet() - visited' < CellSet() - visited
  {
    var x :| x in visited' && x !in visited;
    assert x in CellSet() - visited;
  }
}
