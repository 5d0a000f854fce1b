/** The grid model: a NUM_ROWS x NUM_COLS board of cells, the start and end
    markers, and the user edits on them (`toggleWall`, `moveNode`,
    `clearPath`, `clearWalls`, `clearBoard`).

    Each field of the source's `Cell` is held as one `array2` indexed by the
    cell's row and column: `isWall` persists across runs, while `distance`,
    `gScore`, `fScore` and `previousNode` are the transient search fields. A
    cell reference is its `Coord`: the source keeps one `Cell` object per grid
    position for the lifetime of the page, so comparing cells with `===`
    compares their positions. */
module GridModel {
  import opened Geometry
  import Graph

  const NumRows: nat := 20
  const NumCols: nat := 50
  const DefaultStart: Coord := Coord(10, 10)
  const DefaultEnd: Coord := Coord(10, 40)

  datatype Option<T> = None | Some(value: T)

  /** A search label: a non-negative number, or `Infinity` for "unvisited". */
  datatype Score = Finite(value: nat) | Infinity {

    /** The JavaScript comparison `d < this` for a finite `d`. */
    predicate Exceeds(d: nat) {
      Infinity? || d < value
    }

    /** `this <= other`, with `Infinity` above every number. */
    predicate AtMost(other: Score) {
      other.Infinity? || (Finite? && value <= other.value)
    }
  }

  /** The score of `c` under a ghost map of finite labels: unlabelled cells
      are at `Infinity`. */
  function ScoreOf(dist: map<Coord, nat>, c: Coord): Score {
    if c in dist then Finite(dist[c]) else Infinity
  }

  /** The `fScore` that goes with gScores `gs`: the gScore plus the
      heuristic distance to `end`, or `Infinity` for a cell without one. */
  function FScoreOf(gs: map<Coord, nat>, c: Coord, end: Coord): Score {
    if c in gs then Finite(gs[c] + Heuristic(c, end)) else Infinity
  }

  /** Which marker is being dragged (`nodeBeingDragged`). */
  datatype Marker = StartMarker | EndMarker

  predicate InBounds(c: Coord) {
    0 <= c.row < NumRows && 0 <= c.col < NumCols
  }

  /** An array with one entry per cell. */
  predicate Spans<T>(a: array2<T>) {
    a.Length0 == NumRows && a.Length1 == NumCols
  }

  predicate Distinct(s: seq<Coord>) {
    forall i, j :: 0 <= i < j < |s| ==> s[i] != s[j]
  }

  /** `getAllNodes`: every cell once, row by row (`grid.flat()`). */
  function AllCells(): (cs: seq<Coord>)
    ensures |cs| == NumRows * NumCols
    ensures forall c :: c in cs <==> InBounds(c)
    ensures Distinct(cs)
  {
    var cs := seq(NumRows * NumCols, i requires 0 <= i < NumRows * NumCols => Coord(i / NumCols, i % NumCols));
    assert forall c | InBounds(c) :: cs[c.row * NumCols + c.col] == c;
    cs
  }

  /** The set of all cells. */
  ghost function CellSet(): (s: set<Coord>)
    ensures forall c :: c in s <==> InBounds(c)
  {
    set c | c in AllCells()
  }

  /** `neighbors.filter(neighbor => !neighbor.isWall)` */
  function OpenOnly(isWall: array2<bool>, cs: seq<Coord>): (r: seq<Coord>)
    reads isWall
    requires Spans(isWall)
    requires forall c :: c in cs ==> 0 <= c.row < NumRows && 0 <= c.col < NumCols
    ensures forall n :: n in r <==> n in cs && InBounds(n) && !isWall[n.row, n.col]
    ensures |r| <= |cs|
    ensures Distinct(cs) ==> Distinct(r)
  {
    if cs == [] then []
    else (if isWall[cs[0].row, cs[0].col] then [] else [cs[0]]) + OpenOnly(isWall, cs[1..])
  }

  /** The cells `getNeighbors` pushes before filtering out walls: up, down,
      left and right, each only when it lies on the board. */
  function Candidates(c: Coord): seq<Coord> {
    (if c.row > 0 then [Coord(c.row - 1, c.col)] else [])
    + (if c.row < NumRows - 1 then [Coord(c.row + 1, c.col)] else [])
    + (if c.col > 0 then [Coord(c.row, c.col - 1)] else [])
    + (if c.col < NumCols - 1 then [Coord(c.row, c.col + 1)] else [])
  }

  /** The candidates of an on-board cell are exactly its on-board
      orthogonal neighbours, each once. */
  lemma CandidatesAreNeighbours(c: Coord)
    requires InBounds(c)
    ensures |Candidates(c)| <= 4 && Distinct(Candidates(c))
    ensures forall n :: n in Candidates(c) <==> Adjacent(c, n) && InBounds(n)
  {
    forall n | Adjacent(c, n) && InBounds(n)
      ensures n in Candidates(c)
    {
      AdjacentCases(c, n);
    }
  }

  /** The cells of `cs` that the layout leaves open, in order: the wall
      filter of `getNeighbors` stated on a `Layout`. */
  function OpenIn(L: Graph.Layout, cs: seq<Coord>): (r: seq<Coord>)
    ensures forall n :: n in r <==> n in cs && L.Open(n)
    ensures |r| <= |cs|
    ensures Distinct(cs) ==> Distinct(r)
  {
    if cs == [] then []
    else (if L.Open(cs[0]) then [cs[0]] else []) + OpenIn(L, cs[1..])
  }

  /** What `getNeighbors(c)` returns on a board with wall layout `L`. */
  function Neighbours(L: Graph.Layout, c: Coord): seq<Coord> {
    OpenIn(L, Candidates(c))
  }

  /** The neighbour list holds exactly the edges out of `c`. */
  lemma NeighboursAreSteps(L: Graph.Layout, c: Coord)
    requires L.rows == NumRows && L.cols == NumCols && InBounds(c)
    ensures forall n :: n in Neighbours(L, c) <==> L.Step(c, n)
    ensures forall n :: n in Neighbours(L, c) ==> InBounds(n)
  {
    CandidatesAreNeighbours(c);
  }

  /** The neighbour list has no repeats and at most four cells, each open,
      on the board and one step from `c`. */
  lemma NeighboursShape(L: Graph.Layout, c: Coord)
    requires InBounds(c)
    ensures |Neighbours(L, c)| <= 4 && Distinct(Neighbours(L, c))
    ensures forall n :: n in Neighbours(L, c) ==> InBounds(n) && Heuristic(c, n) == 1 && n !in L.walls
  {
    CandidatesAreNeighbours(c);
  }

  /** Every cell of the neighbour list lies on the board. */
  lemma NeighboursInBounds(L: Graph.Layout, c: Coord)
    requires InBounds(c)
    ensures forall j :: 0 <= j < |Neighbours(L, c)| ==> InBounds(Neighbours(L, c)[j])
  {
    CandidatesAreNeighbours(c);
    assert forall j :: 0 <= j < |Neighbours(L, c)| ==> Neighbours(L, c)[j] in Neighbours(L, c);
  }

  class Grid {
    const isWall: array2<bool>
    const distance: array2<Score>
    const gScore: array2<Score>
    const fScore: array2<Score>
    const previousNode: array2<Option<Coord>>
    var start: Coord     // START_NODE_ROW, START_NODE_COL
    var end: Coord       // END_NODE_ROW, END_NODE_COL
    var running: bool    // isRunning

    /** Every per-cell array spans the whole board, and the three score
        arrays are distinct objects. */
    ghost predicate Shaped() {
      && Spans(isWall) && Spans(distance) && Spans(gScore) && Spans(fScore) && Spans(previousNode)
      && distance != gScore && distance != fScore && gScore != fScore
      && isWall as object != distance && isWall as object != gScore
      && isWall as object != fScore && isWall as object != previousNode
      && previousNode as object != distance && previousNode as object != gScore
      && previousNode as object != fScore
    }

    /** The grid invariant: the markers are distinct in-bounds cells and
        neither is a wall. */
    ghost predicate Valid()
      reads this, isWall
    {
      && Shaped()
      && InBounds(start) && InBounds(end) && start != end
      && !isWall[start.row, start.col] && !isWall[end.row, end.col]
    }

    function Wall(c: Coord): bool
      reads isWall
      requires Spans(isWall) && InBounds(c)
    {
      isWall[c.row, c.col]
    }

    function Prev(c: Coord): Option<Coord>
      reads previousNode
      requires Spans(previousNode) && InBounds(c)
    {
      previousNode[c.row, c.col]
    }

    function Dist(c: Coord): Score
      reads distance
      requires Spans(distance) && InBounds(c)
    {
      distance[c.row, c.col]
    }

    function G(c: Coord): Score
      reads gScore
      requires Spans(gScore) && InBounds(c)
    {
      gScore[c.row, c.col]
    }

    function F(c: Coord): Score
      reads fScore
      requires Spans(fScore) && InBounds(c)
    {
      fScore[c.row, c.col]
    }

    /** The wall layout as a graph value. */
    ghost function Layout(): (L: Graph.Layout)
      reads isWall
      requires Spans(isWall)
      ensures L.rows == NumRows && L.cols == NumCols
      ensures forall c :: c in L.walls <==> InBounds(c) && isWall[c.row, c.col]
    {
      Graph.Layout(NumRows, NumCols,
        set r, k | 0 <= r < NumRows && 0 <= k < NumCols && isWall[r, k] :: Coord(r, k))
    }

    /** Every transient field is back at its "unvisited" value. */
    ghost predicate Cleared()
      reads distance, gScore, fScore, previousNode
      requires Shaped()
    {
      forall r, k :: 0 <= r < NumRows && 0 <= k < NumCols ==>
        && distance[r, k] == Infinity && gScore[r, k] == Infinity
        && fScore[r, k] == Infinity && previousNode[r, k] == None
    }

    /** Every `previousNode` is null. */
    ghost predicate Unlinked()
      reads previousNode
      requires Spans(previousNode)
    {
      forall r, k :: 0 <= r < NumRows && 0 <= k < NumCols ==> previousNode[r, k] == None
    }

    /** The `previousNode` links, read as a map from cell to predecessor. */
    ghost predicate LinksAre(pred: map<Coord, Coord>)
      reads previousNode
      requires Spans(previousNode)
    {
      forall r, k :: 0 <= r < NumRows && 0 <= k < NumCols ==>
        previousNode[r, k] == if Coord(r, k) in pred then Some(pred[Coord(r, k)]) else None
    }

    /** `cell.previousNode = p`. */
    method SetPrev(c: Coord, p: Coord, ghost pred: map<Coord, Coord>)
      requires Spans(previousNode) && InBounds(c) && LinksAre(pred)
      modifies previousNode
      ensures LinksAre(pred[c := p])
    {
      previousNode[c.row, c.col] := Some(p);
    }

    /** One cell's `previousNode`, read through the links map. */
    lemma LinkRead(pred: map<Coord, Coord>, c: Coord)
      requires Spans(previousNode) && LinksAre(pred) && InBounds(c)
      ensures Prev(c) == if c in pred then Some(pred[c]) else None
    {
      assert previousNode[c.row, c.col] == if Coord(c.row, c.col) in pred then Some(pred[Coord(c.row, c.col)]) else None;
    }

    /** The `distance` fields, read as a map from the cells with a finite
        distance to that distance. */
    ghost predicate DistancesAre(dist: map<Coord, nat>)
      reads distance
      requires Spans(distance)
    {
      forall r, k :: 0 <= r < NumRows && 0 <= k < NumCols ==>
        distance[r, k] == ScoreOf(dist, Coord(r, k))
    }

    lemma DistancesRead(dist: map<Coord, nat>)
      requires Spans(distance) && DistancesAre(dist)
      ensures forall c :: InBounds(c) ==> Dist(c) == ScoreOf(dist, c)
    {
      forall c | InBounds(c)
        ensures Dist(c) == ScoreOf(dist, c)
      {
        assert distance[c.row, c.col] == ScoreOf(dist, Coord(c.row, c.col));
      }
    }

    lemma DistanceRead(dist: map<Coord, nat>, c: Coord)
      requires Spans(distance) && DistancesAre(dist) && InBounds(c)
      ensures Dist(c) == ScoreOf(dist, c)
    {
      assert distance[c.row, c.col] == ScoreOf(dist, Coord(c.row, c.col));
    }

    /** `cell.distance = d`. */
    method SetDist(c: Coord, d: nat, ghost dist: map<Coord, nat>)
      requires Spans(distance) && InBounds(c) && DistancesAre(dist)
      modifies distance
      ensures DistancesAre(dist[c := d])
    {
      distance[c.row, c.col] := Finite(d);
    }

    /** The `gScore` fields, read as a map from the cells with a finite
        gScore to that gScore. */
    ghost predicate GScoresAre(gs: map<Coord, nat>)
      reads gScore
      requires Spans(gScore)
    {
      forall r, k :: 0 <= r < NumRows && 0 <= k < NumCols ==>
        gScore[r, k] == ScoreOf(gs, Coord(r, k))
    }

    /** Every `fScore` is its cell's gScore plus the heuristic to `end`. */
    ghost predicate FScoresAre(gs: map<Coord, nat>, end: Coord)
      reads fScore
      requires Spans(fScore)
    {
      forall r, k :: 0 <= r < NumRows && 0 <= k < NumCols ==>
        fScore[r, k] == FScoreOf(gs, Coord(r, k), end)
    }

    lemma GScoreRead(gs: map<Coord, nat>, c: Coord)
      requires Spans(gScore) && GScoresAre(gs) && InBounds(c)
      ensures G(c) == ScoreOf(gs, c)
    {
      assert gScore[c.row, c.col] == ScoreOf(gs, Coord(c.row, c.col));
    }

    lemma FScoresRead(gs: map<Coord, nat>, end: Coord)
      requires Spans(fScore) && FScoresAre(gs, end)
      ensures forall c :: InBounds(c) ==> F(c) == FScoreOf(gs, c, end)
    {
      forall c | InBounds(c)
        ensures F(c) == FScoreOf(gs, c, end)
      {
        assert fScore[c.row, c.col] == FScoreOf(gs, Coord(c.row, c.col), end);
      }
    }

    /** `cell.gScore = v`. */
    method SetG(c: Coord, v: nat, ghost gs: map<Coord, nat>)
      requires Spans(gScore) && InBounds(c) && GScoresAre(gs)
      modifies gScore
      ensures GScoresAre(gs[c := v])
    {
      gScore[c.row, c.col] := Finite(v);
    }

    /** `cell.fScore = f`, where `f` is the new gScore `v` of the cell plus
        its heuristic. */
    method SetF(c: Coord, f: nat, ghost gs: map<Coord, nat>, ghost v: nat, ghost end: Coord)
      requires Spans(fScore) && InBounds(c) && FScoresAre(gs, end)
      requires f == v + Heuristic(c, end)
      modifies fScore
      ensures FScoresAre(gs[c := v], end)
    {
      fScore[c.row, c.col] := Finite(f);
    }

    ghost predicate NoWalls()
      reads isWall
      requires Spans(isWall)
    {
      forall r, k :: 0 <= r < NumRows && 0 <= k < NumCols ==> !isWall[r, k]
    }

    /** `createGrid`: every cell open and unvisited, markers at their
        default positions. */
    constructor ()
      ensures Valid() && Cleared() && NoWalls()
      ensures fresh(isWall) && fresh(distance) && fresh(gScore) && fresh(fScore) && fresh(previousNode)
      ensures start == DefaultStart && end == DefaultEnd && !running
    {
      isWall := new bool[NumRows, NumCols]((r, k) => false);
      distance := new Score[NumRows, NumCols]((r, k) => Infinity);
      gScore := new Score[NumRows, NumCols]((r, k) => Infinity);
      fScore := new Score[NumRows, NumCols]((r, k) => Infinity);
      previousNode := new Option<Coord>[NumRows, NumCols]((r, k) => None);
      start := DefaultStart;
      end := DefaultEnd;
      running := false;
    }

    /** `getNeighbors`: the in-bounds cells above, below, left and right of
        `c`, in that order, without the walls. */
    method GetNeighbors(c: Coord) returns (ns: seq<Coord>)
      requires Spans(isWall) && InBounds(c)
      ensures ns == Neighbours(Layout(), c)
    {
      CandidatesAreNeighbours(c);
      ns := OpenOnly(isWall, Candidates(c));
      OpenOnlyIsOpenIn(Candidates(c));
    }

    /** The array filter agrees with the filter on the layout. */
    lemma {:induction false} OpenOnlyIsOpenIn(cs: seq<Coord>)
      requires Spans(isWall)
      requires forall c :: c in cs ==> 0 <= c.row < NumRows && 0 <= c.col < NumCols
      ensures OpenOnly(isWall, cs) == OpenIn(Layout(), cs)
    {
      if cs != [] {
        OpenOnlyIsOpenIn(cs[1..]);
      }
    }

    /** `toggleWall`: flips the wall flag of one cell, unless the cell holds
        the start or the end marker. */
    method ToggleWall(c: Coord)
      requires Spans(isWall) && InBounds(c)
      modifies isWall
      ensures c == start || c == end ==> unchanged(isWall)
      ensures c != start && c != end ==> isWall[c.row, c.col] == !old(isWall[c.row, c.col])
      ensures forall r, k :: 0 <= r < NumRows && 0 <= k < NumCols && Coord(r, k) != c ==>
                isWall[r, k] == old(isWall[r, k])
      ensures old(Valid()) ==> Valid()
    {
      if c == start || c == end {
        return;
      }
      isWall[c.row, c.col] := !isWall[c.row, c.col];
    }

    function MarkerAt(kind: Marker): Coord
      reads this
    {
      if kind == StartMarker then start else end
    }

    /** The source's guard in `moveNode`: a marker may not be dropped on the
        other marker. */
    predicate MoveRefused(kind: Marker, target: Coord)
      reads this
    {
      (kind == StartMarker && target == end) || (kind == EndMarker && target == start)
    }

    /** `moveNode` as the source writes it: the marker is moved first, so the
        `toggleWall(newCell)` that should clear a wall under the target sees
        a marker cell and refuses; the wall stays. */
    method MoveNodeAsWritten(kind: Marker, target: Coord)
      requires Shaped() && InBounds(target)
      modifies this, isWall
      ensures running == old(running)
      ensures MoveRefused(kind, target) <==> old(MoveRefused(kind, target))
      ensures old(MoveRefused(kind, target)) ==> start == old(start) && end == old(end)
      ensures !old(MoveRefused(kind, target)) ==>
                MarkerAt(kind) == target && MarkerAt(Other(kind)) == old(MarkerAt(Other(kind)))
      ensures unchanged(isWall)
    {
      if (kind == StartMarker && target == end) || (kind == EndMarker && target == start) {
        return;
      }
      if kind == StartMarker {
        start := target;
      } else {
        end := target;
      }
      if isWall[target.row, target.col] {
        ToggleWall(target);
      }
    }

    /** `moveNode` with the wall cleared before the marker moves, as the
        source evidently intends: the dragged marker lands on `target`, the
        other marker stays, and `target` is no longer a wall. */
    method MoveNode(kind: Marker, target: Coord)
      requires Shaped() && InBounds(target)
      modifies this, isWall
      ensures running == old(running)
      ensures old(MoveRefused(kind, target)) ==>
                start == old(start) && end == old(end) && unchanged(isWall)
      ensures !old(MoveRefused(kind, target)) ==>
                && MarkerAt(kind) == target
                && MarkerAt(Other(kind)) == old(MarkerAt(Other(kind)))
                && isWall[target.row, target.col] ==
                     (old(isWall[target.row, target.col]) && target == old(MarkerAt(kind)))
      ensures forall r, k :: 0 <= r < NumRows && 0 <= k < NumCols && Coord(r, k) != target ==>
                isWall[r, k] == old(isWall[r, k])
      ensures old(Valid()) ==> Valid()
    {
      if (kind == StartMarker && target == end) || (kind == EndMarker && target == start) {
        return;
      }
      if isWall[target.row, target.col] {
        ToggleWall(target);
      }
      if kind == StartMarker {
        start := target;
      } else {
        end := target;
      }
    }

    /** `Cell.reset` for the cell at `c`. */
    method ResetCell(c: Coord)
      requires Shaped() && InBounds(c)
      modifies distance, gScore, fScore, previousNode
      ensures Dist(c) == Infinity && G(c) == Infinity && F(c) == Infinity && Prev(c) == None
      ensures forall r, k :: 0 <= r < NumRows && 0 <= k < NumCols && Coord(r, k) != c ==>
                && distance[r, k] == old(distance[r, k]) && gScore[r, k] == old(gScore[r, k])
                && fScore[r, k] == old(fScore[r, k]) && previousNode[r, k] == old(previousNode[r, k])
    {
      distance[c.row, c.col] := Infinity;
      gScore[c.row, c.col] := Infinity;
      fScore[c.row, c.col] := Infinity;
      previousNode[c.row, c.col] := None;
    }

    /** `clearPath`: resets every cell. The new transient state does not
        depend on the old one, so clearing twice is clearing once. */
    method ClearPath()
      requires Shaped()
      modifies distance, gScore, fScore, previousNode
      ensures Cleared()
    {
      for r := 0 to NumRows
        invariant forall r', k :: 0 <= r' < r && 0 <= k < NumCols ==>
          && distance[r', k] == Infinity && gScore[r', k] == Infinity
          && fScore[r', k] == Infinity && previousNode[r', k] == None
      {
        for k := 0 to NumCols
          invariant forall r', k' :: 0 <= r' < r && 0 <= k' < NumCols ==>
            && distance[r', k'] == Infinity && gScore[r', k'] == Infinity
            && fScore[r', k'] == Infinity && previousNode[r', k'] == None
          invariant forall k' :: 0 <= k' < k ==>
            && distance[r, k'] == Infinity && gScore[r, k'] == Infinity
            && fScore[r, k'] == Infinity && previousNode[r, k'] == None
        {
          ResetCell(Coord(r, k));
        }
      }
    }

    /** A cleared grid holds no labels and no links: it is the state each
        search starts from. */
    lemma ClearedIsBlank(end: Coord)
      requires Shaped() && Cleared()
      ensures Unlinked() && DistancesAre(map[]) && GScoresAre(map[]) && FScoresAre(map[], end)
    {
    }

    /** `clearWalls`: unless a run is in progress, clears the transient
        fields and toggles every wall off; `toggleWall` refuses a marker cell,
        so a wall under a marker would survive. */
    method ClearWalls()
      requires Shaped()
      modifies isWall, distance, gScore, fScore, previousNode
      ensures old(running) ==> unchanged(isWall, distance, gScore, fScore, previousNode)
      ensures !old(running) ==> Cleared()
      ensures !old(running) ==> forall r, k :: 0 <= r < NumRows && 0 <= k < NumCols ==>
                isWall[r, k] == (old(isWall[r, k]) && (Coord(r, k) == start || Coord(r, k) == end))
      ensures old(Valid()) ==> Valid()
    {
      if running {
        return;
      }
      ClearPath();
      for r := 0 to NumRows
        invariant Cleared()
        invariant forall r', k :: 0 <= r' < NumRows && 0 <= k < NumCols ==>
          isWall[r', k] == (old(isWall[r', k]) && (r' >= r || Coord(r', k) == start || Coord(r', k) == end))
      {
        for k := 0 to NumCols
          invariant Cleared()
          invariant forall r', k' :: 0 <= r' < NumRows && 0 <= k' < NumCols ==>
            isWall[r', k'] == (old(isWall[r', k']) &&
              (r' > r || (r' == r && k' >= k) || Coord(r', k') == start || Coord(r', k') == end))
        {
          if isWall[r, k] {
            ToggleWall(Coord(r, k));
          }
        }
      }
    }

    /** `clearBoard`: unless a run is in progress, clears walls and transient
        fields and puts both markers back at their default cells. */
    method ClearBoard()
      requires Shaped()
      modifies this, isWall, distance, gScore, fScore, previousNode
      ensures running == old(running)
      ensures old(running) ==>
                start == old(start) && end == old(end) &&
                unchanged(isWall, distance, gScore, fScore, previousNode)
      ensures !old(running) ==> start == DefaultStart && end == DefaultEnd && Cleared()
      ensures !old(running) ==> forall r, k :: 0 <= r < NumRows && 0 <= k < NumCols ==>
                isWall[r, k] == (old(isWall[r, k]) && (Coord(r, k) == old(start) || Coord(r, k) == old(end)))
      ensures !old(running) && old(Valid()) ==> Valid() && NoWalls()
    {
      if running {
        return;
      }
      ClearWalls();
      start := DefaultStart;
      end := DefaultEnd;
    }
  }

  function Other(kind: Marker): Marker {
    if kind == StartMarker then EndMarker else StartMarker
  }

  /** Dragging the start marker onto a wall with the source's `moveNode`
      leaves the marker standing on a wall, which the grid invariant
      forbids. */
  method MoveOntoWallAsWritten() returns (g: Grid)
    ensures g.Shaped() && g.start == Coord(5, 5) && g.Wall(Coord(5, 5)) && !g.Valid()
  {
    g := new Grid();
    g.ToggleWall(Coord(5, 5));
    g.MoveNodeAsWritten(StartMarker, Coord(5, 5));
  }

  /** The same drag with the corrected `moveNode` clears the wall. */
  method MoveOntoWallCorrected() returns (g: Grid)
    ensures g.Valid() && g.start == Coord(5, 5) && !g.Wall(Coord(5, 5))
  {
    g := new Grid();
    g.ToggleWall(Coord(5, 5));
    g.MoveNode(StartMarker, Coord(5, 5));
  }
}
