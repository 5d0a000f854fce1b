/** The recursive-division maze: `generateMaze` walls the border of the
    board and then calls `recursiveDivision` on the interior. Each call on a
    region at least two cells wide and high draws one wall line across it at
    an odd offset from its top or left edge, leaves one passage cell at an
    even offset along the line, and recurses into the two parts on either
    side of the line. Every wall goes through `drawWall`, which sets the
    wall with `toggleWall` and so never walls a marker cell.

    `Math.random()` enters only through `Math.floor(Math.random() * n / 2)`
    draws and the coin of `chooseOrientation`; the model picks any value the
    expression can produce. */
module Maze {
  import opened Geometry
  import opened GridModel

  datatype Orientation = Horizontal | Vertical

  /** `chooseOrientation(width, height)`: the wall runs along the shorter
      side, and a square region takes the coin (`Math.random() < 0.5`). */
  function ChooseOrientation(width: int, height: int, coin: bool): (o: Orientation)
    ensures o == Horizontal ==> width <= height
    ensures o == Vertical ==> height <= width
    ensures width == height ==> (o == Horizontal <==> coin)
  {
    if width < height then Horizontal
    else if height < width then Vertical
    else if coin then Horizontal
    else Vertical
  }

  /** A rectangle of cells: columns `x` to `x + width - 1`, rows `y` to
      `y + height - 1`. */
  datatype Region = Region(x: int, y: int, width: int, height: int) {
    predicate Contains(c: Coord) {
      x <= c.col < x + width && y <= c.row < y + height
    }

    /** The region lies on the board. */
    predicate OnBoard() {
      0 <= x && 0 <= y && 0 <= width && 0 <= height && x + width <= NumCols && y + height <= NumRows
    }
  }

  /** The two random draws of one division: `offset` from
      `Math.floor(Math.random() * (size - 2) / 2)` and `passage` from
      `Math.floor(Math.random() * length / 2)`. */
  datatype Cut = Cut(offset: nat, passage: nat)

  /** The side the wall line crosses, and the length of the line. */
  function Across(r: Region, o: Orientation): int {
    if o == Horizontal then r.height else r.width
  }

  function LineLength(r: Region, o: Orientation): int {
    if o == Horizontal then r.width else r.height
  }

  /** The values the two draws can take: `Math.random()` lies in [0, 1), so
      `floor(random * n / 2)` is a natural `k` with `2 * k < n`, or 0 when
      `n` is 0. */
  predicate FairCut(r: Region, o: Orientation, cut: Cut) {
    && (cut.offset == 0 || 2 * cut.offset < Across(r, o) - 2)
    && 2 * cut.passage < LineLength(r, o)
  }

  /** `wx` and `wy`: the first cell of the wall line. */
  function WallX(r: Region, o: Orientation, cut: Cut): int {
    r.x + (if o == Horizontal then 0 else 2 * cut.offset + 1)
  }

  function WallY(r: Region, o: Orientation, cut: Cut): int {
    r.y + (if o == Horizontal then 2 * cut.offset + 1 else 0)
  }

  /** The `i`-th cell of the wall line (`currentX`, `currentY`). */
  function LineCell(r: Region, o: Orientation, cut: Cut, i: int): Coord {
    Coord(WallY(r, o, cut) + (if o == Horizontal then 0 else i),
          WallX(r, o, cut) + (if o == Horizontal then i else 0))
  }

  /** `passageX`, `passageY`. */
  function Passage(r: Region, o: Orientation, cut: Cut): Coord {
    Coord(WallY(r, o, cut) + (if o == Horizontal then 0 else 2 * cut.passage),
          WallX(r, o, cut) + (if o == Horizontal then 2 * cut.passage else 0))
  }

  predicate OnLine(r: Region, o: Orientation, cut: Cut, c: Coord) {
    if o == Horizontal then c.row == WallY(r, o, cut) && r.x <= c.col < r.x + r.width
    else c.col == WallX(r, o, cut) && r.y <= c.row < r.y + r.height
  }

  /** The region above or left of the line, and the one below or right. */
  function First(r: Region, o: Orientation, cut: Cut): Region {
    if o == Horizontal then Region(r.x, r.y, r.width, WallY(r, o, cut) - r.y)
    else Region(r.x, r.y, WallX(r, o, cut) - r.x, r.height)
  }

  function Second(r: Region, o: Orientation, cut: Cut): Region {
    var wx, wy := WallX(r, o, cut), WallY(r, o, cut);
    if o == Horizontal then Region(r.x, wy + 1, r.width, r.y + r.height - (wy + 1))
    else Region(wx + 1, r.y, r.x + r.width - (wx + 1), r.height)
  }

  /** A fair cut of a region at least 2 by 2 puts the wall line at an odd
      offset inside the region, the passage on the line at an even offset,
      and splits the rest of the region into two parts on either side, whose
      sizes across the line add up to the region's minus one. */
  lemma CutPartitions(r: Region, o: Orientation, cut: Cut)
    requires r.width >= 2 && r.height >= 2 && FairCut(r, o, cut)
    ensures (if o == Horizontal then WallY(r, o, cut) - r.y else WallX(r, o, cut) - r.x) % 2 == 1
    ensures forall i :: 0 <= i < LineLength(r, o) ==>
              r.Contains(LineCell(r, o, cut, i)) && OnLine(r, o, cut, LineCell(r, o, cut, i))
    ensures Passage(r, o, cut) == LineCell(r, o, cut, 2 * cut.passage)
    ensures 0 <= 2 * cut.passage < LineLength(r, o)
    ensures First(r, o, cut).width >= 0 && First(r, o, cut).height >= 0
    ensures Second(r, o, cut).width >= 0 && Second(r, o, cut).height >= 0
    ensures Across(First(r, o, cut), o) + Across(Second(r, o, cut), o) == Across(r, o) - 1
    ensures LineLength(First(r, o, cut), o) == LineLength(Second(r, o, cut), o) == LineLength(r, o)
    ensures forall c :: r.Contains(c) <==>
              First(r, o, cut).Contains(c) || Second(r, o, cut).Contains(c) || OnLine(r, o, cut, c)
    ensures forall c :: !(First(r, o, cut).Contains(c) && Second(r, o, cut).Contains(c))
    ensures forall c :: OnLine(r, o, cut, c) ==>
              !First(r, o, cut).Contains(c) && !Second(r, o, cut).Contains(c)
  {
  }

  /** Both parts of a fair cut of a region on the board lie on the board
      and are smaller than the region. */
  lemma PartsOnBoard(r: Region, o: Orientation, cut: Cut)
    requires r.OnBoard() && r.width >= 2 && r.height >= 2 && FairCut(r, o, cut)
    ensures First(r, o, cut).OnBoard() && Second(r, o, cut).OnBoard()
    ensures First(r, o, cut).width + First(r, o, cut).height < r.width + r.height
    ensures Second(r, o, cut).width + Second(r, o, cut).height < r.width + r.height
  {
  }

  /** Every cell of the line of a fair cut lies on the board, on the line. */
  lemma LineOnBoard(r: Region, o: Orientation, cut: Cut)
    requires r.OnBoard() && r.width >= 2 && r.height >= 2 && FairCut(r, o, cut)
    ensures forall i :: 0 <= i < LineLength(r, o) ==>
              InBounds(LineCell(r, o, cut, i)) && OnLine(r, o, cut, LineCell(r, o, cut, i))
  {
  }

  /** The divisions one call of `recursiveDivision` makes: a leaf where it
      returns at once, or the line it draws and the divisions of the parts
      on either side. */
  datatype Division = Leaf | Node(o: Orientation, cut: Cut, first: Division, second: Division)

  /** An orientation `chooseOrientation` can return for the region. */
  predicate Suits(rg: Region, o: Orientation) {
    (o == Horizontal ==> rg.width <= rg.height) && (o == Vertical ==> rg.height <= rg.width)
  }

  /** `d` is a division `recursiveDivision` can make of `rg`: it stops
      exactly at regions narrower or lower than 2; otherwise it cuts fairly
      and divides both parts, each in an orientation that suits the part. */
  predicate Divides(rg: Region, d: Division)
    decreases d
  {
    match d
    case Leaf => rg.width < 2 || rg.height < 2
    case Node(o, cut, first, second) =>
      && rg.width >= 2 && rg.height >= 2 && FairCut(rg, o, cut)
      && (first.Node? ==> Suits(First(rg, o, cut), first.o))
      && (second.Node? ==> Suits(Second(rg, o, cut), second.o))
      && Divides(First(rg, o, cut), first) && Divides(Second(rg, o, cut), second)
  }

  /** The position of a line cell along the line. */
  function LineIndex(rg: Region, o: Orientation, c: Coord): int {
    if o == Horizontal then c.col - rg.x else c.row - rg.y
  }

  /** `c` is a cell of one of the division's lines other than its passage:
      a cell the division walls unless it holds a marker. */
  predicate OnLines(rg: Region, d: Division, c: Coord)
    decreases d
  {
    match d
    case Leaf => false
    case Node(o, cut, first, second) =>
      || (OnLine(rg, o, cut, c) && c != Passage(rg, o, cut))
      || OnLines(First(rg, o, cut), first, c) || OnLines(Second(rg, o, cut), second, c)
  }

  /** Every cell of every line of the division but its passage is a wall
      or a marker. */
  predicate Walled(g: Grid, rg: Region, d: Division)
    reads g`start, g`end, g.isWall
    requires Spans(g.isWall)
    decreases d
  {
    match d
    case Leaf => true
    case Node(o, cut, first, second) =>
      && (forall i :: 0 <= i < LineLength(rg, o) && LineCell(rg, o, cut, i) != Passage(rg, o, cut) ==>
            WalledOrMarker(g, LineCell(rg, o, cut, i)))
      && Walled(g, First(rg, o, cut), first) && Walled(g, Second(rg, o, cut), second)
  }

  /** Every passage of the division is an open cell of the board. */
  predicate Carved(g: Grid, rg: Region, d: Division)
    reads g.isWall
    requires Spans(g.isWall)
    decreases d
  {
    match d
    case Leaf => true
    case Node(o, cut, first, second) =>
      && InBounds(Passage(rg, o, cut)) && !g.Wall(Passage(rg, o, cut))
      && Carved(g, First(rg, o, cut), first) && Carved(g, Second(rg, o, cut), second)
  }

  /** The division's lines lie inside the region, and none of them holds
      the passage of another, nor of itself. */
  lemma {:induction false} OnLinesInside(rg: Region, d: Division, c: Coord)
    requires Divides(rg, d) && OnLines(rg, d, c)
    ensures rg.Contains(c)
    ensures d.Node? ==> c != Passage(rg, d.o, d.cut)
    decreases d
  {
    match d
    case Node(o, cut, first, second) =>
      CutPartitions(rg, o, cut);
      if OnLines(First(rg, o, cut), first, c) {
        OnLinesInside(First(rg, o, cut), first, c);
      } else if OnLines(Second(rg, o, cut), second, c) {
        OnLinesInside(Second(rg, o, cut), second, c);
      }
  }

  /** A board whose walls include every line cell but the markers has
      every line walled. */
  lemma {:induction false} LinesWalled(g: Grid, rg: Region, d: Division)
    requires Spans(g.isWall) && rg.OnBoard() && Divides(rg, d)
    requires forall row, col ::
               (0 <= row < NumRows && 0 <= col < NumCols && OnLines(rg, d, Coord(row, col)) &&
                Coord(row, col) != g.start && Coord(row, col) != g.end) ==> g.isWall[row, col]
    ensures Walled(g, rg, d)
    decreases d
  {
    match d
    case Leaf =>
    case Node(o, cut, first, second) =>
      PartsOnBoard(rg, o, cut);
      LineOnBoard(rg, o, cut);
      LinesWalled(g, First(rg, o, cut), first);
      LinesWalled(g, Second(rg, o, cut), second);
  }

  /** A region whose only walls are line cells has every passage open. */
  lemma {:induction false} LinesCarved(g: Grid, rg: Region, d: Division)
    requires Spans(g.isWall) && rg.OnBoard() && Divides(rg, d)
    requires forall row, col ::
               (0 <= row < NumRows && 0 <= col < NumCols && rg.Contains(Coord(row, col)) && g.isWall[row, col]) ==>
               OnLines(rg, d, Coord(row, col))
    ensures Carved(g, rg, d)
    decreases d
  {
    match d
    case Leaf =>
    case Node(o, cut, first, second) =>
      CutPartitions(rg, o, cut);
      PartsOnBoard(rg, o, cut);
      LineOnBoard(rg, o, cut);
      var p := Passage(rg, o, cut);
      if g.Wall(p) {
        OnLinesInside(rg, d, p);
      }
      forall row, col | 0 <= row < NumRows && 0 <= col < NumCols &&
                        First(rg, o, cut).Contains(Coord(row, col)) && g.isWall[row, col]
        ensures OnLines(First(rg, o, cut), first, Coord(row, col))
      {
        if OnLines(Second(rg, o, cut), second, Coord(row, col)) {
          OnLinesInside(Second(rg, o, cut), second, Coord(row, col));
        }
      }
      forall row, col | 0 <= row < NumRows && 0 <= col < NumCols &&
                        Second(rg, o, cut).Contains(Coord(row, col)) && g.isWall[row, col]
        ensures OnLines(Second(rg, o, cut), second, Coord(row, col))
      {
        if OnLines(First(rg, o, cut), first, Coord(row, col)) {
          OnLinesInside(First(rg, o, cut), first, Coord(row, col));
        }
      }
      LinesCarved(g, First(rg, o, cut), first);
      LinesCarved(g, Second(rg, o, cut), second);
  }

  /** `drawWall(cell)`: `if (!cell.isWall) toggleWall(cell)`. The cell
      becomes a wall unless it holds a marker; nothing else changes. */
  method DrawWall(g: Grid, c: Coord)
    requires Spans(g.isWall) && InBounds(c)
    modifies g.isWall
    ensures g.Wall(c) == (old(g.Wall(c)) || (c != g.start && c != g.end))
    ensures forall r, k :: 0 <= r < NumRows && 0 <= k < NumCols && Coord(r, k) != c ==>
              g.isWall[r, k] == old(g.isWall[r, k])
  {
    if !g.Wall(c) {
      g.ToggleWall(c);
    }
  }

  /** Walls are only added, and never on a marker cell. */
  twostate predicate Grows(g: Grid)
    reads g, g.isWall
    requires Spans(g.isWall)
  {
    forall row, col :: 0 <= row < NumRows && 0 <= col < NumCols ==>
      && (old(g.isWall[row, col]) ==> g.isWall[row, col])
      && (Coord(row, col) == g.start || Coord(row, col) == g.end ==> g.isWall[row, col] == old(g.isWall[row, col]))
  }

  /** A cell the maze code has walled unless `drawWall` refused it. */
  predicate WalledOrMarker(g: Grid, c: Coord)
    reads g`start, g`end, g.isWall
    requires Spans(g.isWall)
  {
    c == g.start || c == g.end || (InBounds(c) && g.Wall(c))
  }

  /** The `for (let i = 0; i < length; i++)` loop: every cell of the line
      but the passage goes through `drawWall`, so those cells become walls
      unless they hold a marker, and nothing else changes. */
  method DrawLine(g: Grid, rg: Region, o: Orientation, cut: Cut)
    requires Spans(g.isWall) && rg.OnBoard() && rg.width >= 2 && rg.height >= 2 && FairCut(rg, o, cut)
    modifies g.isWall
    ensures forall row, col :: 0 <= row < NumRows && 0 <= col < NumCols ==>
              g.isWall[row, col] ==
                (old(g.isWall[row, col]) ||
                 (OnLine(rg, o, cut, Coord(row, col)) && Coord(row, col) != Passage(rg, o, cut) &&
                  Coord(row, col) != g.start && Coord(row, col) != g.end))
  {
    LineOnBoard(rg, o, cut);
    var passage := Passage(rg, o, cut);
    for i := 0 to LineLength(rg, o)
      invariant forall row, col :: 0 <= row < NumRows && 0 <= col < NumCols ==>
                  g.isWall[row, col] ==
                    (old(g.isWall[row, col]) ||
                     (OnLine(rg, o, cut, Coord(row, col)) && LineIndex(rg, o, Coord(row, col)) < i &&
                      Coord(row, col) != passage && Coord(row, col) != g.start && Coord(row, col) != g.end))
    {
      var c := LineCell(rg, o, cut, i);
      if c != passage {
        DrawWall(g, c);
      }
    }
  }

  /** `recursiveDivision(x, y, width, height, orientation)`. It returns at
      once on a region narrower or lower than 2; otherwise it draws a wall
      line with one passage at a fair cut and recurses into the parts on
      either side with a fresh orientation each. The division it makes is
      returned as `d`: the new walls are exactly the cells of its lines but
      the passages and the markers, so every line ends walled, and on a
      region that had no walls every passage stays open. */
  method RecursiveDivision(g: Grid, rg: Region, o: Orientation) returns (d: Division)
    requires Spans(g.isWall) && rg.OnBoard()
    modifies g.isWall
    ensures Divides(rg, d) && (d.Node? ==> d.o == o)
    ensures d.Leaf? ==> unchanged(g.isWall)
    ensures forall row, col :: 0 <= row < NumRows && 0 <= col < NumCols ==>
              g.isWall[row, col] ==
                (old(g.isWall[row, col]) ||
                 (OnLines(rg, d, Coord(row, col)) && Coord(row, col) != g.start && Coord(row, col) != g.end))
    ensures Walled(g, rg, d)
    decreases rg.width + rg.height
  {
    if rg.width < 2 || rg.height < 2 {
      return Leaf;
    }
    var offset: nat :| offset == 0 || 2 * offset < Across(rg, o) - 2;
    var passage: nat :| 2 * passage < LineLength(rg, o);
    var c := Cut(offset, passage);
    PartsOnBoard(rg, o, c);
    DrawLine(g, rg, o, c);
    var first, second := First(rg, o, c), Second(rg, o, c);
    var coin1: bool :| true;
    var d1 := RecursiveDivision(g, first, ChooseOrientation(first.width, first.height, coin1));
    var coin2: bool :| true;
    var d2 := RecursiveDivision(g, second, ChooseOrientation(second.width, second.height, coin2));
    d := Node(o, c, d1, d2);
    LinesWalled(g, rg, d);
  }

  predicate OnBorder(c: Coord) {
    InBounds(c) && (c.row == 0 || c.row == NumRows - 1 || c.col == 0 || c.col == NumCols - 1)
  }

  /** The first border loop of `generateMaze`: the top and bottom rows. */
  method DrawTopAndBottom(g: Grid)
    requires Spans(g.isWall)
    modifies g.isWall
    ensures Grows(g)
    ensures forall row, col :: 0 < row < NumRows - 1 && 0 <= col < NumCols ==>
              g.isWall[row, col] == old(g.isWall[row, col])
    ensures forall c :: InBounds(c) && (c.row == 0 || c.row == NumRows - 1) ==> WalledOrMarker(g, c)
  {
    for col := 0 to NumCols
      invariant Grows(g)
      invariant forall row, col :: 0 < row < NumRows - 1 && 0 <= col < NumCols ==>
                  g.isWall[row, col] == old(g.isWall[row, col])
      invariant forall c :: InBounds(c) && (c.row == 0 || c.row == NumRows - 1) && c.col < col ==>
                  WalledOrMarker(g, c)
    {
      DrawWall(g, Coord(0, col));
      DrawWall(g, Coord(NumRows - 1, col));
    }
  }

  /** The second border loop of `generateMaze`: the left and right columns. */
  method DrawLeftAndRight(g: Grid)
    requires Spans(g.isWall)
    modifies g.isWall
    ensures Grows(g)
    ensures forall row, col :: 0 <= row < NumRows && 0 < col < NumCols - 1 ==>
              g.isWall[row, col] == old(g.isWall[row, col])
    ensures forall c :: InBounds(c) && (c.col == 0 || c.col == NumCols - 1) ==> WalledOrMarker(g, c)
  {
    for row := 0 to NumRows
      invariant Grows(g)
      invariant forall row, col :: 0 <= row < NumRows && 0 < col < NumCols - 1 ==>
                  g.isWall[row, col] == old(g.isWall[row, col])
      invariant forall c :: InBounds(c) && (c.col == 0 || c.col == NumCols - 1) && c.row < row ==>
                  WalledOrMarker(g, c)
    {
      DrawWall(g, Coord(row, 0));
      DrawWall(g, Coord(row, NumCols - 1));
    }
  }

  /** The two border loops together: every border cell but a marker
      becomes a wall, and nothing inside the border changes. */
  method DrawBorder(g: Grid)
    requires Spans(g.isWall)
    modifies g.isWall
    ensures Grows(g)
    ensures forall row, col :: 0 <= row < NumRows && 0 <= col < NumCols && !OnBorder(Coord(row, col)) ==>
              g.isWall[row, col] == old(g.isWall[row, col])
    ensures forall c :: OnBorder(c) ==> WalledOrMarker(g, c)
  {
    DrawTopAndBottom(g);
    label rowsDrawn:
    DrawLeftAndRight(g);
    forall c | OnBorder(c)
      ensures WalledOrMarker(g, c)
    {
      if c.col != 0 && c.col != NumCols - 1 {
        assert old@rowsDrawn(WalledOrMarker(g, c));
      }
    }
  }

  /** The interior of the board that `generateMaze` divides. */
  const Interior: Region := Region(1, 1, NumCols - 2, NumRows - 2)

  /** `generateMaze` as the source writes it: `isRunning` is set before
      `clearBoard()`, which then returns at once, so the board is not
      cleared: the markers stay where they were, old walls stay, and the
      transient fields keep their values. The border and the division `d`
      of the interior are still drawn over the old walls. */
  method GenerateMazeAsWritten(g: Grid) returns (ghost d: Division)
    requires g.Shaped()
    modifies g, g.isWall, g.distance, g.gScore, g.fScore, g.previousNode
    ensures g.running == old(g.running)
    ensures old(g.running) ==> unchanged(g, g.isWall)
    ensures unchanged(g.distance, g.gScore, g.fScore, g.previousNode)
    ensures !old(g.running) ==> g.start == old(g.start) && g.end == old(g.end)
    ensures !old(g.running) ==> forall r, k :: 0 <= r < NumRows && 0 <= k < NumCols ==>
              (old(g.isWall[r, k]) ==> g.isWall[r, k])
    ensures !old(g.running) ==> forall c :: OnBorder(c) ==> WalledOrMarker(g, c)
    ensures !old(g.running) ==> Divides(Interior, d) && Walled(g, Interior, d)
    ensures old(g.Valid()) ==> g.Valid()
  {
    if g.running {
      return Leaf;
    }
    g.running := true;
    g.ClearBoard();
    DrawBorder(g);
    var coin: bool :| true;
    d := RecursiveDivision(g, Interior, ChooseOrientation(Interior.width, Interior.height, coin));
    g.running := false;
  }

  /** `generateMaze` with `clearBoard()` before `isRunning` is set, as the
      source evidently intends: the maze is drawn on an empty board with
      both markers back at their default cells. From a board with no marker
      on a wall, the walls afterwards are exactly the border and the lines
      of the division `d` of the interior, bar the passages and the
      markers, so every passage is open. */
  method GenerateMaze(g: Grid) returns (ghost d: Division)
    requires g.Shaped()
    modifies g, g.isWall, g.distance, g.gScore, g.fScore, g.previousNode
    ensures g.running == old(g.running)
    ensures old(g.running) ==> unchanged(g, g.isWall, g.distance, g.gScore, g.fScore, g.previousNode)
    ensures !old(g.running) ==> g.start == DefaultStart && g.end == DefaultEnd && g.Cleared()
    ensures !old(g.running) ==> forall c :: OnBorder(c) ==> WalledOrMarker(g, c)
    ensures !old(g.running) ==> Divides(Interior, d) && Walled(g, Interior, d)
    ensures !old(g.running) && old(g.Valid()) ==>
              forall row, col :: 0 <= row < NumRows && 0 <= col < NumCols ==>
                g.isWall[row, col] ==
                  ((OnBorder(Coord(row, col)) || OnLines(Interior, d, Coord(row, col))) &&
                   Coord(row, col) != g.start && Coord(row, col) != g.end)
    ensures !old(g.running) && old(g.Valid()) ==> Carved(g, Interior, d)
    ensures old(g.Valid()) ==> g.Valid()
  {
    if g.running {
      return Leaf;
    }
    g.ClearBoard();
    g.running := true;
    DrawBorder(g);
    var coin: bool :| true;
    d := RecursiveDivision(g, Interior, ChooseOrientation(Interior.width, Interior.height, coin));
    g.running := false;
    if old(g.Valid()) {
      LinesCarved(g, Interior, d);
    }
  }

  /** Moving the start marker and then generating a maze with the source's
      `generateMaze` leaves the marker where it was dragged. */
  method MazeAfterDragAsWritten() returns (g: Grid)
    ensures g.start == Coord(3, 3) && g.start != DefaultStart
  {
    g := new Grid();
    g.MoveNodeAsWritten(StartMarker, Coord(3, 3));
    var _ := GenerateMazeAsWritten(g);
  }

  /** The corrected `generateMaze` puts it back at its default cell. */
  method MazeAfterDragCorrected() returns (g: Grid)
    ensures g.start == DefaultStart && g.Valid()
  {
    g := new Grid();
    g.MoveNode(StartMarker, Coord(3, 3));
    var _ := GenerateMaze(g);
  }
}
