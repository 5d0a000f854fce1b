# Path-finding visualizer: grid, searches and maze, in Dafny

This project models the logic of a browser path-finding visualizer (`script.js`).
The board is a 20 x 50 grid of cells. Each cell carries a wall flag and the transient search
fields `distance`, `gScore`, `fScore` and `previousNode`. A start marker and an end marker sit
on two cells. The user can toggle walls, drag the markers, clear the path, the walls or the
whole board, run one of three searches (breadth-first, Dijkstra, A*), and generate a
recursive-division maze. After a search the path is rebuilt by following `previousNode` back
from the end cell.

The modules follow the parts of the program:

- `Geometry`: coordinates, adjacency and the Manhattan `heuristic`.
- `Graph`: the board as a graph value (`Layout`), walks, reachability and shortest walks.
- `GridModel`: the mutable board, as the class `Grid` with one `array2` per cell field, and
  the user edits `toggleWall`, `moveNode`, `clearPath`, `clearWalls` and `clearBoard`.
- `SearchLabels`: facts shared by `bfs` and `dijkstra` about hop-count labels and links.
- `BfsSearch`, `DijkstraSearch`, `AStarSearch`: the three searches as loops over the grid's
  arrays, each proved against ghost maps of labels and links.
- `PathWalk`: the `previousNode` walk of `animatePath` and what the chain it builds is.
- `Maze`: `generateMaze`'s border loops, `recursiveDivision`, `chooseOrientation` and `drawWall`.
- `Visualizer`: `runVisualization`, tying one search to the path walk.

Each search is a `method` whose loop updates the grid's arrays. It is specified by ghost
maps: `dist` or `gs` for the finite labels and `pred` for the links. The main results are
these:

- `bfs` and `dijkstra` label every visited cell with its exact hop count from the start.
- The chain of links back from a reached end cell is a shortest walk.
- When the end cell is never reached, no walk leads to it (for `dijkstra`, when the start is not on a wall).
- For `astar`, the chain is a walk from the start, and an unreached end is unreachable.

## Model

| member | source | states |
|---|---|---|
| Geometry.Heuristic | script.js:272-276 | the Manhattan distance is a natural number and is 0 exactly when the two cells are equal |
| Geometry.HeuristicSymmetric | script.js:272-276 | the heuristic is symmetric |
| Geometry.HeuristicStep | script.js:272-276 | one step between neighbours changes the heuristic to any target by at most 1 |
| Geometry.AdjacentCases | script.js:381-384 | the cells at distance 1 are exactly the four up, down, left and right moves |
| Graph.WalkAtLeastHeuristic | script.js:272-276 | no walk between two cells is shorter than their Manhattan distance (the heuristic is admissible) |
| Graph.NoWallsShortest | script.js:272-276 | on a board without walls a shortest walk between two cells has exactly Manhattan-distance many steps |
| Graph.ClosedHoldsWalk | script.js:208-215 | a walk starting inside a set of cells closed under steps stays inside it |
| Graph.ClosedSetBoundsReach | script.js:203-216 | a cell outside a closed set holding the start is unreachable from the start |
| Graph.FrontierBound | script.js:208-214 | when every labelled unfinished cell has label at least m, any walk from the start to an unlabelled cell has more than m steps |
| GridModel.AllCells | script.js:387-389 | `getAllNodes` lists every on-board cell exactly once, 20 * 50 cells in all |
| GridModel.OpenOnly | script.js:385 | the wall filter keeps exactly the non-wall cells of the list, in order, and keeps the list free of repeats |
| GridModel.CandidatesAreNeighbours | script.js:378-384 | the cells pushed before filtering are at most four, distinct, and are exactly the on-board orthogonal neighbours |
| GridModel.OpenIn | script.js:385 | the wall filter stated on a layout keeps exactly the open cells of the list |
| GridModel.NeighboursAreSteps | script.js:378-386 | the neighbour list holds exactly the cells one step from the cell into an open cell |
| GridModel.NeighboursShape | script.js:378-386 | the neighbour list has at most four distinct cells, each on the board, at Manhattan distance 1 and not a wall |
| GridModel.Grid.constructor | script.js:23-36 | a new board has no walls, every transient field unvisited, and the markers at (10, 10) and (10, 40) |
| GridModel.Grid.GetNeighbors | script.js:378-386 | `getNeighbors` returns the up, down, left and right on-board cells that are not walls, in that order |
| GridModel.Grid.OpenOnlyIsOpenIn | script.js:385 | filtering against the wall array equals filtering against the board's layout |
| GridModel.Grid.SetPrev | script.js:211 | setting one `previousNode` adds that one link to the links map |
| GridModel.Grid.SetDist | script.js:236 | setting one `distance` adds that one label to the distance map |
| GridModel.Grid.SetG | script.js:261 | setting one `gScore` adds that one score to the gScore map |
| GridModel.Grid.SetF | script.js:262 | setting `fScore` to the new gScore plus the heuristic keeps every fScore equal to gScore plus heuristic |
| GridModel.Grid.ToggleWall | script.js:115-120 | a marker cell is left as it is; any other cell has its wall flag flipped; no other cell changes; markers stay distinct and off walls |
| GridModel.Grid.MoveNodeAsWritten | script.js:122-137 | the marker moves unless the target is the other marker, but the wall under the target is never cleared |
| GridModel.Grid.MoveNode | script.js:122-137 | dropping onto the other marker changes nothing; otherwise the dragged marker lands on the target, the other marker stays, and the target is no longer a wall (unless the marker already stood there); no other cell changes; markers stay distinct and off walls |
| GridModel.Grid.ResetCell | script.js:38-43 | `reset` puts one cell's distance, gScore and fScore at Infinity and its link at null, and no other cell changes |
| GridModel.Grid.ClearPath | script.js:139-146 | every cell's transient fields end at their unvisited values whatever they were before, so clearing twice is clearing once; walls and markers are outside its frame |
| GridModel.Grid.ClearWalls | script.js:148-158 | while a run is in progress nothing changes; otherwise every transient field is reset and every wall is removed except one under a marker |
| GridModel.Grid.ClearBoard | script.js:160-166 | while a run is in progress nothing changes; otherwise walls are cleared, fields reset and both markers put back at their default cells |
| GridModel.MoveOntoWallAsWritten | script.js:128-135 | dragging the start marker onto a wall with the source's `moveNode` leaves the marker on a wall, breaking the grid invariant |
| GridModel.MoveOntoWallCorrected | script.js:128-135 | the same drag with the corrected `moveNode` leaves the marker on an open cell |
| SearchLabels.NondecreasingAppend | script.js:205 | appending a cell labelled at least every earlier label keeps the labels non-decreasing along the order |
| SearchLabels.LinksPointEarlier | script.js:209-212 | with labels non-decreasing along the order, the `previousNode` of a visited cell is visited strictly earlier |
| SearchLabels.LabelFrontier | script.js:209-212 | giving a new neighbour the next level keeps every label a lower bound on walk length |
| SearchLabels.LinkLabel | script.js:211 | linking a new neighbour back to the current cell keeps every link one step long and one level down |
| SearchLabels.Shrinks | script.js:209-210 | visiting a new cell shrinks the set of unvisited board cells |
| BfsSearch.Starts | script.js:199-201 | the queue and the visited set start as the start cell alone, at level 0 |
| BfsSearch.Dequeue | script.js:204-205 | taking the head of the queue into the order keeps the order and the queue free of repeats and the levels non-decreasing |
| BfsSearch.Enqueue | script.js:209-212 | marking an unvisited neighbour visited, linking it and enqueueing it labels it one level deeper and keeps every search invariant |
| BfsSearch.Close | script.js:208-214 | once every open neighbour of the current cell is visited, that cell is finished |
| BfsSearch.Exhausted | script.js:203-216 | with the queue empty no step leaves the visited cells |
| BfsSearch.VisitNeighbours | script.js:208-214 | the loop's effect is exactly the fold `DiscoveredFirst` over `getNeighbors(cur)`: each neighbour not yet visited, in order, is marked visited, linked to `cur`, labelled `level + 1` and enqueued, and earlier entries stay; the search invariants hold with `cur` finished |
| BfsSearch.Bfs | script.js:198-217 | the order starts at the start and has no repeats; it ends at the end cell when that is visited; an unvisited end is unreachable; labels are exact hop counts, non-decreasing along the order; links go one step and one level down |
| DijkstraSearch.ClosestUnvisited | script.js:225-226 | the cell taken from the unvisited cells has the least distance among them, with Infinity above every number |
| DijkstraSearch.Begins | script.js:220-222 | the search starts with every cell unvisited and only the start at distance 0 |
| DijkstraSearch.SkipWall | script.js:227 | dropping a wall cell keeps every search invariant and records nothing |
| DijkstraSearch.Record | script.js:230 | recording the closest cell keeps the order free of walls and repeats and its distances non-decreasing |
| DijkstraSearch.Stalled | script.js:228 | when the closest unvisited cell is at Infinity and the start is open, every labelled cell is recorded and no step leaves them |
| DijkstraSearch.Unreached | script.js:228 | then an end cell that was not recorded is unreachable |
| DijkstraSearch.Exhausted | script.js:224-241 | a search that runs out of finite distances returns a result meeting the outcome contract |
| DijkstraSearch.Round | script.js:224-239 | one round drops a wall, stops at Infinity, or records the cell, stopping at the end cell or relaxing its neighbours, and keeps the invariants |
| DijkstraSearch.RelaxDone | script.js:233-239 | after relaxing every open neighbour of the recorded cell, that cell is finished and the invariants hold |
| DijkstraSearch.RelaxAll | script.js:233-239 | the relaxation loop gives every neighbour at a greater distance the current distance + 1 and the current cell as link |
| DijkstraSearch.RelaxNeighbours | script.js:233-239 | relaxation over `getNeighbors` of the recorded cell with `closestNode.distance + 1` |
| DijkstraSearch.Dijkstra | script.js:219-242 | no wall is ever recorded; the order starts at the start, has no repeats and ends at the end cell when recorded; with an open start an unrecorded end is unreachable; distances are exact hop counts, non-decreasing along the order, each one more than its link's |
| AStarSearch.Remove | script.js:252 | `shift` after the sort removes one cell: the list is one shorter and, without repeats, keeps every other cell |
| AStarSearch.LowestF | script.js:251-252 | the sort by fScore followed by `shift` takes the earliest cell of least fScore |
| AStarSearch.Begins | script.js:245-248 | the open list starts as the start cell alone, with gScore 0 |
| AStarSearch.Take | script.js:252-254 | taking a cell out of the open list and recording it keeps the invariants |
| AStarSearch.Arrive | script.js:255 | taking out the end cell ends the search with the end cell last in the order |
| AStarSearch.RelaxedKeeps | script.js:258-266 | relaxing one neighbour keeps the open list free of repeats, the start's gScore at 0 with no link, and every link one step long and to a smaller gScore |
| AStarSearch.RelaxDone | script.js:257-267 | after relaxing every open neighbour of the current cell, that cell is finished and the invariants hold |
| AStarSearch.RoundLowers | script.js:250-268 | each round scores a new cell, lowers a gScore, or shortens the open list, so the loop ends |
| AStarSearch.Round | script.js:250-268 | one round keeps the invariants, finishes the cell taken, and lowers the termination measure |
| AStarSearch.Exhausted | script.js:250-269 | an empty open list without the end cell means the end cell is unreachable |
| AStarSearch.RelaxAll | script.js:257-267 | the relaxation loop gives every neighbour with a greater gScore the tentative gScore, the current cell as link and fScore = gScore + heuristic, and appends it to the open list unless already there |
| AStarSearch.RelaxNeighbours | script.js:257-262 | relaxation over `getNeighbors` of the current cell with `currentNode.gScore + 1` |
| AStarSearch.AStar | script.js:244-270 | the order starts at the start; it ends at the end cell the first time that is taken out; an end never taken out is unreachable; the start keeps gScore 0 and no link; each link goes one edge back, to a cell of smaller gScore; every fScore is gScore plus the heuristic |
| PathWalk.ChainShape | script.js:297-303 | the chain ends at the end cell, starts at a cell without a link, follows the links one cell at a time and climbs strictly in rank |
| PathWalk.ChainDistinct | script.js:297-303 | the chain never repeats a cell |
| PathWalk.WalkBack | script.js:298-303 | the `previousNode` walk from the end cell ends and returns the chain of links, head first |
| PathWalk.LevelChain | script.js:297-303 | after `bfs` or `dijkstra` the chain from a labelled cell is a walk from the start with exactly its label's number of steps |
| PathWalk.ShortestChain | script.js:297-303 | after `bfs` or `dijkstra` the chain from a labelled cell is a shortest walk from the start |
| PathWalk.DescendingChain | script.js:297-303 | after `astar` the chain from a scored cell is a walk from the start no longer than its gScore |
| Maze.ChooseOrientation | script.js:366-370 | a wall runs horizontally only if width <= height and vertically only if height <= width; a square region follows the coin |
| Maze.CutPartitions | script.js:340-364 | a fair cut puts the line at an odd offset inside the region and the passage at an even offset on it; the two parts are disjoint, miss the line, cover the rest of the region, and are one cell smaller across in total |
| Maze.PartsOnBoard | script.js:358-364 | both recursive calls get regions on the board and smaller than the region divided |
| Maze.LineOnBoard | script.js:348-350 | every cell of the wall line lies on the board, on the line |
| Maze.DrawWall | script.js:372-373 | the cell becomes a wall unless it holds a marker; no other cell changes |
| Maze.DrawLine | script.js:348-356 | the walls afterwards are exactly the walls before plus the cells of the line other than the passage and the markers |
| Maze.RecursiveDivision | script.js:335-365 | the returned division tree `d` is one the source can make: a leaf, leaving every wall as it was, exactly when width < 2 or height < 2; otherwise a fair cut in the given orientation whose two parts are divided in turn, each in an orientation `chooseOrientation` can pick for it; the walls afterwards are exactly the walls before plus every line cell of `d` other than its passage and the markers, so every line of `d` is walled but for its passage |
| Maze.OnLinesInside | script.js:335-365 | the lines of a division lie inside the divided region and never cover the passage of the top line |
| Maze.LinesWalled | script.js:348-356 | a board holding every line cell of a division but the markers as walls has every line walled bar its passage |
| Maze.LinesCarved | script.js:348-356 | a region whose only walls are line cells of a division has every passage of the division open |
| Maze.DrawTopAndBottom | script.js:322-325 | every cell of the top and bottom rows ends walled or a marker, and no inner row changes |
| Maze.DrawLeftAndRight | script.js:326-329 | every cell of the left and right columns ends walled or a marker, and no inner column changes |
| Maze.DrawBorder | script.js:322-329 | after the border loops every border cell that is not a marker is a wall, and nothing inside the border changes |
| Maze.GenerateMazeAsWritten | script.js:317-333 | with `isRunning` set before `clearBoard`, the board is not cleared: markers, old walls and transient fields stay; the border ends walled, and the interior holds a division whose lines are walled |
| Maze.GenerateMaze | script.js:317-333 | with the board cleared first, both markers are at their default cells and the transient fields cleared; from a board with no marker on a wall, the walls afterwards are exactly the border cells and the line cells of the interior's division bar its passages, less the markers, so every passage is open; the grid invariant holds |
| Maze.MazeAfterDragAsWritten | script.js:317-320 | a start marker dragged to (3, 3) stays there through the source's `generateMaze` |
| Maze.MazeAfterDragCorrected | script.js:317-320 | the corrected `generateMaze` puts it back at (10, 10) |
| Visualizer.BfsOutcome | script.js:297-303 | after `bfs` the end cell has a link exactly when visited, and then its chain is a shortest walk from the start |
| Visualizer.DijkstraOutcome | script.js:297-303 | the same after `dijkstra` from an open start; from a start on a wall nothing is visited and no link is left, so the end has none even when it is reachable |
| Visualizer.AStarOutcome | script.js:297-303 | after `astar` the end cell has a link exactly when visited, and then its chain is a walk from the start |
| Visualizer.RunSearch | script.js:184-188 | the selected search, run on a cleared board with the markers anywhere (on a wall too), leaves links whose chain from a visited end is a walk (a shortest one for `bfs` and `dijkstra`); an unvisited end is unreachable, except that `dijkstra` from a start on a wall visits nothing |
| Visualizer.RunVisualization | script.js:174-196 | while a run is in progress nothing happens; otherwise, with the markers anywhere on the board (on a wall too), "no path" is reported exactly when no path is drawn, which is exactly when the end cell is not visited; then the end is unreachable, except that `dijkstra` from a start on a wall always visits nothing and reports "no path"; a drawn path is a walk from the start marker to the end marker, and a shortest one for `bfs` and `dijkstra` |

## Left out

- The DOM, CSS classes, `updateNodeClasses`, the `element` field of `Cell` and `createGrid`'s element wiring: presentation only.
- Mouse handling (`mousedown`, `mouseover`, `mouseup` and the drag state): `moveNode` takes the dragged marker as a parameter instead.
- `sleep`, `async`/`await`, the animation speed and the CSS class loops of `animateSearch` and `animatePath`: timing and display only. The walk of `animatePath` is modelled; the alert is the `noPath` result.
- `Math.random()`: every draw is a nondeterministic choice over exactly the values `Math.floor(Math.random() * n / 2)` can take, and the coin of `chooseOrientation` is a nondeterministic boolean.
- `Array.sort` tie order: `dijkstra` holds its unvisited list as a set and takes any cell of least distance. Its re-sort every round makes the list's order irrelevant, except for ties, whose order among cells at Infinity is unspecified (Infinity - Infinity is NaN).
- AStarSearch.AStar: the open list takes out the earliest cell of least fScore and keeps the others in place rather than re-sorting them. Ties can therefore be taken in another order than the engine's sort would take them.
- AStarSearch.AStar: it does not prove that `astar` finds a shortest path. It proves only that the chain is a walk no longer than the end cell's gScore, and that an unreached end is unreachable.
- Maze.RecursiveDivision: it does not prove that the maze is connected, only that every line is walled and every passage open.
- Maze.RecursiveDivision: it requires its region to lie on the board, which every call from `generateMaze` meets. So the source's `if (grid[currentY][currentX])` guard always holds and is not modelled.
- Integer width: all arithmetic in the source is on small board coordinates, so unbounded integers model it exactly.

## Findings

| source | as written | input that shows it | evidently intended | confidence | as-written member | corrected member |
|---|---|---|---|---|---|---|
| script.js:128-135 | `moveNode` updates the marker coordinates before `toggleWall(newCell)`, and `toggleWall` refuses a marker cell, so the wall under the target is never cleared | a wall at (5, 5), then the start marker dragged onto (5, 5): the start marker stands on a wall, and a later `dijkstra` run skips that start and reports "no path" even with the end reachable (`Visualizer.DijkstraOutcome`) | the target's wall is cleared, so no marker stands on a wall | not executed | GridModel.MoveOntoWallAsWritten | GridModel.MoveOntoWallCorrected |
| script.js:318-320 | `generateMaze` sets `isRunning = true` and then calls `clearBoard()`, which returns at once when `isRunning` is set, so the board is never cleared | start marker dragged to (3, 3), then a maze generated: the marker stays at (3, 3) and old walls and search fields stay | the board is cleared and the markers reset before the maze is drawn | not executed | Maze.MazeAfterDragAsWritten | Maze.MazeAfterDragCorrected |
