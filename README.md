# Grid path-finding editor: A* search and editing rules

This project models a browser grid editor: a 16×16 map of cell codes on a 512-pixel canvas. The user places a
start cell and an end cell, and paints blocks with the mouse. The run button starts an A* search over the map
from start to end. The search uses 4-neighbour moves, unit step cost and the Manhattan heuristic.

What the model covers:

- **Grid** (`grid.dfy`): the cell codes (0 empty, 1 block, 2 start, 3 end) and the fixed sizes. It also holds the
  pixel-to-cell conversion and map creation.
- **Arrays** (`arrays.dfy`): the helpers over lists of two-element coordinate arrays. They compare element by
  element, never by identity.
- **Editor** (`editor.dfy`): the `Board` class. It holds the map, the start and end positions and the block
  list, and its methods are the initial placement, a click in start or end mode, painting in build mode, and
  the run button.
- **Nodes** (`nodes.dfy`): search nodes, the heuristic, neighbour generation, and the coordinate scans the
  search uses to test whether a cell is on the open or the closed list.
- **Paths** (`paths.dfy`): walks on the map, and the closed list viewed as an arena. In the arena, each node's
  parent is the index of an earlier closed node. This file also has path reconstruction.
- **AStar** (`astar.dfy`): picking the lowest `f` from the open list, expanding a node, and the whole search.

What is proved:

- Every reported path is a walk from the start to the end. A walk is a sequence of in-bounds, 4-adjacent cells
  where no cell after the first holds code 1.
- The search reports no path only when no such walk exists.
- Start equal to end gives the one-cell path.
- The search runs at most n² rounds.

How the program behaves, as written, on points where its own comments or the natural reading suggest
otherwise:

- **Open nodes are never improved.** The re-link test "new cost below the neighbour's cost" compares against a
  neighbour freshly built with cost 0, so it never passes. An open node therefore keeps the cost and parent it
  got when first discovered. For this reason the model claims that reported paths are walks, not that they are
  shortest.
- **Painted blocks never reach the search.** The editor keeps painted blocks only in `blockList` and never
  writes code 1 into the map. The search only reads the map. So on every map the editor can produce, the run
  button finds a path (`Editor.Board.Run`). The search itself is modelled over any map, so code 1 is still
  honoured when it is present.
- **Start and end may coincide at start-up.** The loop that should redraw the end cell compares array
  identities, so its body never runs. When the two random draws coincide, the end code overwrites the start
  code.
- **The click handler's test that the target differs from the current position always passes**, because it
  also compares identities. An occupied target is still refused, because the handler only moves onto an empty
  cell. The empty-cell test is also what keeps the start from being moved onto the end cell.
- **Cells never written** (`undefined` in the program) are treated exactly like code 0 by every reader, so the
  model stores them as 0.

## Model

| member | source | states |
|---|---|---|
| Grid.RoundPos | pathfinding.js:198-200 | the result is a multiple of the cell size, at most the pixel offset, and within one cell size of it (the floor) |
| Grid.CellOf | pathfinding.js:204-206 | the cell's pixel square contains the mouse position; a position on the canvas gives an in-bounds cell |
| Grid.CreateGrid | pathfinding.js:19-27 | a fresh n×n map in which every cell reads as empty |
| Grid.BoxCard | pathfinding.js:38 | an n×n map has exactly n² cells |
| Arrays.SameArray | pathfinding.js:72-75 | the length-and-every-index comparison holds exactly when the two arrays are equal |
| Arrays.CheckArray | pathfinding.js:69-78 | true exactly when some element of the list equals the data element by element |
| Arrays.FindIndex | pathfinding.js:81-88 | the result is -1 exactly when no element matches; otherwise it is the index of the first matching element |
| Arrays.RemoveArrayElement | pathfinding.js:80-94 | reports removal exactly when a match exists; the first match is spliced out and everything else is kept in order, or the list is unchanged |
| Arrays.AreArraysEqual | pathfinding.js:96-106 | true exactly when the two arrays have the same length and contents |
| Editor.Board.constructor | pathfinding.js:187-195 | start code on the start cell, end code on the end cell (the end wins when they coincide), every other cell empty; two distinct draws give a map with exactly one start and one end |
| Editor.Board.Click | pathfinding.js:202-226 | in start or end mode, a click on an empty cell moves that marker: the old cell is emptied, the new one receives the code, and the position follows; anything else leaves the state unchanged; exactly one start and one end are preserved, and the map never receives the block code |
| Editor.Board.Build | pathfinding.js:278-284 | the map and positions stay valid; the painted cell is appended to the block list exactly when it is not yet listed and is neither the start nor the end; the list never gains a duplicate |
| Editor.Board.Run | pathfinding.js:382-458 | on a map the editor produced, the search always returns a walk from the start to the end: painted blocks are not obstacles to it |
| Nodes.NewNode | pathfinding.js:322-331 | a node as built with the default arguments sits on the given cell, has g, h and f all 0 (f being g + h), and has no parent |
| Nodes.Heuristic | pathfinding.js:378-381 | the Manhattan distance is 0 exactly when the cells coincide and 1 exactly when they are 4-adjacent |
| Nodes.HeuristicStep | pathfinding.js:378-381 | one step between adjacent cells changes the distance to any goal by exactly one |
| Nodes.StepIsMove | pathfinding.js:356-361 | each entry of the move table leads to an adjacent cell, and that cell's position in the table is the entry itself |
| Nodes.MoveIsStep | pathfinding.js:356-361 | every adjacent cell is reached by the move-table entry at its position |
| Nodes.NeighborsFrom | pathfinding.js:363-373 | the neighbours from move i onwards are fresh nodes on in-bounds adjacent cells, in table order |
| Nodes.NeighborsFromComplete | pathfinding.js:363-373 | every in-bounds adjacent cell whose move comes at or after i is generated |
| Nodes.GenerateNeighbors | pathfinding.js:350-376 | at most four fresh nodes with zero costs, each on an in-bounds cell adjacent to the node, in the order x-1, x+1, y-1, y+1 |
| Nodes.GenerateNeighborsComplete | pathfinding.js:350-376 | every in-bounds cell adjacent to the node is among its generated neighbours |
| Nodes.ContainsCell | pathfinding.js:433 | the coordinate scan is true exactly when some node of the list sits on the cell |
| Paths.Reverse | pathfinding.js:418 | same length; element i is element length-1-i of the input |
| Paths.PathTo | pathfinding.js:412-418 | the parent chain of closed node i, read from the root, is non-empty and ends at node i's cell |
| Paths.ArenaParentsEarlier | pathfinding.js:444 | in the closed list the search builds, every parent is an earlier closed node |
| Paths.PathToWalk | pathfinding.js:411-419 | following parent links from any closed node gives a walk that starts at the start cell |
| Paths.Reconstruct | pathfinding.js:412-418 | the loop that collects cells along the parent links and then reverses them yields exactly the parent chain from the root |
| Paths.WalkStaysInside | pathfinding.js:428-453 | a walk that starts in a closed list closed under unblocked steps never leaves it |
| Paths.Toward | pathfinding.js:363-373 | one step of the witness walk behind the run button's "always finds a path": an adjacent cell, one unit nearer the target, and inside any square that holds both ends |
| Paths.Staircase | pathfinding.js:363-373 | the witness walk behind the run button's "always finds a path": the column-then-row route from a to b has Manhattan length plus one cells and runs from a to b |
| Paths.StaircaseWalk | pathfinding.js:428-437 | the witness behind the run button's "always finds a path": on a map without the block code, the route between two in-bounds cells passes the search's blocked test and is a walk, so every end cell is reachable |
| AStar.LowestF | pathfinding.js:397-402 | the chosen open node has the minimal f, and no earlier node has the same f (ties go to the first) |
| AStar.Without | pathfinding.js:405 | removing the chosen node leaves the others in order: the list is one shorter and the entries after k shift down by one |
| AStar.HasGrow | pathfinding.js:449-451 | a cell already on the open list stays on it when the list grows at the end |
| AStar.AppendUnseen | pathfinding.js:449-451 | appending a node on a cell that is neither open nor closed keeps cells unique and the lists disjoint |
| AStar.Visit | pathfinding.js:429-452 | a closed or blocked neighbour is skipped; otherwise the neighbour gets the current node as parent, cost g+1 and f = g+h, and it is appended unless its cell is already open; cells stay unique and open and closed stay disjoint |
| AStar.Expand | pathfinding.js:425-453 | existing open nodes are left exactly as they were; new nodes are discovered from the expanded node and appended in the order their cells were generated (x-1, x+1, y-1, y+1), which decides later first-wins ties; every unblocked in-bounds cell next to it ends up closed or open |
| AStar.OrderStep | pathfinding.js:428-451 | visiting one neighbour keeps the appended open nodes in move-table order |
| AStar.VisitStep | pathfinding.js:428-451 | visiting one neighbour keeps the old open list as a prefix and every appended node discovered, and marks that neighbour's cell blocked, closed or open |
| AStar.CellsCard | pathfinding.js:432-451 | a list of nodes on pairwise distinct cells has as many cells as nodes |
| AStar.DistinctBound | pathfinding.js:432-451 | nodes on pairwise distinct cells of an n×n map number at most n² |
| AStar.CloseKeepsArena | pathfinding.js:404-408 | moving the chosen open node to the closed list keeps the closed list well formed and every remaining open node linked to a closed node |
| AStar.CloseKeepsDistinct | pathfinding.js:404-408 | moving the chosen node keeps cells unique within each list and the two lists disjoint |
| AStar.CloseKeepsCovered | pathfinding.js:404-408 | moving the chosen node keeps every unblocked neighbour of an expanded node closed or open |
| AStar.ExpandStep | pathfinding.js:425-453 | after a round that does not reach the end, the loop invariant holds again |
| AStar.Found | pathfinding.js:410-423 | when the node just closed is on the end cell, its parent chain is a walk from the start to the end, and it is the start alone when start and end coincide |
| AStar.Exhausted | pathfinding.js:395-457 | when the open list runs empty, no walk from the start reaches the end |
| AStar.Search | pathfinding.js:382-458 | a returned path is a walk from the start to the end; no path only when no walk exists; start equal to end gives the one-cell path; at most n² rounds |

## Left out

- Rendering is not modelled: drawing the grid, blocks, selection and path; canvas sizing and pixel ratio; the
  colour table. None of it changes the map, the positions, the block list or the search.
- Mouse-event plumbing is not modelled. The pixel position comes in as parameters (`getMousePos` is the browser's
  business), and the `mousedown`/`mouseup` drawing flag and the hover `selection` are UI state. `Build` models
  the body that runs while drawing in build mode.
- The mode buttons only set the mode, which is a parameter of `Click`. Erase mode has no handler in the program,
  so it has nothing to model.
- The random start-up draws are parameters of `Editor.Board.constructor`. The console message for "no path" is
  the `None` result.
- Editor.Board.Click: requires the pixel position to lie on the canvas. A position outside it would index
  outside the map, and the canvas only delivers events for its own pixels.
- The constructor's requirement that both cells be in bounds is exactly the range of the random draw, from 0
  to 15 on each axis, so it excludes nothing the program can produce.
- Arrays.RemoveArrayElement: works on values. It returns the shortened list instead of splicing the caller's
  array in place, and the program never calls it.
- AStar.Search: takes the open and closed lists as locals. The program keeps them global but empties both at the
  start of every run, so no state carries over between runs. Nodes are values, and parents are indices into the
  closed list rather than object references. The program's `indexOf` finds the chosen object, which is at the
  index the minimum scan picked.
- AStar.Search: does not claim shortest paths. Open nodes are never re-linked to a cheaper parent, so a
  reported path can be longer than the shortest walk.
- AStar.Search: requires the start cell to be in bounds, which the editor always guarantees.
- `createArray` is modelled only in the two-dimensional form the program uses.
- Coordinates and costs are unbounded integers. The program's values stay below 16² and never approach
  floating-point limits.
