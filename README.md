# Maze generation and A* search over a node grid

This project models the core of a small Unity maze game in Dafny. It has three parts.

- **Nodes** (`Node.cs`): a grid cell and the methods that set its fields. The grid is an arena, a `width x height` array of `Cell` values indexed by `(x, y)`. A node is named by its index, so `PreviousNode` is an optional index.
- **Maze** (`MazeScript.cs`): the `MazeScript` component.
  - `CreateMap` checks the requested size, builds an all-wall grid (`CreateGrid`) and carves it (`GenerateContentMap`).
  - The carve is a randomized depth-first walk over the rooms at even-even nodes. It keeps its stack implicitly in each room's `passPosHalf` and stores the unwalked neighbours of the current room in a 3-slot array.
  - Clicking a node (`OnSelected`, `OnNodeSelected`) moves the start/target selection along a small state machine.
  - `PathFinding` runs the search only when a maze exists and both a start and a target are selected.
- **Search** (`AStar.cs`): `PathFinding`.
  - The open list is scanned for the entry with the least `(FCost, HCost)`. That entry is removed and visited.
  - Either the path is read back from the target through `PreviousNode`, or the 4-neighbours that are neither walls nor visited are linked back and appended.

What is proved:

- Started from a freshly built grid (every node a wall, none walked or blocked), the carve always terminates. It never overflows its 3-slot array and never blocks the origin early. Its result is a perfect maze:
  - every room is open;
  - every pillar is a wall;
  - every room's entry link crosses an open connector, and following these links reaches the origin;
  - exactly one connector fewer than there are rooms is open.
- Under its preconditions (no node visited, no cost computed, every node's position equal to its index) the search terminates on every grid. Every cost stays 0, so the scan always keeps the first entry.
- When the search returns a non-empty list, it is a valid path: 4-adjacent steps over non-wall nodes, ending at the target and never naming the start. An empty result for distinct start and target comes with a region that separates them, so no walk from the start reaches the target.

Files:

- `options.dfy`: the `Option` type.
- `geometry.dfy`: positions, directions, Manhattan distance, bounds and counting facts about rectangles.
- `node.dfy`: module `Nodes`.
- `carve.dfy`: module `Carve`. It defines the ghost trace of the carve and its invariant, and the perfect-maze property.
- `maze.dfy`: module `Maze`. It holds the carve loop and the `MazeScript` class.
- `search.dfy`: module `Search`. It holds the search and the `AStar` class.

## Model

| member | source | states |
|---|---|---|
| Geometry.Manhattan | Assets/_GameAssets/_Scripts/Node.cs:59-60 | The distance used by `CalculateCost` is zero exactly when the two positions are equal. |
| Geometry.ManhattanSymmetric | Assets/_GameAssets/_Scripts/Node.cs:59-60 | The distance is symmetric, so 4-adjacency is symmetric. |
| Geometry.AdjacentIsDirection | Assets/_GameAssets/_Scripts/AStar.cs:75-78 | Two positions are 4-adjacent exactly when one is the other plus left, right, up or down. |
| Nodes.GetNode | Assets/_GameAssets/_Scripts/AStar.cs:82-86 | The lookup is none exactly when the position is outside `[0, w) x [0, h)`; otherwise it is the node at that index. `MazeScript.GetNode` (MazeScript.cs:297-302) is the same lookup. |
| Nodes.Init | Assets/_GameAssets/_Scripts/Node.cs:47-53 | Sets the position and the wall flag and clears `IsVisited` and `IsCalculated`. The walk flags, `passPosHalf`, the costs and `PreviousNode` are kept, and no other node changes. |
| Nodes.CalculateCost | Assets/_GameAssets/_Scripts/Node.cs:55-61 | On a wall, or on a node whose `IsCalculated` is false, nothing changes. Otherwise `GCost` and `HCost` become the Manhattan distances from the start and to the target. |
| Nodes.SetWall | Assets/_GameAssets/_Scripts/Node.cs:63-67 | Sets the wall flag of one node. Nothing else changes. |
| Nodes.SetPreviousNode | Assets/_GameAssets/_Scripts/Node.cs:69-73 | A wall keeps its back-pointer. Any other node gets `Some(previous)`. Nothing else changes. |
| Nodes.FCost | Assets/_GameAssets/_Scripts/Node.cs:14 | `FCost` is derived from the two stored costs as `GCost + HCost` and is never stored. |
| Carve.RoomsAreRect | Assets/_GameAssets/_Scripts/MazeScript.cs:203 | The rooms of a `w x h` grid are exactly the `ceil(w/2) x ceil(h/2)` half-lattice rectangle counted by `totalWalkCont`. |
| Carve.RoomsAlong | Assets/_GameAssets/_Scripts/MazeScript.cs:203 | `CeilToInt(n / 2f)` on a non-negative size: the result `r` satisfies `n <= 2r <= n + 1`, so it is the ceiling of `n/2`. |
| Carve.TotalRooms | Assets/_GameAssets/_Scripts/MazeScript.cs:203 | `totalWalkCont` is the product of the rooms along each axis. |
| Carve.ConnectorSides | Assets/_GameAssets/_Scripts/MazeScript.cs:224-235 | The node between adjacent rooms `a` and `b` (`2a + sign`) has exactly one odd coordinate, and its two sides are `a` and `b`. |
| Carve.ConnectorInGrid | Assets/_GameAssets/_Scripts/MazeScript.cs:234-235 | The connector between two adjacent rooms of the grid lies in the grid, so `GetNode(nodeSet.Position + sign)` is never null. |
| Carve.ConnectorIsNotRoom | Assets/_GameAssets/_Scripts/MazeScript.cs:234-235 | The opened connector is never the node of a room. |
| Carve.StartTraceOk | Assets/_GameAssets/_Scripts/MazeScript.cs:199-207 | Before the loop (origin walked and open, `walkedCount = 1`) the carve invariant holds. |
| Carve.WalkedNeighbourOfTop | Assets/_GameAssets/_Scripts/MazeScript.cs:202-240 | One of the current room's four lattice neighbours is off the grid or walked: the room it was entered from, or left of the origin. |
| Carve.ExhaustedWalkCoversAllRooms | Assets/_GameAssets/_Scripts/MazeScript.cs:208-216 | If every walked room is blocked and blocked rooms have no unwalked neighbour, then every room of the grid has been walked. |
| Carve.BacktrackLeavesOrigin | Assets/_GameAssets/_Scripts/MazeScript.cs:208-216 | While `walkedCount < totalWalkCont`, a room with no unwalked neighbour is never the origin at the bottom of the walk, so the origin's default `passPosHalf` is never followed. |
| Carve.BacktrackTrace | Assets/_GameAssets/_Scripts/MazeScript.cs:211-216 | Blocking an enclosed current room and returning to the room it was entered from keeps the carve invariant. |
| Carve.ForwardTrace | Assets/_GameAssets/_Scripts/MazeScript.cs:218-240 | Entering an unwalked adjacent room and opening the connector keeps the invariant with `walkedCount + 1`. |
| Carve.FinishedTraceWalkedAll | Assets/_GameAssets/_Scripts/MazeScript.cs:203-208 | When `walkedCount` reaches `totalWalkCont`, the walked rooms are exactly the rooms of the grid. |
| Carve.OrderedLinksReachOrigin | Assets/_GameAssets/_Scripts/MazeScript.cs:214-220 | Following `passPosHalf` from any walked room reaches the origin within its walk order in steps. |
| Carve.FinishedRoomsAndPillars | Assets/_GameAssets/_Scripts/MazeScript.cs:206-235 | After the carve every room node is walked and open, and every odd-odd pillar is still a wall. |
| Carve.FinishedLinks | Assets/_GameAssets/_Scripts/MazeScript.cs:220-235 | After the carve every room but the origin is joined by an open connector to the room in its `passPosHalf`, and every room reaches the origin. |
| Carve.OpenConnectorsAreCarved | Assets/_GameAssets/_Scripts/MazeScript.cs:234-240 | The open connector nodes are exactly the ones the forward steps opened. |
| Carve.FinishedCarveIsPerfect | Assets/_GameAssets/_Scripts/MazeScript.cs:197-241 | A finished carve is a perfect maze. In particular exactly `walkedCount - 1` connectors are open. |
| Carve.LinksToParentKept | Assets/_GameAssets/_Scripts/AStar.cs:24-69 | A change that keeps every node's position, wall flag, walk flags and entry link keeps every room's entry link crossing an open connector. |
| Carve.AllReachOriginKept | Assets/_GameAssets/_Scripts/AStar.cs:24-69 | Such a change keeps every walk along entry links that reaches the origin. |
| Carve.PerfectMazeKept | Assets/_GameAssets/_Scripts/AStar.cs:24-69 | Such a change keeps a perfect maze perfect, since the search writes only the visited flags, costs and back-pointers. |
| Maze.NormalisedSize | Assets/_GameAssets/_Scripts/MazeScript.cs:92-104 | A request is rejected exactly when a dimension is below 5. Otherwise each dimension becomes the least odd number at least as large, which is at least 5. |
| Maze.GetNodeWithHalfPos | Assets/_GameAssets/_Scripts/MazeScript.cs:292-295 | The result is `GetNode(2 * pos)`. It is none exactly when `pos` is outside the `ceil(w/2) x ceil(h/2)` rooms. |
| Maze.ValidateNeighbour | Assets/_GameAssets/_Scripts/MazeScript.cs:284-290 | True exactly when the node exists and is neither walked nor blocked. |
| Maze.HalfLookup | Assets/_GameAssets/_Scripts/MazeScript.cs:250-256 | One lookup-and-validate step adds at most one node: the room node of that half position, in the grid, unwalked and unblocked. |
| Maze.EligibleNeighbours | Assets/_GameAssets/_Scripts/MazeScript.cs:247-281 | The rooms found around `posHalf`, in the order left, right, up, down. There are at most four, each adjacent, unwalked and unblocked. |
| Maze.EligibleComplete | Assets/_GameAssets/_Scripts/MazeScript.cs:247-281 | Every adjacent in-grid room that is neither walked nor blocked is found. |
| Maze.SurroundedWhenNoneEligible | Assets/_GameAssets/_Scripts/MazeScript.cs:211 | When nothing is found, every adjacent in-grid room is walked or blocked. |
| Maze.EligibleAtMostThree | Assets/_GameAssets/_Scripts/MazeScript.cs:247-281 | If one lattice neighbour is off the grid or walked, at most three rooms are found. |
| Maze.EligibleAreUnwalked | Assets/_GameAssets/_Scripts/MazeScript.cs:247-290 | On a grid that agrees with the carve trace, each node found is the node of an unwalked room adjacent to the current one. |
| Maze.UnwalkedAreEligible | Assets/_GameAssets/_Scripts/MazeScript.cs:247-290 | Conversely, every unwalked room adjacent to the current one is found. |
| Maze.NoneEligibleAllWalked | Assets/_GameAssets/_Scripts/MazeScript.cs:211-213 | When nothing is found, every room next to the current one has been walked. |
| Maze.AtMostThreeOnWalk | Assets/_GameAssets/_Scripts/MazeScript.cs:202-210 | Around the current room of the walk at most three rooms are ever found, so the 3-slot array never overflows. |
| Maze.BacktrackOnGrid | Assets/_GameAssets/_Scripts/MazeScript.cs:211-216 | When nothing is found, the walk is not at the origin and the room in `passPosHalf` is a room of the grid. The invariant holds after the step. |
| Maze.ForwardOnGrid | Assets/_GameAssets/_Scripts/MazeScript.cs:218-222 | Any node found is an unwalked adjacent room, and stepping into it keeps the invariant. |
| Maze.StepSignMoves | Assets/_GameAssets/_Scripts/MazeScript.cs:224-238 | `sign` takes room `a` to room `b` on the half lattice (`currentPosHalf += sign`). It also takes the node of `a` to the connector between them. |
| Maze.StepSign | Assets/_GameAssets/_Scripts/MazeScript.cs:224-232 | `sign` is one of the four directions. When the x coordinates differ it is horizontal and points left exactly when the walked node is left of the set node; otherwise it is vertical and points down exactly when the walked node is below. |
| Maze.StoreIfValid | Assets/_GameAssets/_Scripts/MazeScript.cs:250-256 | One step of `LoadNeighbours_L` appends exactly what `HalfLookup` finds to the stored prefix of the array. |
| Maze.LoadNeighbours | Assets/_GameAssets/_Scripts/MazeScript.cs:247-281 | The first `neighbourCount` slots of the 3-slot array are exactly the eligible rooms in order, and `neighbourCount <= 3`. |
| Maze.BlockAndRetreat | Assets/_GameAssets/_Scripts/MazeScript.cs:213-215 | Only the current node changes: it becomes blocked. The walk moves to the room in its `passPosHalf`. The grid agrees with the popped trace. |
| Maze.EnterNode | Assets/_GameAssets/_Scripts/MazeScript.cs:219-222 | Only the chosen room node changes: `passPosHalf` becomes the current room, and it becomes walked and open. |
| Maze.OpenConnector | Assets/_GameAssets/_Scripts/MazeScript.cs:224-235 | `sign` moves the current room onto the chosen one. Exactly the connector node between them stops being a wall, and nothing else changes. |
| Maze.Backtrack | Assets/_GameAssets/_Scripts/MazeScript.cs:211-216 | The backtrack branch keeps the loop invariant and `walkedCount`, and keeps `nodeSet == 2 * currentPosHalf`. |
| Maze.Forward | Assets/_GameAssets/_Scripts/MazeScript.cs:218-240 | The forward branch pushes the entered room, keeps the invariant with `walkedCount + 1`, and keeps `nodeSet == 2 * currentPosHalf`. |
| Maze.TakeStep | Assets/_GameAssets/_Scripts/MazeScript.cs:211-240 | With `Random.Range` as any index below `neighbourCount`, one step either pops the trace with the count unchanged or pushes it with the count plus one, keeping the invariant. |
| Maze.CarveStep | Assets/_GameAssets/_Scripts/MazeScript.cs:208-241 | One iteration of the carve loop keeps the invariant, and the loop measure decreases. |
| Maze.CarveGrid | Assets/_GameAssets/_Scripts/MazeScript.cs:197-241 | From an all-wall grid, the carve terminates in a perfect maze. Positions and every field the search uses are untouched. |
| Maze.NextSelection | Assets/_GameAssets/_Scripts/MazeScript.cs:138-157 | After a click a start always exists, and the clicked node is the start or the target. A ready selection is replaced by the clicked start alone. Otherwise the click sets the start if there is none, else the target. |
| Maze.SelectionCycle | Assets/_GameAssets/_Scripts/MazeScript.cs:138-157 | On a generated maze, three clicks `a, b, c` give start `a`, then start `a` with target `b`, then start `c` with no target. |
| Maze.Ready | Assets/_GameAssets/_Scripts/MazeScript.cs:14 | `CanPathFinding` holds exactly when a maze exists and both a start and a target are selected. |
| Maze.StoredSizeAsWritten | Assets/_GameAssets/_Scripts/MazeScript.cs:90-104 | `_size` as the code leaves it: the normalised size when accepted, the rejected request itself otherwise. |
| Maze.RejectedSizeOutgrowsGrid | Assets/_GameAssets/_Scripts/MazeScript.cs:90-97 | On a 5x5 maze, the rejected request 4x9 leaves `_size` at 4x9. `GetNode((0, 8))` then passes the bounds check although the grid is 5x5; the source then indexes the array out of range. |
| Maze.MazeScript.constructor | Assets/_GameAssets/_Scripts/MazeScript.cs:50-55 | No grid, no selection, no maze, and a fresh `AStar` component. |
| Maze.MazeScript.CreateGrid | Assets/_GameAssets/_Scripts/MazeScript.cs:163-194 | A fresh `sizeXY` arena whose node `(x, y)` has position `(x, y)` and is a wall, unvisited, uncalculated and unwalked. The other fields are unchanged. |
| Maze.MazeScript.GenerateContentMap | Assets/_GameAssets/_Scripts/MazeScript.cs:197-245 | Carves the grid into a perfect maze and sets `_isMazeGenerated`. No visited flag or cost changes. |
| Maze.MazeScript.CreateMap | Assets/_GameAssets/_Scripts/MazeScript.cs:86-120 | An empty field or a dimension below 5 changes nothing. Otherwise the size becomes the normalised size and a freshly built grid of new nodes is carved into a perfect maze with no node visited. The selection is kept and the class invariant holds. |
| Maze.MazeScript.OnNodeSelected | Assets/_GameAssets/_Scripts/MazeScript.cs:138-157 | The selection moves as `NextSelection` says, with `CanPathFinding` taken before the click. Nothing else changes. |
| Maze.MazeScript.OnSelected | Assets/_GameAssets/_Scripts/Node.cs:75-80 | A click on a wall changes nothing; any other node goes to `OnNodeSelected`. Selections that are not walls stay so: a wall never becomes the start or the target. |
| Maze.MazeScript.CanPathFinding | Assets/_GameAssets/_Scripts/MazeScript.cs:14 | The property on the component's fields: `Ready` of `isMazeGenerated` and the current selection. |
| Maze.MazeScript.PathFinding | Assets/_GameAssets/_Scripts/MazeScript.cs:122-132 | Without `CanPathFinding` nothing changes and the result is empty. Otherwise the search runs from the selected start to the target, with its guarantees. Walls, positions, walk flags and entry links are kept, no visited flag is cleared, and a perfect maze stays perfect. |
| Search.GetNeighbours | Assets/_GameAssets/_Scripts/AStar.cs:72-80 | Four lookups. A node appears among them exactly when it is in the grid and 4-adjacent to the given one. |
| Search.FreshAmong | Assets/_GameAssets/_Scripts/AStar.cs:60-65 | The lookups that found a node that is neither a wall nor visited, in order. A node is among them exactly when some lookup found it and it is neither a wall nor visited. |
| Search.Discovered | Assets/_GameAssets/_Scripts/AStar.cs:60-80 | The entries one expansion appends are exactly the in-grid 4-neighbours that are neither walls nor visited. |
| Search.PickedIsFresh | Assets/_GameAssets/_Scripts/AStar.cs:60-65 | The lookups the expansion loop keeps, judged one by one, are `FreshAmong`. |
| Search.LinkIfFresh | Assets/_GameAssets/_Scripts/AStar.cs:62-64 | A lookup that passes the test has its node's `PreviousNode` set to the current node and is reported for appending. Otherwise nothing changes. |
| Search.Expand | Assets/_GameAssets/_Scripts/AStar.cs:60-65 | The open list gains exactly `Discovered` at its end, in order. Exactly those nodes are linked back to the current one, and no other node changes. |
| Search.LinkEach | Assets/_GameAssets/_Scripts/AStar.cs:60-65 | The `foreach` loop appends and links exactly the kept lookups, in order. |
| Search.SelectCurrent | Assets/_GameAssets/_Scripts/AStar.cs:33-45 | The chosen index is a candidate whose `(FCost, HCost)` no candidate beats, and it beats every earlier candidate (ties keep the earliest). The grid is unchanged. |
| Search.Key | Assets/_GameAssets/_Scripts/AStar.cs:37-43 | The key compared by the scan is the pair `(FCost, HCost)` of the entry's node. |
| Search.Better | Assets/_GameAssets/_Scripts/AStar.cs:37-43 | Strictly below in the order `FCost` first, then `HCost`, as the scan compares a node with the current choice. |
| Search.Candidate | Assets/_GameAssets/_Scripts/AStar.cs:37-43 | Entry 0 always takes part in the scan; a later entry only when its node is neither a wall nor visited. |
| Search.ScanChoice | Assets/_GameAssets/_Scripts/AStar.cs:37-43 | The chosen index is a candidate no candidate beats and beats every earlier candidate, so ties keep the earliest. |
| Search.ScanKeepsFirst | Assets/_GameAssets/_Scripts/AStar.cs:34-45 | With all costs 0 the scan chooses index 0, so the open list is served first in, first out. |
| Search.RemoveAt | Assets/_GameAssets/_Scripts/AStar.cs:46 | `RemoveAt(k)` drops entry `k` and keeps the others in order. |
| Search.CountInAppend | Assets/_GameAssets/_Scripts/AStar.cs:64 | Appending entries adds their visited count to the open list's. |
| Search.CountInRemoveAt | Assets/_GameAssets/_Scripts/AStar.cs:46 | Removing an entry whose node is visited lowers the open list's visited count by one. |
| Search.PathStaysInRegion | Assets/_GameAssets/_Scripts/AStar.cs:60-65 | A valid path never leaves a region that holds the start and is closed under walkable steps. |
| Search.SeparatedHasNoPath | Assets/_GameAssets/_Scripts/AStar.cs:68 | When a region separates start and target, no valid path exists, so an empty result is correct. |
| Search.Reversed | Assets/_GameAssets/_Scripts/AStar.cs:56 | `path.Reverse()`: same length, element `i` is element `n-1-i`. |
| Search.ReversedChainIsPath | Assets/_GameAssets/_Scripts/AStar.cs:50-56 | A back-pointer chain from the target to the start, reversed, is a valid path. |
| Search.Reconstruct | Assets/_GameAssets/_Scripts/AStar.cs:48-57 | The loop following `PreviousNode` terminates. The result is empty exactly when the target is the start, and otherwise a valid path. |
| Search.MarkVisited | Assets/_GameAssets/_Scripts/AStar.cs:47 | Only `IsVisited` of the chosen node changes. The visited set grows by it, and the links and the frontier are kept. |
| Search.RemoveAtKeeps | Assets/_GameAssets/_Scripts/AStar.cs:46 | Every entry but the removed one stays in the open list. |
| Search.LinksAfterVisit | Assets/_GameAssets/_Scripts/AStar.cs:47-63 | Visiting a linked node records it at a later step than the node its back-pointer names. |
| Search.FrontierAfterRemove | Assets/_GameAssets/_Scripts/AStar.cs:46-47 | After the removal every walkable neighbour of a visited node, except the one just removed, is visited or still open. |
| Search.VisitStep | Assets/_GameAssets/_Scripts/AStar.cs:33-47 | The chosen entry is removed and its node marked visited; no other node changes and walls are kept. Either one more node is visited, or the number of open entries whose node is already visited goes down. |
| Search.Relinked | Assets/_GameAssets/_Scripts/AStar.cs:60-65 | The effect of `SetPreviousNode(current)` on each newly added node: its back-pointer becomes `current`; every other field and node is kept. |
| Search.ExpandStep | Assets/_GameAssets/_Scripts/AStar.cs:60-65 | The open list grows only at its end, by unvisited nodes. The search invariant holds again, walls and costs are kept, and no visited flag is cleared. |
| Search.SearchStep | Assets/_GameAssets/_Scripts/AStar.cs:32-66 | One iteration: either it ends with the empty list for `start == target` or a valid path, or the invariant holds and the termination measure decreases. |
| Search.AStar.constructor | Assets/_GameAssets/_Scripts/AStar.cs:17-20 | `Awake`: the open list is empty. |
| Search.AStar.PathFinding | Assets/_GameAssets/_Scripts/AStar.cs:24-69 | The search terminates on a grid with no visited node and no computed cost. It returns the empty list when start equals target, and a valid path when non-empty. An empty result for distinct nodes comes with a region separating them. Walls, positions and costs are kept, and no visited flag is cleared. |
| Search.GridBoundsVisited | Assets/_GameAssets/_Scripts/AStar.cs:32-47 | The visited nodes number at most `w * h`, which bounds the loop. |

## Left out

- Unity lifecycle and wiring are not modelled: `OnValidate`, `OnEnable`/`OnDisable`, `Start`, and the `EventManager` events, including `resetState`. Clicks are direct calls to `OnSelected`. `EventManager` is not part of this model.
- UI input is not modelled. `CreateMap` receives the two size fields as optional integers, with `None` for an empty field. `int.Parse` failing on other text is not modelled.
- Layout sizing, object pooling, `Instantiate`, `SetActive`/`SetParent` and `await Task.Yield()` are not modelled. `CreateGrid` allocates a new arena of fresh nodes instead of reusing pooled ones.
- Colours (`IsNPC`, `IsTarget`, `IsPath`, `ResetColor`, the colour of `SetWall` and `OnSelected`) and `Debug.LogError` are output only.
- `Random.Range(0, neighbourCount)` is any index in `[0, neighbourCount)`, chosen nondeterministically.
- `Mathf.CeilToInt(x / 2f)` is the integer `(x + 1) / 2` for the non-negative sizes used.
- Regeneration and repeated searches are not modelled:
  - `Init` does not reset the walk flags, `passPosHalf` or `PreviousNode` of a reused node.
  - `PathFinding` does not clear `IsVisited`.
  - A second `CreateMap` of the same odd size takes the nodes back from the pool in last-in, first-out order (MazeScript.cs:108-114 and 178-185), so every room position gets a node that was a room before and is still marked walked. `LoadNeighbours_L` then finds no neighbour, `walkedCount` stays at 1, and the loop at MazeScript.cs:208-216 follows the stale `passPosHalf` links forever. `Maze.CarveGrid` requires an unwalked grid, so its termination proof does not cover a rebuild. The evident intent is that `Init` also resets the generation fields.
  - One build from fresh nodes and one search on an unvisited grid are modelled. `Search.AStar.PathFinding` and `Maze.MazeScript.PathFinding` therefore require that no node is visited.
- Maze.MazeScript.CreateMap: keeps the selected positions. In the source they are references to node objects that may be pooled and re-initialised elsewhere. `Maze.MazeScript.PathFinding` therefore requires the selected positions to lie in the current grid.
- Search.AStar.PathFinding: does not claim the returned path is shortest. The scan is first in, first out, and `PreviousNode` can be overwritten before a node is visited, so only validity and completeness are proved.
- Search.ExpandStep: states only that the open list grows at its end by unvisited nodes. `Search.Expand`, which it calls, states exactly which nodes.
- Maze.LoadNeighbours: requires at most three eligible rooms, which is the 3-slot array bound. `Maze.AtMostThreeOnWalk` proves this always holds during the carve.

## Findings

| source | as written | input that shows it | evidently intended | confidence | as-written member | corrected member |
|---|---|---|---|---|---|---|
| Assets/_GameAssets/_Scripts/MazeScript.cs:90-97 | `_size` is assigned from the input fields before the minimum-size check, so a rejected request stays in `_size` while the grid keeps its old dimensions | a 5x5 maze, then a request of 4 by 9: `_size` becomes (4, 9), and `GetNode((0, 8))` passes the bounds check on a 5x5 array | a rejected size leaves the component unchanged | not executed | Maze.StoredSizeAsWritten, Maze.RejectedSizeOutgrowsGrid | Maze.NormalisedSize, Maze.MazeScript.CreateMap |
