/**
 * MazeScript.cs: the size check and grid construction of `CreateMap`, the
 * half-lattice randomized depth-first carve of `GenerateContentMap`, and the
 * start/target selection driven by clicks on nodes.
 *
 * Rooms are the nodes at even-even coordinates; room `(i, j)` of the half
 * lattice is node `(2i, 2j)`. A node with exactly one odd coordinate is a
 * connector between the two rooms on either side of it; a node with two odd
 * coordinates is a pillar that always stays a wall.
 */
module Maze {
  import opened Options
  import opened Geometry
  import opened Nodes
  import opened Carve
  import Search

  /** `n` raised to the nearest odd value: the least odd number that is at least `n`. */
  predicate IsOddCeiling(n: int, m: int) { m % 2 == 1 && n <= m <= n + 1 }

  /**
   * The size check of `CreateMap`: a request below 5 on either axis is
   * rejected; otherwise each even dimension is increased by one.
   */
  function NormalisedSize(requested: Pos): (r: Option<Pos>)
    ensures r.None? <==> requested.0 < 5 || requested.1 < 5
    ensures r.Some? ==> IsOddCeiling(requested.0, r.value.0) && IsOddCeiling(requested.1, r.value.1)
    ensures r.Some? ==> r.value.0 >= 5 && r.value.1 >= 5
  {
    if requested.0 < 5 || requested.1 < 5 then None
    else Some((if requested.0 % 2 == 0 then requested.0 + 1 else requested.0,
               if requested.1 % 2 == 0 then requested.1 + 1 else requested.1))
  }

  /** `GetNodeWithHalfPos(pos)`: the room of half-lattice position `pos`, `GetNode(pos * 2)`. */
  function GetNodeWithHalfPos(pos: Pos, size: (nat, nat)): (r: Option<Pos>)
    ensures r.Some? <==> InBounds(pos, RoomsAlong(size.0), RoomsAlong(size.1))
    ensures r.Some? ==> r.value == Twice(pos)
  {
    GetNode(Twice(pos), size)
  }

  /** `ValidateNeighbour(node)`: the node exists and is neither walked nor blocked. */
  function ValidateNeighbour(nodes: array2<Cell>, node: Option<Pos>): (ok: bool)
    reads nodes
    requires node.Some? ==> InGrid(nodes, node.value)
    ensures ok <==> node.Some? && !nodes[node.value.0, node.value.1].isWalked && !nodes[node.value.0, node.value.1].isBlocked
  {
    if node.None? || nodes[node.value.0, node.value.1].isWalked || nodes[node.value.0, node.value.1].isBlocked then false
    else true
  }

  /** What one `if (ValidateNeighbour(node))` of `LoadNeighbours_L` adds for the room at `posHalf`. */
  function HalfLookup(nodes: array2<Cell>, size: (nat, nat), posHalf: Pos): (r: seq<Pos>)
    reads nodes
    requires SizeOf(nodes, size)
    ensures |r| <= 1
    ensures forall q :: q in r ==>
      q == Twice(posHalf) && q == Twice((q.0 / 2, q.1 / 2)) && posHalf == (q.0 / 2, q.1 / 2) &&
      InGrid(nodes, q) && !nodes[q.0, q.1].isWalked && !nodes[q.0, q.1].isBlocked
  {
    var node := GetNodeWithHalfPos(posHalf, size);
    if ValidateNeighbour(nodes, node) then [node.value] else []
  }

  /**
   * The nodes `LoadNeighbours_L(posHalf)` stores, in order: the rooms left,
   * right, up and down of `posHalf` that pass `ValidateNeighbour`.
   */
  function EligibleNeighbours(nodes: array2<Cell>, size: (nat, nat), posHalf: Pos): (r: seq<Pos>)
    reads nodes
    requires SizeOf(nodes, size)
    ensures |r| <= 4
    ensures forall q :: q in r ==>
      q == Twice((q.0 / 2, q.1 / 2)) && Adjacent(posHalf, (q.0 / 2, q.1 / 2)) &&
      InGrid(nodes, q) && !nodes[q.0, q.1].isWalked && !nodes[q.0, q.1].isBlocked
  {
    var l, r, u, d := HalfLookup(nodes, size, Add(posHalf, Left)), HalfLookup(nodes, size, Add(posHalf, Right)),
                      HalfLookup(nodes, size, Add(posHalf, Up)), HalfLookup(nodes, size, Add(posHalf, Down));
    assert forall q :: q in l + r + u + d ==> q in l || q in r || q in u || q in d;
    l + r + u + d
  }

  /** Every in-bounds room next to `posHalf` that is neither walked nor blocked is found. */
  lemma EligibleComplete(nodes: array2<Cell>, size: (nat, nat), posHalf: Pos, h: Pos)
    requires SizeOf(nodes, size)
    requires Adjacent(posHalf, h) && RoomIn(nodes, h)
    requires !RoomAt(nodes, h).isWalked && !RoomAt(nodes, h).isBlocked
    ensures Twice(h) in EligibleNeighbours(nodes, size, posHalf)
  {
    AdjacentIsDirection(posHalf, h);
  }

  /** When nothing is found, every in-bounds room next to `posHalf` is walked or blocked. */
  lemma SurroundedWhenNoneEligible(nodes: array2<Cell>, size: (nat, nat), posHalf: Pos, h: Pos)
    requires SizeOf(nodes, size)
    requires EligibleNeighbours(nodes, size, posHalf) == []
    requires Adjacent(posHalf, h) && RoomIn(nodes, h)
    ensures RoomAt(nodes, h).isWalked || RoomAt(nodes, h).isBlocked
  {
    AdjacentIsDirection(posHalf, h);
  }

  /**
   * The 3-slot `neighbours` array suffices whenever one of the four lattice
   * neighbours is outside the grid or already walked: the origin has no left
   * neighbour, and every other room on the walk was entered from a walked one.
   */
  lemma EligibleAtMostThree(nodes: array2<Cell>, size: (nat, nat), posHalf: Pos, h: Pos)
    requires SizeOf(nodes, size)
    requires Adjacent(posHalf, h)
    requires !RoomIn(nodes, h) || RoomAt(nodes, h).isWalked
    ensures |EligibleNeighbours(nodes, size, posHalf)| <= 3
  {
    AdjacentIsDirection(posHalf, h);
  }

  /** The node fields the search owns; the generator leaves them alone. */
  function SearchView(c: Cell): (Pos, bool, int, int, bool, Option<Pos>) {
    (c.position, c.isVisited, c.gCost, c.hCost, c.isCalculated, c.previousNode)
  }

  /** The node `CreateGrid` stores at `(x, y)`: `Init((x, y), true)` on a node never used before. */
  function InitialCell(x: int, y: int): Cell {
    FreshCell.(position := (x, y), isWall := true)
  }

  /** A fresh grid for the carve: every node a wall, no room walked or blocked. */
  ghost predicate AllWallsUnwalked(nodes: array2<Cell>)
    reads nodes
  {
    forall x, y {:trigger nodes[x, y]} :: 0 <= x < nodes.Length0 && 0 <= y < nodes.Length1 ==>
      nodes[x, y].isWall && !nodes[x, y].isWalked && !nodes[x, y].isBlocked
  }

  /**
   * On a grid that agrees with the carve trace, every node `LoadNeighbours_L`
   * finds around a room is the node of an unwalked room of the grid next to it.
   */
  lemma EligibleAreUnwalked(nodes: array2<Cell>, size: (nat, nat), t: CarveTrace, cur: Pos)
    requires SizeOf(nodes, size) && NodesMatch(nodes, t)
    ensures forall q :: q in EligibleNeighbours(nodes, size, cur) ==>
      q == Twice(Half(q)) && RoomOf(size, Half(q)) && Adjacent(cur, Half(q)) && Half(q) !in t.walked
  {
    forall q | q in EligibleNeighbours(nodes, size, cur)
      ensures q == Twice(Half(q)) && RoomOf(size, Half(q)) && Adjacent(cur, Half(q)) && Half(q) !in t.walked
    {
      MatchedRoom(nodes, t, Half(q));
    }
  }

  /** Conversely, it finds the node of every unwalked room of the grid next to the room. */
  lemma UnwalkedAreEligible(nodes: array2<Cell>, size: (nat, nat), t: CarveTrace, cur: Pos)
    requires SizeOf(nodes, size) && NodesMatch(nodes, t) && t.blocked <= t.walked
    ensures forall h :: RoomOf(size, h) && Adjacent(cur, h) && h !in t.walked ==> Twice(h) in EligibleNeighbours(nodes, size, cur)
  {
    forall h | RoomOf(size, h) && Adjacent(cur, h) && h !in t.walked ensures Twice(h) in EligibleNeighbours(nodes, size, cur) {
      MatchedRoom(nodes, t, h);
      EligibleComplete(nodes, size, cur, h);
    }
  }

  /** When `LoadNeighbours_L` finds nothing, every room of the grid next to the current one has been walked. */
  lemma NoneEligibleAllWalked(nodes: array2<Cell>, size: (nat, nat), t: CarveTrace, cur: Pos)
    requires SizeOf(nodes, size) && NodesMatch(nodes, t) && t.blocked <= t.walked
    requires EligibleNeighbours(nodes, size, cur) == []
    ensures Enclosed(t.walked, size, cur)
  {
    forall q | RoomOf(size, q) && Adjacent(cur, q) ensures q in t.walked {
      SurroundedWhenNoneEligible(nodes, size, cur, q);
      MatchedRoom(nodes, t, q);
    }
  }

  /** Around the current room of the walk, `LoadNeighbours_L` never finds more than three rooms. */
  lemma AtMostThreeOnWalk(nodes: array2<Cell>, size: (nat, nat), t: CarveTrace, count: nat)
    requires SizeOf(nodes, size) && TraceOk(t, size, count) && NodesMatch(nodes, t)
    ensures |EligibleNeighbours(nodes, size, Top(t))| <= 3
  {
    var h := WalkedNeighbourOfTop(t, size, count);
    if RoomIn(nodes, h) {
      MatchedRoom(nodes, t, h);
    }
    EligibleAtMostThree(nodes, size, Top(t), h);
  }

  /**
   * On a grid that agrees with the trace, when `LoadNeighbours_L` finds no
   * room the backtrack step keeps the invariant and leads to a room of the
   * grid, the one the current room was entered from.
   */
  lemma BacktrackOnGrid(nodes: array2<Cell>, size: (nat, nat), t: CarveTrace, count: nat)
    requires SizeOf(nodes, size) && TraceOk(t, size, count) && NodesMatch(nodes, t)
    requires count < TotalRooms(size) && EligibleNeighbours(nodes, size, Top(t)) == []
    ensures |t.stack| > 1 && RoomOf(size, Top(t)) && Top(t) in t.parent
    ensures Top(Popped(t)) == t.parent[Top(t)] && RoomOf(size, Top(Popped(t)))
    ensures TraceOk(Popped(t), size, count)
  {
    TopIsOpen(t, size, count);
    NoneEligibleAllWalked(nodes, size, t, Top(t));
    BacktrackTrace(t, size, count);
    TopIsOpen(Popped(t), size, count);
  }

  /**
   * On a grid that agrees with the trace, each node `LoadNeighbours_L`
   * finds is the node of an unwalked room next to the current one, and the
   * forward step into it keeps the invariant.
   */
  lemma ForwardOnGrid(nodes: array2<Cell>, size: (nat, nat), t: CarveTrace, count: nat, nodeToWalk: Pos)
    requires SizeOf(nodes, size) && TraceOk(t, size, count) && NodesMatch(nodes, t)
    requires nodeToWalk in EligibleNeighbours(nodes, size, Top(t))
    ensures |t.stack| >= 1 && RoomOf(size, Top(t)) && t.blocked <= t.walked
    ensures nodeToWalk == Twice(Half(nodeToWalk)) && RoomOf(size, Half(nodeToWalk)) && Adjacent(Top(t), Half(nodeToWalk))
    ensures Half(nodeToWalk) !in t.walked
    ensures TraceOk(Pushed(t, Half(nodeToWalk), count), size, count + 1)
  {
    TopIsOpen(t, size, count);
    EligibleAreUnwalked(nodes, size, t, Top(t));
    ForwardTrace(t, size, count, Half(nodeToWalk));
  }

  /**
   * The `sign` of `GenerateContentMap`: the unit step from the position of
   * the current node towards the position of the node walked to.
   */
  function StepSign(setPos: Pos, walkPos: Pos): (sign: Pos)
    ensures sign in Directions
    ensures walkPos.0 != setPos.0 ==> sign.1 == 0 && (sign.0 < 0 <==> walkPos.0 < setPos.0)
    ensures walkPos.0 == setPos.0 ==> sign.0 == 0 && (sign.1 < 0 <==> walkPos.1 < setPos.1)
  {
    if walkPos.0 != setPos.0 then (if setPos.0 > walkPos.0 then Left else Right)
    else (if setPos.1 > walkPos.1 then Down else Up)
  }

  /**
   * Between the nodes of adjacent rooms `a` and `b`, the step leads from
   * room `a` to room `b` on the half lattice, and from the node of `a` to
   * the connector between them on the grid.
   */
  lemma StepSignMoves(a: Pos, b: Pos)
    requires Adjacent(a, b)
    ensures Add(a, StepSign(Twice(a), Twice(b))) == b
    ensures Add(Twice(a), StepSign(Twice(a), Twice(b))) == Add(a, b)
  {
    AdjacentIsDirection(a, b);
  }
  /**
   * One `node = GetNodeWithHalfPos(posHalf); if (ValidateNeighbour(node)) { neighbours[neighbourCount] = node; neighbourCount++; }`
   * step of `LoadNeighbours_L`; `found` is what the earlier steps stored.
   */
  method StoreIfValid(nodes: array2<Cell>, size: (nat, nat), neighbours: array<Pos>, neighbourCount: nat, posHalf: Pos, ghost found: seq<Pos>)
    returns (count: nat)
    requires SizeOf(nodes, size)
    requires neighbourCount <= neighbours.Length && neighbours[..neighbourCount] == found
    requires neighbourCount + |HalfLookup(nodes, size, posHalf)| <= neighbours.Length
    modifies neighbours
    ensures count == neighbourCount + |HalfLookup(nodes, size, posHalf)|
    ensures neighbours[..count] == found + HalfLookup(nodes, size, posHalf)
  {
    count := neighbourCount;
    var node := GetNodeWithHalfPos(posHalf, size);
    if ValidateNeighbour(nodes, node) {
      neighbours[count] := node.value;
      count := count + 1;
    }
  }

  /**
   * `LoadNeighbours_L(posHalf)`: fills the first slots of `neighbours` with
   * the eligible rooms around `posHalf` and returns how many there are.
   * The caller guarantees that at most three exist (see `EligibleAtMostThree`).
   */
  method LoadNeighbours(nodes: array2<Cell>, size: (nat, nat), neighbours: array<Pos>, posHalf: Pos) returns (neighbourCount: nat)
    requires SizeOf(nodes, size) && neighbours.Length == 3
    requires |EligibleNeighbours(nodes, size, posHalf)| <= 3
    modifies neighbours
    ensures neighbourCount <= 3
    ensures neighbours[..neighbourCount] == EligibleNeighbours(nodes, size, posHalf)
  {
    ghost var l, r, u, d := HalfLookup(nodes, size, Add(posHalf, Left)), HalfLookup(nodes, size, Add(posHalf, Right)),
                            HalfLookup(nodes, size, Add(posHalf, Up)), HalfLookup(nodes, size, Add(posHalf, Down));
    assert EligibleNeighbours(nodes, size, posHalf) == l + r + u + d;
    neighbourCount := 0;
    neighbourCount := StoreIfValid(nodes, size, neighbours, neighbourCount, Add(posHalf, Left), []);
    neighbourCount := StoreIfValid(nodes, size, neighbours, neighbourCount, Add(posHalf, Right), l);
    neighbourCount := StoreIfValid(nodes, size, neighbours, neighbourCount, Add(posHalf, Up), l + r);
    neighbourCount := StoreIfValid(nodes, size, neighbours, neighbourCount, Add(posHalf, Down), l + r + u);
  }


  /**
   * The node updates of the backtrack branch of the carve loop: the
   * current node is blocked and the walk moves to the room recorded in its
   * `PassPosHalf`, which is the room below it on the path. The grid then
   * agrees with the popped trace.
   */
  method BlockAndRetreat(nodes: array2<Cell>, size: (nat, nat), nodeSet: Pos, ghost t: CarveTrace) returns (currentPosHalf: Pos, nodeSet': Pos)
    requires SizeOf(nodes, size) && PositionsIndexed(nodes) && NodesMatch(nodes, t)
    requires |t.stack| > 1 && RoomOf(size, Top(t)) && nodeSet == Twice(Top(t))
    requires Top(t) in t.parent && Top(Popped(t)) == t.parent[Top(t)] && RoomOf(size, Top(Popped(t)))
    modifies nodes
    ensures InGrid(nodes, nodeSet) && nodes[nodeSet.0, nodeSet.1] == old(nodes[nodeSet.0, nodeSet.1]).(isBlocked := true)
    ensures forall x, y {:trigger nodes[x, y]} :: 0 <= x < nodes.Length0 && 0 <= y < nodes.Length1 && (x, y) != nodeSet ==> nodes[x, y] == old(nodes[x, y])
    ensures PositionsIndexed(nodes)
    ensures forall x, y {:trigger nodes[x, y]} :: 0 <= x < nodes.Length0 && 0 <= y < nodes.Length1 ==> SearchView(nodes[x, y]) == SearchView(old(nodes[x, y]))
    ensures NodesMatch(nodes, Popped(t))
    ensures currentPosHalf == Top(Popped(t)) && nodeSet' == Twice(currentPosHalf)
  {
    MatchedRoom(nodes, t, Top(t));
    nodes[nodeSet.0, nodeSet.1] := nodes[nodeSet.0, nodeSet.1].(isBlocked := true);
    currentPosHalf := nodes[nodeSet.0, nodeSet.1].passPosHalf;
    var node := GetNodeWithHalfPos(currentPosHalf, size);
    nodeSet' := node.value;
    forall x, y {:trigger nodes[x, y]} | 0 <= x < nodes.Length0 && 0 <= y < nodes.Length1 ensures CellMatches(nodes[x, y], Popped(t), (x, y)) {
      assert CellMatches(old(nodes[x, y]), t, (x, y));
      if (x, y) == nodeSet {
        MatchBlockedRoom(old(nodes[x, y]), t);
      } else {
        MatchAfterBacktrack(old(nodes[x, y]), t, (x, y));
      }
    }
  }

  /**
   * The first half of the forward branch of the carve loop: the chosen
   * room node records the current room in `PassPosHalf`, is walked and
   * stops being a wall. The grid then agrees with the trace in which the
   * room is entered.
   */
  method EnterNode(nodes: array2<Cell>, size: (nat, nat), currentPosHalf: Pos, nodeToWalk: Pos, ghost t: CarveTrace, ghost count: nat)
    requires SizeOf(nodes, size) && PositionsIndexed(nodes) && NodesMatch(nodes, t) && t.blocked <= t.walked
    requires |t.stack| >= 1 && currentPosHalf == Top(t)
    requires nodeToWalk == Twice(Half(nodeToWalk)) && RoomOf(size, Half(nodeToWalk))
    modifies nodes
    ensures nodes[nodeToWalk.0, nodeToWalk.1] == old(nodes[nodeToWalk.0, nodeToWalk.1]).(passPosHalf := currentPosHalf, isWalked := true, isWall := false)
    ensures forall x, y {:trigger nodes[x, y]} :: 0 <= x < nodes.Length0 && 0 <= y < nodes.Length1 && (x, y) != nodeToWalk ==> nodes[x, y] == old(nodes[x, y])
    ensures PositionsIndexed(nodes)
    ensures forall x, y {:trigger nodes[x, y]} :: 0 <= x < nodes.Length0 && 0 <= y < nodes.Length1 ==> SearchView(nodes[x, y]) == SearchView(old(nodes[x, y]))
    ensures NodesMatch(nodes, Entered(t, Half(nodeToWalk), count))
  {
    nodes[nodeToWalk.0, nodeToWalk.1] := nodes[nodeToWalk.0, nodeToWalk.1].(passPosHalf := currentPosHalf, isWalked := true);
    SetWall(nodes, nodeToWalk, false);
    forall x, y {:trigger nodes[x, y]} | 0 <= x < nodes.Length0 && 0 <= y < nodes.Length1
      ensures CellMatches(nodes[x, y], Entered(t, Half(nodeToWalk), count), (x, y))
    {
      assert CellMatches(old(nodes[x, y]), t, (x, y));
      if (x, y) == nodeToWalk {
        MatchEnteredRoom(old(nodes[x, y]), t, Half(nodeToWalk), count);
      } else {
        MatchAfterEnter(old(nodes[x, y]), t, (x, y), Half(nodeToWalk), count);
      }
    }
  }

  /**
   * The second half of the forward branch: the unit `sign` from the
   * current node towards the entered one, and the node at the current
   * node's position plus `sign`, which stops being a wall. That is the
   * connector between the two rooms; the grid then agrees with the trace
   * in which it is opened.
   */
  method OpenConnector(nodes: array2<Cell>, size: (nat, nat), currentPosHalf: Pos, nodeSet: Pos, nodeToWalk: Pos, ghost t: CarveTrace) returns (sign: Pos)
    requires SizeOf(nodes, size) && PositionsIndexed(nodes) && NodesMatch(nodes, t)
    requires nodeSet == Twice(currentPosHalf) && RoomOf(size, currentPosHalf)
    requires nodeToWalk == Twice(Half(nodeToWalk)) && RoomOf(size, Half(nodeToWalk)) && Adjacent(currentPosHalf, Half(nodeToWalk))
    modifies nodes
    ensures Add(currentPosHalf, sign) == Half(nodeToWalk)
    ensures var mid := Add(currentPosHalf, Half(nodeToWalk));
      InGrid(nodes, mid) && nodes[mid.0, mid.1] == old(nodes[mid.0, mid.1]).(isWall := false) &&
      forall x, y {:trigger nodes[x, y]} :: 0 <= x < nodes.Length0 && 0 <= y < nodes.Length1 && (x, y) != mid ==> nodes[x, y] == old(nodes[x, y])
    ensures PositionsIndexed(nodes)
    ensures forall x, y {:trigger nodes[x, y]} :: 0 <= x < nodes.Length0 && 0 <= y < nodes.Length1 ==> SearchView(nodes[x, y]) == SearchView(old(nodes[x, y]))
    ensures NodesMatch(nodes, Opened(t, Add(currentPosHalf, Half(nodeToWalk))))
  {
    ghost var next := Half(nodeToWalk);
    ghost var mid := Add(currentPosHalf, next);
    ConnectorInGrid(currentPosHalf, next, size);
    ConnectorIsNotRoom(currentPosHalf, next);
    StepSignMoves(currentPosHalf, next);
    assert nodes[nodeSet.0, nodeSet.1].position == nodeSet && nodes[nodeToWalk.0, nodeToWalk.1].position == nodeToWalk;
    sign := StepSign(nodes[nodeSet.0, nodeSet.1].position, nodes[nodeToWalk.0, nodeToWalk.1].position);
    var nodeMid := GetNode(Add(nodes[nodeSet.0, nodeSet.1].position, sign), size);
    SetWall(nodes, nodeMid.value, false);
    forall x, y {:trigger nodes[x, y]} | 0 <= x < nodes.Length0 && 0 <= y < nodes.Length1
      ensures CellMatches(nodes[x, y], Opened(t, mid), (x, y))
    {
      assert CellMatches(old(nodes[x, y]), t, (x, y));
      if (x, y) == mid {
        MatchOpenedConnector(old(nodes[x, y]), t, mid);
      } else {
        MatchAfterOpen(old(nodes[x, y]), t, (x, y), mid);
      }
    }
  }

  /**
   * The backtrack branch of the carve loop (`neighbourCount == 0`). While
   * rooms remain unwalked it never leaves the origin, and it keeps the
   * loop invariant for the popped trace.
   */
  method Backtrack(nodes: array2<Cell>, size: (nat, nat), nodeSet: Pos, ghost t: CarveTrace, ghost count: nat) returns (currentPosHalf: Pos, nodeSet': Pos, ghost t': CarveTrace)
    requires SizeOf(nodes, size) && PositionsIndexed(nodes) && TraceOk(t, size, count) && NodesMatch(nodes, t)
    requires count < TotalRooms(size) && nodeSet == Twice(Top(t)) && EligibleNeighbours(nodes, size, Top(t)) == []
    modifies nodes
    ensures t' == Popped(t) && TraceOk(t', size, count) && NodesMatch(nodes, t')
    ensures currentPosHalf == Top(t') && nodeSet' == Twice(currentPosHalf)
    ensures PositionsIndexed(nodes)
    ensures forall x, y {:trigger nodes[x, y]} :: 0 <= x < nodes.Length0 && 0 <= y < nodes.Length1 ==> SearchView(nodes[x, y]) == SearchView(old(nodes[x, y]))
  {
    BacktrackOnGrid(nodes, size, t, count);
    currentPosHalf, nodeSet' := BlockAndRetreat(nodes, size, nodeSet, t);
    t' := Popped(t);
  }

  /**
   * The forward branch of the carve loop: the walk enters a room that
   * `LoadNeighbours_L` found and opens the connector to it, keeping the
   * loop invariant for the pushed trace with one more room walked.
   */
  method Forward(nodes: array2<Cell>, size: (nat, nat), currentPosHalf: Pos, nodeSet: Pos, nodeToWalk: Pos, ghost t: CarveTrace, ghost count: nat)
    returns (currentPosHalf': Pos, nodeSet': Pos, ghost t': CarveTrace)
    requires SizeOf(nodes, size) && PositionsIndexed(nodes) && TraceOk(t, size, count) && NodesMatch(nodes, t)
    requires currentPosHalf == Top(t) && nodeSet == Twice(currentPosHalf)
    requires nodeToWalk in EligibleNeighbours(nodes, size, currentPosHalf)
    modifies nodes
    ensures t' == Pushed(t, Half(nodeToWalk), count) && TraceOk(t', size, count + 1) && NodesMatch(nodes, t')
    ensures currentPosHalf' == Top(t') && nodeSet' == Twice(currentPosHalf')
    ensures t'.stack == t.stack + [currentPosHalf']
    ensures PositionsIndexed(nodes)
    ensures forall x, y {:trigger nodes[x, y]} :: 0 <= x < nodes.Length0 && 0 <= y < nodes.Length1 ==> SearchView(nodes[x, y]) == SearchView(old(nodes[x, y]))
  {
    ForwardOnGrid(nodes, size, t, count, nodeToWalk);
    label BeforeStep:
    EnterNode(nodes, size, currentPosHalf, nodeToWalk, t, count);
    label Entered:
    var sign := OpenConnector(nodes, size, currentPosHalf, nodeSet, nodeToWalk, Entered(t, Half(nodeToWalk), count));
    forall x, y {:trigger nodes[x, y]} | 0 <= x < nodes.Length0 && 0 <= y < nodes.Length1
      ensures SearchView(nodes[x, y]) == SearchView(old(nodes[x, y]))
    {
      assert SearchView(nodes[x, y]) == SearchView(old@Entered(nodes[x, y])) == SearchView(old@BeforeStep(nodes[x, y]));
    }
    t' := Pushed(t, Half(nodeToWalk), count);
    nodeSet' := nodeToWalk;
    currentPosHalf' := Add(currentPosHalf, sign);
  }

  /**
   * The branch of one iteration of the carve loop, once `LoadNeighbours_L`
   * has stored the `neighbourCount` rooms it found: the backtrack branch
   * when it found nothing, otherwise the forward branch into one of them
   * chosen at random.
   */
  method TakeStep(nodes: array2<Cell>, size: (nat, nat), neighbours: array<Pos>, neighbourCount: nat,
                  currentPosHalf: Pos, nodeSet: Pos, ghost t: CarveTrace, walkedCount: nat)
    returns (currentPosHalf': Pos, nodeSet': Pos, ghost t': CarveTrace, walkedCount': nat)
    requires SizeOf(nodes, size) && PositionsIndexed(nodes) && neighbourCount <= neighbours.Length
    requires TraceOk(t, size, walkedCount) && NodesMatch(nodes, t) && walkedCount < TotalRooms(size)
    requires currentPosHalf == Top(t) && nodeSet == Twice(currentPosHalf)
    requires neighbours[..neighbourCount] == EligibleNeighbours(nodes, size, currentPosHalf)
    modifies nodes
    ensures TraceOk(t', size, walkedCount') && NodesMatch(nodes, t')
    ensures currentPosHalf' == Top(t') && nodeSet' == Twice(currentPosHalf')
    ensures (t' == Popped(t) && walkedCount' == walkedCount) ||
            (t'.stack == t.stack + [currentPosHalf'] && walkedCount' == walkedCount + 1)
    ensures PositionsIndexed(nodes)
    ensures forall x, y {:trigger nodes[x, y]} :: 0 <= x < nodes.Length0 && 0 <= y < nodes.Length1 ==> SearchView(nodes[x, y]) == SearchView(old(nodes[x, y]))
  {
    if neighbourCount == 0 {
      currentPosHalf', nodeSet', t' := Backtrack(nodes, size, nodeSet, t, walkedCount);
      walkedCount' := walkedCount;
      return;
    }
    var randomIndex :| 0 <= randomIndex < neighbourCount;
    var nodeToWalk := neighbours[randomIndex];
    assert nodeToWalk == neighbours[..neighbourCount][randomIndex];
    currentPosHalf', nodeSet', t' := Forward(nodes, size, currentPosHalf, nodeSet, nodeToWalk, t, walkedCount);
    walkedCount' := walkedCount + 1;
  }

  /**
   * One iteration of the carve loop: `LoadNeighbours_L` around the current
   * room, then the backtrack or the forward branch.
   */
  method CarveStep(nodes: array2<Cell>, size: (nat, nat), neighbours: array<Pos>, currentPosHalf: Pos, nodeSet: Pos,
                   ghost t: CarveTrace, walkedCount: nat)
    returns (currentPosHalf': Pos, nodeSet': Pos, ghost t': CarveTrace, walkedCount': nat)
    requires SizeOf(nodes, size) && PositionsIndexed(nodes) && neighbours.Length == 3
    requires TraceOk(t, size, walkedCount) && NodesMatch(nodes, t) && walkedCount < TotalRooms(size)
    requires currentPosHalf == Top(t) && nodeSet == Twice(currentPosHalf)
    modifies nodes, neighbours
    ensures TraceOk(t', size, walkedCount') && NodesMatch(nodes, t')
    ensures currentPosHalf' == Top(t') && nodeSet' == Twice(currentPosHalf')
    ensures (t' == Popped(t) && walkedCount' == walkedCount) ||
            (t'.stack == t.stack + [currentPosHalf'] && walkedCount' == walkedCount + 1)
    ensures PositionsIndexed(nodes)
    ensures forall x, y {:trigger nodes[x, y]} :: 0 <= x < nodes.Length0 && 0 <= y < nodes.Length1 ==> SearchView(nodes[x, y]) == SearchView(old(nodes[x, y]))
  {
    AtMostThreeOnWalk(nodes, size, t, walkedCount);
    var neighbourCount := LoadNeighbours(nodes, size, neighbours, currentPosHalf);
    assert forall x, y {:trigger nodes[x, y]} :: 0 <= x < nodes.Length0 && 0 <= y < nodes.Length1 ==> nodes[x, y] == old(nodes[x, y]);
    currentPosHalf', nodeSet', t', walkedCount' := TakeStep(nodes, size, neighbours, neighbourCount, currentPosHalf, nodeSet, t, walkedCount);
  }


  /**
   * The carve loop of `GenerateContentMap` on the arena `nodes` of a grid of
   * the given size. Starting from the origin room, it repeatedly loads the
   * unwalked rooms next to the current one; with none it blocks the
   * current room and returns to the room it was entered from, otherwise it
   * walks into one of them chosen at random and opens the connector
   * between them, until every room has been walked. The result is a
   * perfect maze; the fields the search uses are untouched. The returned
   * trace records how the walk went.
   */
  method CarveGrid(nodes: array2<Cell>, size: (nat, nat)) returns (ghost t: CarveTrace)
    requires SizeOf(nodes, size) && size.0 > 0 && size.1 > 0 && AllWallsUnwalked(nodes) && PositionsIndexed(nodes)
    modifies nodes
    ensures PerfectMaze(nodes)
    ensures PositionsIndexed(nodes)
    ensures forall x, y {:trigger nodes[x, y]} :: 0 <= x < nodes.Length0 && 0 <= y < nodes.Length1 ==> SearchView(nodes[x, y]) == SearchView(old(nodes[x, y]))
    ensures TraceOk(t, size, TotalRooms(size)) && NodesMatch(nodes, t)
  {
    var currentPosHalf := (0, 0);
    var walkedCount := 1;
    var neighbours := new Pos[3];
    var totalWalkCont := RoomsAlong(size.0) * RoomsAlong(size.1);
    var nodeSet := (0, 0);
    nodes[nodeSet.0, nodeSet.1] := nodes[nodeSet.0, nodeSet.1].(isWalked := true);
    SetWall(nodes, nodeSet, false);
    t := StartTrace();
    StartTraceOk(size);
    forall x, y {:trigger nodes[x, y]} | 0 <= x < nodes.Length0 && 0 <= y < nodes.Length1 ensures CellMatches(nodes[x, y], t, (x, y)) {
      if (x, y) == Origin {
        MatchStartOrigin(old(nodes[x, y]));
      } else {
        MatchStartOther(old(nodes[x, y]), (x, y));
      }
    }
    while walkedCount < totalWalkCont
      invariant PositionsIndexed(nodes)
      invariant forall x, y {:trigger nodes[x, y]} :: 0 <= x < nodes.Length0 && 0 <= y < nodes.Length1 ==> SearchView(nodes[x, y]) == SearchView(old(nodes[x, y]))
      invariant walkedCount <= totalWalkCont
      invariant TraceOk(t, size, walkedCount) && NodesMatch(nodes, t)
      invariant currentPosHalf == Top(t) && nodeSet == Twice(currentPosHalf)
      decreases totalWalkCont - walkedCount, |t.stack|
    {
      currentPosHalf, nodeSet, t, walkedCount := CarveStep(nodes, size, neighbours, currentPosHalf, nodeSet, t, walkedCount);
    }
    FinishedCarveIsPerfect(nodes, t, size, walkedCount);
  }

  /** The two selected nodes of MazeScript: `_startNode` and `_targetNode`, none for null. */
  datatype Selection = Selection(start: Option<Pos>, target: Option<Pos>)

  /** `CanPathFinding`: a maze exists and both a start and a target are selected. */
  predicate Ready(isMazeGenerated: bool, s: Selection) {
    isMazeGenerated && s.start.Some? && s.target.Some?
  }

  /**
   * `OnNodeSelected(node)` on the selection `s`, where `ready` is
   * `CanPathFinding` before the click: a ready selection is cleared first;
   * then the node becomes the start if there is none and the target
   * otherwise.
   */
  function NextSelection(s: Selection, ready: bool, node: Pos): (r: Selection)
    ensures r.start.Some?
    ensures r.start == Some(node) || r.target == Some(node)
    ensures ready ==> r == Selection(Some(node), None)
    ensures !ready && s.start.None? ==> r == Selection(Some(node), s.target)
    ensures !ready && s.start.Some? ==> r.start == s.start && r.target == Some(node)
  {
    var cleared := if ready then Selection(None, None) else s;
    if cleared.start.None? then cleared.(start := Some(node)) else cleared.(target := Some(node))
  }

  /**
   * Three clicks on a generated maze with nothing selected: the first picks
   * the start, the second the target, and the third clears both and picks a
   * new start.
   */
  lemma SelectionCycle(a: Pos, b: Pos, c: Pos)
    ensures var s1 := NextSelection(Selection(None, None), Ready(true, Selection(None, None)), a);
            var s2 := NextSelection(s1, Ready(true, s1), b);
            var s3 := NextSelection(s2, Ready(true, s2), c);
            s1 == Selection(Some(a), None) && s2 == Selection(Some(a), Some(b)) && s3 == Selection(Some(c), None)
  {
  }

  /**
   * `_size` after `CreateMap` as written: the requested size is stored
   * before it is checked, so a rejected request stays in `_size`.
   */
  function StoredSizeAsWritten(requested: Pos): (r: Pos)
    ensures NormalisedSize(requested).Some? ==> r == NormalisedSize(requested).value
    ensures NormalisedSize(requested).None? ==> r == requested
  {
    var stored := requested;
    if stored.0 < 5 || stored.1 < 5 then stored
    else (if stored.0 % 2 == 0 then stored.0 + 1 else stored.0,
          if stored.1 % 2 == 0 then stored.1 + 1 else stored.1)
  }

  /**
   * On a 5x5 maze, the rejected request 4x9 leaves `_size` at 4x9 while
   * the grid stays 5x5: position `(0, 8)` passes the bounds check of
   * `GetNode` with that size, although it lies outside the grid, so the
   * source then indexes the 5x5 array out of range.
   */
  lemma RejectedSizeOutgrowsGrid()
    ensures var stored := StoredSizeAsWritten((4, 9));
            NormalisedSize((4, 9)).None? && stored != (5, 5) &&
            GetNode((0, 8), stored) == Some((0, 8)) && !InBounds((0, 8), 5, 5)
  {
  }

  /**
   * The MazeScript component: the grid size, the node arena, the selected
   * start and target nodes and whether a maze has been generated, and
   * the `AStar` component it drives.
   */
  class MazeScript {
    var size: (nat, nat)
    var nodes: array2<Cell>
    var startNode: Option<Pos>
    var targetNode: Option<Pos>
    var isMazeGenerated: bool
    const aStar: Search.AStar

    /**
     * The arena matches `size`, every node knows its own index, no node has
     * computed costs, and a target is only ever selected after a start.
     */
    ghost predicate Valid()
      reads this, nodes
    {
      SizeOf(nodes, size) && PositionsIndexed(nodes) && CostsUntouched(nodes) &&
      (targetNode.Some? ==> startNode.Some?)
    }

    /** The selected nodes are nodes of the grid. */
    ghost predicate SelectionsInGrid()
      reads this
    {
      (startNode.Some? ==> InGrid(nodes, startNode.value)) && (targetNode.Some? ==> InGrid(nodes, targetNode.value))
    }

    /** The selected nodes are nodes of the grid and neither of them is a wall. */
    ghost predicate SelectionsOpen()
      reads this, nodes
    {
      SelectionsInGrid() &&
      (startNode.Some? ==> !nodes[startNode.value.0, startNode.value.1].isWall) &&
      (targetNode.Some? ==> !nodes[targetNode.value.0, targetNode.value.1].isWall)
    }

    /** `CanPathFinding`: a maze exists and both a start and a target are selected. */
    predicate CanPathFinding()
      reads this
    {
      Ready(isMazeGenerated, Selection(startNode, targetNode))
    }

    /** `Awake` with the `AStar` component: an empty grid, nothing selected, no maze. */
    constructor ()
      ensures Valid() && fresh(nodes) && fresh(aStar)
      ensures size == (0, 0) && startNode == None && targetNode == None && !isMazeGenerated
    {
      size := (0, 0);
      nodes := new Cell[0, 0];
      startNode, targetNode := None, None;
      isMazeGenerated := false;
      aStar := new Search.AStar();
    }

    /**
     * `CreateGrid(sizeXY)`: a new arena of the given size whose node `(x, y)`
     * is initialised with position `(x, y)` as a wall.
     */
    method CreateGrid(sizeXY: (nat, nat))
      modifies this
      ensures fresh(nodes) && SizeOf(nodes, sizeXY)
      ensures forall x, y {:trigger nodes[x, y]} :: 0 <= x < nodes.Length0 && 0 <= y < nodes.Length1 ==> nodes[x, y] == InitialCell(x, y)
      ensures size == old(size) && startNode == old(startNode) && targetNode == old(targetNode)
      ensures isMazeGenerated == old(isMazeGenerated)
      ensures AllWallsUnwalked(nodes) && PositionsIndexed(nodes) && NoneVisited(nodes) && CostsUntouched(nodes)
    {
      nodes := new Cell[sizeXY.0, sizeXY.1]((x, y) => FreshCell);
      for i := 0 to sizeXY.1
        modifies nodes
        invariant forall x, y {:trigger nodes[x, y]} :: 0 <= x < sizeXY.0 && 0 <= y < i ==> nodes[x, y] == InitialCell(x, y)
        invariant forall x, y {:trigger nodes[x, y]} :: 0 <= x < sizeXY.0 && i <= y < sizeXY.1 ==> nodes[x, y] == FreshCell
      {
        for j := 0 to sizeXY.0
          modifies nodes
          invariant forall x, y {:trigger nodes[x, y]} :: 0 <= x < sizeXY.0 && 0 <= y < i ==> nodes[x, y] == InitialCell(x, y)
          invariant forall x :: 0 <= x < j ==> nodes[x, i] == InitialCell(x, i)
          invariant forall x, y {:trigger nodes[x, y]} :: j <= x < sizeXY.0 && y == i ==> nodes[x, y] == FreshCell
          invariant forall x, y {:trigger nodes[x, y]} :: 0 <= x < sizeXY.0 && i < y < sizeXY.1 ==> nodes[x, y] == FreshCell
        {
          Init(nodes, (j, i), (j, i), true);
        }
      }
    }

    /**
     * `GenerateContentMap`: carves the grid into a perfect maze (see
     * `CarveGrid`) and then records that a maze exists.
     */
    method GenerateContentMap() returns (ghost t: CarveTrace)
      requires SizeOf(nodes, size) && size.0 > 0 && size.1 > 0 && AllWallsUnwalked(nodes) && PositionsIndexed(nodes)
      modifies this, nodes
      ensures nodes == old(nodes) && size == old(size) && startNode == old(startNode) && targetNode == old(targetNode)
      ensures isMazeGenerated && PerfectMaze(nodes)
      ensures PositionsIndexed(nodes)
      ensures forall x, y {:trigger nodes[x, y]} :: 0 <= x < nodes.Length0 && 0 <= y < nodes.Length1 ==> SearchView(nodes[x, y]) == SearchView(old(nodes[x, y]))
      ensures TraceOk(t, size, TotalRooms(size)) && NodesMatch(nodes, t)
      ensures old(NoneVisited(nodes)) ==> NoneVisited(nodes)
      ensures old(CostsUntouched(nodes)) ==> CostsUntouched(nodes)
    {
      t := CarveGrid(nodes, size);
      isMazeGenerated := true;
      forall x, y | 0 <= x < nodes.Length0 && 0 <= y < nodes.Length1
        ensures nodes[x, y].isVisited == old(nodes[x, y].isVisited)
        ensures nodes[x, y].isCalculated == old(nodes[x, y].isCalculated)
        ensures nodes[x, y].gCost == old(nodes[x, y].gCost) && nodes[x, y].hCost == old(nodes[x, y].hCost)
      {
        assert SearchView(nodes[x, y]) == SearchView(old(nodes[x, y]));
      }
    }

    /**
     * `CreateMap` with the size fields already read: `None` is an empty
     * field. An empty field or a request below 5 on either axis leaves
     * everything as it was. Otherwise each even dimension is raised by one,
     * a new all-wall grid of that size is built and carved into a perfect
     * maze, and no node of it is visited. The selected nodes are kept.
     */
    method CreateMap(sizeX: Option<int>, sizeY: Option<int>) returns (ghost t: CarveTrace)
      requires Valid()
      modifies this
      ensures Valid()
      ensures startNode == old(startNode) && targetNode == old(targetNode)
      ensures sizeX.None? || sizeY.None? || NormalisedSize((sizeX.value, sizeY.value)).None? ==>
        size == old(size) && nodes == old(nodes) && isMazeGenerated == old(isMazeGenerated)
      ensures sizeX.Some? && sizeY.Some? && NormalisedSize((sizeX.value, sizeY.value)).Some? ==>
        fresh(nodes) && size == NormalisedSize((sizeX.value, sizeY.value)).value &&
        isMazeGenerated && PerfectMaze(nodes) && NoneVisited(nodes) &&
        TraceOk(t, size, TotalRooms(size)) && NodesMatch(nodes, t)
    {
      t := StartTrace();
      if sizeX.None? || sizeY.None? {
        return;
      }
      var normalised := NormalisedSize((sizeX.value, sizeY.value));
      if normalised.None? {
        return;
      }
      size := (normalised.value.0, normalised.value.1);
      isMazeGenerated := false;
      CreateGrid(size);
      t := GenerateContentMap();
    }

    /**
     * `OnNodeSelected(node)`: the selection moves on as `NextSelection`
     * says, with `CanPathFinding` taken before the click; nothing else
     * changes.
     */
    method OnNodeSelected(node: Pos)
      modifies this
      ensures Selection(startNode, targetNode) == NextSelection(old(Selection(startNode, targetNode)), old(CanPathFinding()), node)
      ensures size == old(size) && nodes == old(nodes) && isMazeGenerated == old(isMazeGenerated)
    {
      if CanPathFinding() {
        startNode := None;
        targetNode := None;
      }
      if startNode.None? {
        startNode := Some(node);
      } else {
        targetNode := Some(node);
      }
    }

    /**
     * `OnSelected` of the node at `node`: a wall ignores the click; any
     * other node is passed to `OnNodeSelected`. So a selection of nodes
     * that are not walls stays so: a wall never becomes the start or the
     * target.
     */
    method OnSelected(node: Pos)
      requires InGrid(nodes, node)
      modifies this
      ensures old(nodes[node.0, node.1].isWall) ==> startNode == old(startNode) && targetNode == old(targetNode)
      ensures !old(nodes[node.0, node.1].isWall) ==>
        Selection(startNode, targetNode) == NextSelection(old(Selection(startNode, targetNode)), old(CanPathFinding()), node)
      ensures size == old(size) && nodes == old(nodes) && isMazeGenerated == old(isMazeGenerated)
      ensures old(SelectionsOpen()) ==> SelectionsOpen()
      ensures old(Valid()) ==> Valid()
    {
      if nodes[node.0, node.1].isWall {
        return;
      }
      OnNodeSelected(node);
    }

    /**
     * `PathFinding`: unless a maze exists and both a start and a target are
     * selected, nothing happens; otherwise the `AStar` search runs from the
     * start to the target on the grid, with its guarantees.
     */
    method PathFinding() returns (path: seq<Pos>, ghost region: set<Pos>)
      requires Valid() && SelectionsInGrid() && NoneVisited(nodes)
      modifies aStar, nodes
      ensures Valid()
      ensures !CanPathFinding() ==> path == [] && unchanged(nodes) && unchanged(aStar)
      ensures forall x, y {:trigger nodes[x, y]} :: 0 <= x < nodes.Length0 && 0 <= y < nodes.Length1 ==>
        MazeView(nodes[x, y]) == MazeView(old(nodes[x, y])) && (old(nodes[x, y].isVisited) ==> nodes[x, y].isVisited)
      ensures old(PerfectMaze(nodes)) ==> PerfectMaze(nodes)
      ensures CanPathFinding() ==>
        var s, g := startNode.value, targetNode.value;
        (s == g ==> path == []) &&
        (path != [] ==> Search.ValidPath(nodes, s, g, path)) &&
        (path == [] && s != g ==> Search.Separates(nodes, region, s, g))
    {
      region := {};
      if !CanPathFinding() {
        return [], region;
      }
      path, region := aStar.PathFinding(startNode.value, targetNode.value, nodes, size);
      if old(PerfectMaze(nodes)) {
        PerfectMazeKept(nodes);
      }
    }
  }
}
