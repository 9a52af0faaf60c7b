/**
 * The grid node of Node.cs, stored in an arena: the grid is a `width x height`
 * array of `Cell` values and a node is named by its `(x, y)` index, so the
 * back-pointer `PreviousNode` is an optional index. Each Node.cs method that
 * updates fields becomes a method that updates one element of the arena.
 */
module Nodes {
  import opened Options
  import opened Geometry

  /** Every field of a node that the maze generator or the search reads or writes. */
  datatype Cell = Cell(
    position: Pos,
    isWall: bool,
    isVisited: bool,
    isWalked: bool,
    isBlocked: bool,
    passPosHalf: Pos,
    gCost: int,
    hCost: int,
    isCalculated: bool,
    previousNode: Option<Pos>)

  /** A node before anything has set a field: the C# default of every field. */
  const FreshCell: Cell := Cell((0, 0), false, false, false, false, (0, 0), 0, 0, false, None)

  /** `FCost => GCost + HCost`: derived, never stored. */
  function FCost(c: Cell): int { c.gCost + c.hCost }

  /** The arena has `size.0` columns and `size.1` rows. */
  predicate SizeOf(nodes: array2<Cell>, size: (nat, nat)) {
    nodes.Length0 == size.0 && nodes.Length1 == size.1
  }

  predicate InGrid(nodes: array2<Cell>, p: Pos) {
    0 <= p.0 < nodes.Length0 && 0 <= p.1 < nodes.Length1
  }

  /**
   * `GetNode`: the node at `pos` of a grid of the given size, or none (the
   * source's null) when `pos` lies outside it. MazeScript and AStar each
   * carry an identical copy of this lookup.
   */
  function GetNode(pos: Pos, size: Pos): (r: Option<Pos>)
    ensures r.None? <==> !InBounds(pos, size.0, size.1)
    ensures r.Some? ==> r.value == pos
  {
    if pos.0 < 0 || pos.0 >= size.0 || pos.1 < 0 || pos.1 >= size.1 then None else Some(pos)
  }

  /** The node fields the maze generator owns: position, wall, walk flags and entry link. */
  function MazeView(c: Cell): (Pos, bool, bool, bool, Pos) {
    (c.position, c.isWall, c.isWalked, c.isBlocked, c.passPosHalf)
  }

  /** Each node remembers the index it is stored at (`Init` sets `_position`). */
  ghost predicate PositionsIndexed(nodes: array2<Cell>)
    reads nodes
  {
    forall x, y {:trigger nodes[x, y]} :: 0 <= x < nodes.Length0 && 0 <= y < nodes.Length1 ==> nodes[x, y].position == (x, y)
  }

  /** No node has computed its costs: `IsCalculated` is false and both costs are 0. */
  ghost predicate CostsUntouched(nodes: array2<Cell>)
    reads nodes
  {
    forall x, y {:trigger nodes[x, y]} :: 0 <= x < nodes.Length0 && 0 <= y < nodes.Length1 ==>
      !nodes[x, y].isCalculated && nodes[x, y].gCost == 0 && nodes[x, y].hCost == 0
  }

  ghost predicate NoneVisited(nodes: array2<Cell>)
    reads nodes
  {
    forall x, y {:trigger nodes[x, y]} :: 0 <= x < nodes.Length0 && 0 <= y < nodes.Length1 ==> !nodes[x, y].isVisited
  }

  /** `Init(pos, isWall)`: sets the position and wall flag and clears `IsVisited` and `IsCalculated`. */
  method Init(nodes: array2<Cell>, p: Pos, pos: Pos, isWall: bool)
    requires InGrid(nodes, p)
    modifies nodes
    ensures nodes[p.0, p.1] == old(nodes[p.0, p.1]).(isVisited := false, isCalculated := false, position := pos, isWall := isWall)
    ensures forall x, y {:trigger nodes[x, y]} :: 0 <= x < nodes.Length0 && 0 <= y < nodes.Length1 && (x, y) != p ==> nodes[x, y] == old(nodes[x, y])
  {
    nodes[p.0, p.1] := nodes[p.0, p.1].(isVisited := false, isCalculated := false, position := pos);
    SetWall(nodes, p, isWall);
  }

  /**
   * `CalculateCost(start, target)`: a no-op on a wall or on a node whose
   * `IsCalculated` is false; otherwise the Manhattan distances from the
   * start's position and to the target's position.
   */
  method CalculateCost(nodes: array2<Cell>, p: Pos, startPosition: Pos, targetPosition: Pos)
    requires InGrid(nodes, p)
    modifies nodes
    ensures old(nodes[p.0, p.1].isWall || !nodes[p.0, p.1].isCalculated) ==> unchanged(nodes)
    ensures !old(nodes[p.0, p.1].isWall || !nodes[p.0, p.1].isCalculated) ==>
      nodes[p.0, p.1] == old(nodes[p.0, p.1]).(gCost := Manhattan(startPosition, old(nodes[p.0, p.1].position)),
                                               hCost := Manhattan(targetPosition, old(nodes[p.0, p.1].position)))
    ensures forall x, y {:trigger nodes[x, y]} :: 0 <= x < nodes.Length0 && 0 <= y < nodes.Length1 && (x, y) != p ==> nodes[x, y] == old(nodes[x, y])
  {
    var c := nodes[p.0, p.1];
    if c.isWall || !c.isCalculated {
      return;
    }
    nodes[p.0, p.1] := c.(isCalculated := true,
                          gCost := Manhattan(startPosition, c.position),
                          hCost := Manhattan(targetPosition, c.position));
  }

  /** `SetWall(isWall)`: the wall flag and nothing else (the colour is not modelled). */
  method SetWall(nodes: array2<Cell>, p: Pos, isWall: bool)
    requires InGrid(nodes, p)
    modifies nodes
    ensures nodes[p.0, p.1] == old(nodes[p.0, p.1]).(isWall := isWall)
    ensures forall x, y {:trigger nodes[x, y]} :: 0 <= x < nodes.Length0 && 0 <= y < nodes.Length1 && (x, y) != p ==> nodes[x, y] == old(nodes[x, y])
  {
    nodes[p.0, p.1] := nodes[p.0, p.1].(isWall := isWall);
  }

  /** `SetPreviousNode(previous)`: ignored on a wall, otherwise sets the back-pointer. */
  method SetPreviousNode(nodes: array2<Cell>, p: Pos, previous: Pos)
    requires InGrid(nodes, p)
    modifies nodes
    ensures old(nodes[p.0, p.1].isWall) ==> nodes[p.0, p.1] == old(nodes[p.0, p.1])
    ensures !old(nodes[p.0, p.1].isWall) ==> nodes[p.0, p.1] == old(nodes[p.0, p.1]).(previousNode := Some(previous))
    ensures forall x, y {:trigger nodes[x, y]} :: 0 <= x < nodes.Length0 && 0 <= y < nodes.Length1 && (x, y) != p ==> nodes[x, y] == old(nodes[x, y])
  {
    if nodes[p.0, p.1].isWall {
      return;
    }
    nodes[p.0, p.1] := nodes[p.0, p.1].(previousNode := Some(previous));
  }
}
