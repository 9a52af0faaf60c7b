/**
 * The structure behind the maze carve of MazeScript.cs `GenerateContentMap`.
 *
 * Rooms are the nodes at even-even coordinates; room `(i, j)` of the half
 * lattice is node `(2i, 2j)`. A node with exactly one odd coordinate is a
 * connector between the two rooms on either side of it; a node with two odd
 * coordinates is a pillar.
 *
 * The carve is described by a ghost `CarveTrace`: the path of rooms from the
 * origin to the current room (the stack that `passPosHalf` encodes), the
 * walked and blocked rooms, the opened connectors, the room each walked room
 * was entered from and the step at which it was walked. `TraceOk` is the
 * invariant of the carve loop, stated on the trace alone; `NodesMatch` ties
 * the node flags to the trace. Each loop step is proved to keep `TraceOk`
 * by a lemma on traces, and the finished trace is proved to describe a
 * perfect maze.
 */
module Carve {
  import opened Geometry
  import opened Nodes

  /** `Mathf.CeilToInt(n / 2f)`, for the non-negative sizes used: rooms along one axis. */
  function RoomsAlong(n: nat): (r: nat)
    ensures n <= 2 * r <= n + 1
  {
    (n + 1) / 2
  }

  /** `totalWalkCont`: the number of rooms of a grid of the given size. */
  function TotalRooms(size: (nat, nat)): nat { RoomsAlong(size.0) * RoomsAlong(size.1) }

  /** Half-lattice position `r` names a room of a grid of the given size. */
  predicate RoomOf(size: (nat, nat), r: Pos) { InBounds(Twice(r), size.0, size.1) }

  /** The rooms of a grid are the `ceil(w/2) x ceil(h/2)` half-lattice rectangle. */
  lemma RoomsAreRect(size: (nat, nat))
    ensures forall r :: RoomOf(size, r) <==> r in Rect(RoomsAlong(size.0), RoomsAlong(size.1))
  {
  }

  /** The half-lattice room of a room node. */
  function Half(p: Pos): Pos { (p.0 / 2, p.1 / 2) }

  /**
   * The two rooms a connector node `c` separates, as half-lattice positions:
   * `Half(c)` and the room `Beyond(c)` one step right or up from it.
   */
  function Beyond(c: Pos): Pos { ((c.0 + 1) / 2, (c.1 + 1) / 2) }

  /**
   * The node between adjacent rooms `a` and `b` is `a + b` (that is
   * `2a + (b - a)`): a connector whose two sides are `a` and `b`.
   */
  lemma ConnectorSides(a: Pos, b: Pos)
    requires Adjacent(a, b)
    ensures (Add(a, b).0 + Add(a, b).1) % 2 == 1
    ensures {Half(Add(a, b)), Beyond(Add(a, b))} == {a, b}
  {
    AdjacentIsDirection(a, b);
    var c := Add(a, b);
    if b == Add(a, Left) || b == Add(a, Down) {
      assert Half(c) == b && Beyond(c) == a;
    } else {
      assert Half(c) == a && Beyond(c) == b;
    }
  }

  /** The connector between two adjacent rooms of the grid lies in the grid. */
  lemma ConnectorInGrid(a: Pos, b: Pos, size: (nat, nat))
    requires RoomOf(size, a) && RoomOf(size, b) && Adjacent(a, b)
    ensures InBounds(Add(a, b), size.0, size.1)
  {
    AdjacentIsDirection(a, b);
  }

  /** The connector between two adjacent rooms is not the node of any room. */
  lemma ConnectorIsNotRoom(a: Pos, b: Pos)
    requires Adjacent(a, b)
    ensures !IsRoomNode(Add(a, b)) && forall r :: Add(a, b) != Twice(r)
  {
    ConnectorSides(a, b);
  }

  const Origin: Pos := (0, 0)

  datatype CarveTrace = CarveTrace(
    stack: seq<Pos>,
    walked: set<Pos>,
    blocked: set<Pos>,
    carved: set<Pos>,
    parent: map<Pos, Pos>,
    order: map<Pos, nat>)

  /** The trace before the loop: the origin walked, nothing else. */
  function StartTrace(): CarveTrace {
    CarveTrace([Origin], {Origin}, {}, {}, map[], map[Origin := 0])
  }

  /** The room the walk stands on: the top of the path. */
  function Top(t: CarveTrace): Pos
    requires |t.stack| >= 1
  {
    t.stack[|t.stack| - 1]
  }

  /** A backtrack step: the current room is blocked and popped. */
  function Popped(t: CarveTrace): CarveTrace
    requires |t.stack| >= 1
  {
    t.(stack := t.stack[..|t.stack| - 1], blocked := t.blocked + {Top(t)})
  }

  /** Room `next` is entered from the current room and walked as step `count`. */
  function Entered(t: CarveTrace, next: Pos, count: nat): CarveTrace
    requires |t.stack| >= 1
  {
    t.(stack := t.stack + [next], walked := t.walked + {next}, parent := t.parent[next := Top(t)], order := t.order[next := count])
  }

  /** Connector node `c` is opened. */
  function Opened(t: CarveTrace, c: Pos): CarveTrace {
    t.(carved := t.carved + {c})
  }

  /**
   * A forward step into room `next`, walked as step `count`: `next` is
   * entered from the current room and the connector between them opens.
   */
  function Pushed(t: CarveTrace, next: Pos, count: nat): CarveTrace
    requires |t.stack| >= 1
  {
    Opened(Entered(t, next, count), Add(Top(t), next))
  }

  /**
   * The path starts at the origin, each room on it was entered from the one
   * before, it has no repeats, and it holds every walked room not yet blocked.
   */
  ghost predicate PathOk(t: CarveTrace) {
    |t.stack| >= 1 && t.stack[0] == Origin &&
    (forall k :: 0 <= k < |t.stack| ==> t.stack[k] in t.walked && t.stack[k] !in t.blocked) &&
    (forall k :: 1 <= k < |t.stack| ==> t.stack[k] in t.parent && t.parent[t.stack[k]] == t.stack[k - 1]) &&
    (forall i, j :: 0 <= i < j < |t.stack| ==> t.stack[i] != t.stack[j]) &&
    (forall r :: r in t.walked ==> OnPathOrBlocked(t, r))
  }

  ghost predicate OnPathOrBlocked(t: CarveTrace, r: Pos) {
    r in t.blocked || r in t.stack
  }

  /**
   * `count` rooms of the grid are walked, the origin first and each at a
   * distinct earlier step; blocked rooms are walked rooms.
   */
  ghost predicate CountOk(t: CarveTrace, size: (nat, nat), count: nat) {
    Origin in t.walked && |t.walked| == count && t.blocked <= t.walked &&
    (forall r :: r in t.walked ==> RoomOf(size, r)) &&
    t.order.Keys == t.walked && t.order[Origin] == 0 &&
    (forall r :: r in t.order ==> t.order[r] < count)
  }

  /**
   * Every walked room but the origin was entered, across a carved
   * connector, from an adjacent room walked before it.
   */
  ghost predicate ParentsOk(t: CarveTrace) {
    t.parent.Keys == t.walked - {Origin} &&
    (forall r :: r in t.parent ==>
       t.parent[r] in t.walked && Adjacent(r, t.parent[r]) && Add(r, t.parent[r]) in t.carved &&
       t.parent[r] in t.order && r in t.order && t.order[t.parent[r]] < t.order[r])
  }

  /** Every room of the grid next to room `b` is in `walked`. */
  ghost predicate Enclosed(walked: set<Pos>, size: (nat, nat), b: Pos) {
    forall q :: RoomOf(size, q) && Adjacent(b, q) ==> q in walked
  }

  /** No blocked room has an unwalked neighbour in the grid. */
  ghost predicate BlockedClosed(t: CarveTrace, size: (nat, nat)) {
    forall b :: b in t.blocked ==> Enclosed(t.walked, size, b)
  }

  ghost predicate WalkOk(t: CarveTrace, size: (nat, nat), count: nat) {
    CountOk(t, size, count) && ParentsOk(t) && BlockedClosed(t, size)
  }

  /** Every carved node is an in-grid connector between two walked rooms. */
  ghost predicate CarvedConnectors(t: CarveTrace, size: (nat, nat)) {
    forall c :: c in t.carved ==> WalkedConnector(t.walked, size, c)
  }

  /** `c` is an in-grid connector node whose two rooms are walked. */
  ghost predicate WalkedConnector(walked: set<Pos>, size: (nat, nat), c: Pos) {
    InBounds(c, size.0, size.1) && (c.0 + c.1) % 2 == 1 && Half(c) in walked && Beyond(c) in walked
  }

  /** The carved nodes are connectors, one per walked room but the origin. */
  ghost predicate CarvedOk(t: CarveTrace, size: (nat, nat), count: nat) {
    CarvedConnectors(t, size) && |t.carved| == count - 1
  }

  /** The invariant of the carve loop, with `count` the value of `walkedCount`. */
  ghost predicate TraceOk(t: CarveTrace, size: (nat, nat), count: nat) {
    PathOk(t) && WalkOk(t, size, count) && CarvedOk(t, size, count)
  }

  /** The loop starts in a good state. */
  lemma StartTraceOk(size: (nat, nat))
    requires size.0 > 0 && size.1 > 0
    ensures TraceOk(StartTrace(), size, 1)
  {
  }

  /** The current room is walked, not blocked and a room of the grid. */
  lemma TopIsOpen(t: CarveTrace, size: (nat, nat), count: nat)
    requires TraceOk(t, size, count)
    ensures Top(t) in t.walked && Top(t) !in t.blocked && RoomOf(size, Top(t))
  {
  }

  /**
   * One of the four neighbours of the current room is off the grid or
   * walked: the room below it on the path, or, at the origin, the room to
   * its left.
   */
  lemma WalkedNeighbourOfTop(t: CarveTrace, size: (nat, nat), count: nat) returns (h: Pos)
    requires TraceOk(t, size, count)
    ensures Adjacent(Top(t), h) && (!RoomOf(size, h) || h in t.walked)
  {
    if |t.stack| > 1 {
      h := t.stack[|t.stack| - 2];
      assert t.parent[Top(t)] == h;
    } else {
      h := Add(Origin, Left);
    }
  }

  /**
   * When the walk is back at the origin and every walked room is blocked,
   * the walked rooms are closed under adjacency, so every room has been
   * walked.
   */
  lemma ExhaustedWalkCoversAllRooms(walked: set<Pos>, blocked: set<Pos>, size: (nat, nat))
    requires size.0 > 0 && size.1 > 0 && Origin in walked && walked <= blocked
    requires forall r :: r in walked ==> RoomOf(size, r)
    requires forall b :: b in blocked ==> Enclosed(walked, size, b)
    ensures |walked| == TotalRooms(size)
  {
    var w, h := RoomsAlong(size.0), RoomsAlong(size.1);
    RoomsAreRect(size);
    ClosedSetCoversRect(walked, w, h);
    assert walked == Rect(w, h);
    RectSize(w, h);
  }

  /**
   * While rooms remain unwalked, a room whose neighbours are all walked is
   * not the origin at the bottom of the path: otherwise every walked room
   * would be blocked and the walked rooms closed under adjacency.
   */
  lemma BacktrackLeavesOrigin(t: CarveTrace, size: (nat, nat), count: nat)
    requires PathOk(t) && CountOk(t, size, count) && BlockedClosed(t, size) && count < TotalRooms(size)
    requires Enclosed(t.walked, size, Top(t))
    ensures |t.stack| > 1
  {
    if |t.stack| == 1 {
      var blocked := t.blocked + {Top(t)};
      assert t.walked <= blocked by {
        forall r | r in t.walked ensures r in blocked {
          if r !in t.blocked {
            assert r in t.stack;
          }
        }
      }
      ExhaustedWalkCoversAllRooms(t.walked, blocked, size);
      assert false;
    }
  }

  /** Popping a path of two or more rooms leaves a path whose top is the room the old top was entered from. */
  lemma PoppedPath(t: CarveTrace)
    requires PathOk(t) && |t.stack| > 1
    ensures Top(t) in t.parent && Top(Popped(t)) == t.parent[Top(t)]
    ensures PathOk(Popped(t))
  {
    var t' := Popped(t);
    forall r | r in t'.walked && r !in t'.blocked ensures r in t'.stack {
      var i :| 0 <= i < |t.stack| && t.stack[i] == r;
      assert i < |t.stack| - 1;
      assert t'.stack[i] == r;
    }
  }

  /** Blocking the current room once its neighbours are all walked keeps the walk facts. */
  lemma PoppedWalk(t: CarveTrace, size: (nat, nat), count: nat)
    requires PathOk(t) && WalkOk(t, size, count)
    requires Enclosed(t.walked, size, Top(t))
    ensures WalkOk(Popped(t), size, count)
  {
  }

  /**
   * A backtrack step from a room whose neighbours are all walked keeps the
   * invariant, and while rooms remain unwalked it never starts at the
   * origin: the walk returns to the room the current one was entered from.
   */
  lemma BacktrackTrace(t: CarveTrace, size: (nat, nat), count: nat)
    requires TraceOk(t, size, count) && count < TotalRooms(size)
    requires Enclosed(t.walked, size, Top(t))
    ensures |t.stack| > 1 && Top(t) in t.parent && Top(Popped(t)) == t.parent[Top(t)]
    ensures TraceOk(Popped(t), size, count)
  {
    BacktrackLeavesOrigin(t, size, count);
    PoppedPath(t);
    PoppedWalk(t, size, count);
    assert CarvedOk(Popped(t), size, count);
  }

  /** Pushing an unwalked room keeps a path without repeats. */
  lemma PushedPath(t: CarveTrace, next: Pos, count: nat)
    requires PathOk(t) && t.blocked <= t.walked && next !in t.walked
    ensures PathOk(Pushed(t, next, count))
  {
    var t' := Pushed(t, next, count);
    forall i, j | 0 <= i < j < |t'.stack| ensures t'.stack[i] != t'.stack[j] {
      if j == |t'.stack| - 1 {
        assert t'.stack[i] == t.stack[i];
      }
    }
  }

  /** Walking one more room of the grid as step `count` keeps the counts. */
  lemma PushedCount(t: CarveTrace, size: (nat, nat), count: nat, next: Pos)
    requires |t.stack| >= 1 && CountOk(t, size, count) && RoomOf(size, next) && next !in t.walked
    ensures CountOk(Pushed(t, next, count), size, count + 1)
  {
  }

  /** Entering `next` from the current room across their connector keeps the entry links. */
  lemma PushedParents(t: CarveTrace, size: (nat, nat), count: nat, next: Pos)
    requires |t.stack| >= 1 && Top(t) in t.walked && CountOk(t, size, count) && ParentsOk(t)
    requires Adjacent(Top(t), next) && next !in t.walked
    ensures ParentsOk(Pushed(t, next, count))
  {
    ManhattanSymmetric(next, Top(t));
    assert Add(next, Top(t)) == Add(Top(t), next);
  }

  /** Walking one more room keeps the blocked rooms closed. */
  lemma PushedBlocked(t: CarveTrace, size: (nat, nat), count: nat, next: Pos)
    requires |t.stack| >= 1 && BlockedClosed(t, size)
    ensures BlockedClosed(Pushed(t, next, count), size)
  {
  }

  /** Opening the connector into an unwalked room adds a new carved node. */
  lemma PushedCarved(t: CarveTrace, size: (nat, nat), count: nat, next: Pos)
    requires |t.stack| >= 1 && Top(t) in t.walked && RoomOf(size, Top(t)) && RoomOf(size, next)
    requires CarvedOk(t, size, count) && count >= 1
    requires Adjacent(Top(t), next) && next !in t.walked
    ensures CarvedOk(Pushed(t, next, count), size, count + 1)
  {
    ConnectorSides(Top(t), next);
    ConnectorInGrid(Top(t), next, size);
    assert Add(Top(t), next) !in t.carved;
  }

  /** A forward step into an unwalked room next to the current one keeps the invariant. */
  lemma ForwardTrace(t: CarveTrace, size: (nat, nat), count: nat, next: Pos)
    requires TraceOk(t, size, count)
    requires RoomOf(size, next) && Adjacent(Top(t), next) && next !in t.walked
    ensures TraceOk(Pushed(t, next, count), size, count + 1)
  {
    TopIsOpen(t, size, count);
    PushedPath(t, next, count);
    PushedCount(t, size, count, next);
    PushedParents(t, size, count, next);
    PushedBlocked(t, size, count, next);
    PushedCarved(t, size, count, next);
  }

  /** When `walkedCount` reaches the number of rooms, every room has been walked. */
  lemma FinishedTraceWalkedAll(t: CarveTrace, size: (nat, nat), count: nat)
    requires TraceOk(t, size, count) && count == TotalRooms(size)
    ensures forall r :: RoomOf(size, r) <==> r in t.walked
  {
    var w, h := RoomsAlong(size.0), RoomsAlong(size.1);
    RoomsAreRect(size);
    RectSize(w, h);
    SubsetOfSameSize(t.walked, Rect(w, h));
  }

  /** Node `p` is a room (both coordinates even). */
  predicate IsRoomNode(p: Pos) { p.0 % 2 == 0 && p.1 % 2 == 0 }

  /**
   * The room node `c` of half-lattice room `h` agrees with the trace: it is
   * walked and open exactly when the trace walked `h`, blocked exactly when
   * the trace blocked it, and records the room `h` was entered from.
   */
  predicate RoomMatches(c: Cell, t: CarveTrace, h: Pos) {
    c.isWalked == (h in t.walked) && c.isBlocked == (h in t.blocked) && c.isWall == (h !in t.walked) &&
    (h in t.parent ==> c.passPosHalf == t.parent[h])
  }

  /**
   * The fields the carve writes agree with the trace at node `p`: a room as
   * `RoomMatches` says; any other node is open exactly when the trace
   * carved it.
   */
  predicate CellMatches(c: Cell, t: CarveTrace, p: Pos) {
    if IsRoomNode(p) then RoomMatches(c, t, Half(p)) else c.isWall == (p !in t.carved)
  }

  /** At the node of room `h`, agreeing with the trace is `RoomMatches` for `h`. */
  lemma RoomNodeMatches(c: Cell, t: CarveTrace, h: Pos)
    ensures CellMatches(c, t, Twice(h)) == RoomMatches(c, t, h)
  {
    assert IsRoomNode(Twice(h)) && Half(Twice(h)) == h;
  }

  /** The whole grid agrees with the trace. */
  ghost predicate NodesMatch(nodes: array2<Cell>, t: CarveTrace)
    reads nodes
  {
    forall x, y {:trigger nodes[x, y]} :: 0 <= x < nodes.Length0 && 0 <= y < nodes.Length1 ==> CellMatches(nodes[x, y], t, (x, y))
  }

  /** The origin room node, walked and opened, agrees with the trace the carve starts from. */
  lemma MatchStartOrigin(c: Cell)
    ensures CellMatches(c.(isWalked := true, isBlocked := false, isWall := false), StartTrace(), Origin)
  {
  }

  /** Any other node of a fresh grid, a wall that is neither walked nor blocked, agrees with that trace. */
  lemma MatchStartOther(c: Cell, p: Pos)
    requires p.0 >= 0 && p.1 >= 0 && p != Origin && c.isWall && !c.isWalked && !c.isBlocked
    ensures CellMatches(c, StartTrace(), p)
  {
    if IsRoomNode(p) {
      EvenIsRoom(p);
    }
  }

  /** A node other than the current room agrees with the trace after a backtrack step as before. */
  lemma MatchAfterBacktrack(c: Cell, t: CarveTrace, p: Pos)
    requires |t.stack| >= 1 && CellMatches(c, t, p) && p != Twice(Top(t))
    ensures CellMatches(c, Popped(t), p)
  {
  }

  /** The current room, now blocked, agrees with the trace after a backtrack step. */
  lemma MatchBlockedRoom(c: Cell, t: CarveTrace)
    requires |t.stack| >= 1 && CellMatches(c, t, Twice(Top(t)))
    ensures CellMatches(c.(isBlocked := true), Popped(t), Twice(Top(t)))
  {
    RoomNodeMatches(c, t, Top(t));
    RoomNodeMatches(c.(isBlocked := true), Popped(t), Top(t));
  }

  /** A node other than the entered room agrees with the trace after the room is entered as before. */
  lemma MatchAfterEnter(c: Cell, t: CarveTrace, p: Pos, next: Pos, count: nat)
    requires |t.stack| >= 1 && CellMatches(c, t, p) && p != Twice(next)
    ensures CellMatches(c, Entered(t, next, count), p)
  {
    if IsRoomNode(p) {
      EvenIsRoom(p);
    }
  }

  /** The entered room, now walked, open and entered from the current room, agrees with the trace. */
  lemma MatchEnteredRoom(c: Cell, t: CarveTrace, next: Pos, count: nat)
    requires |t.stack| >= 1 && CellMatches(c, t, Twice(next)) && t.blocked <= t.walked
    ensures CellMatches(c.(passPosHalf := Top(t), isWalked := true, isWall := false), Entered(t, next, count), Twice(next))
  {
    RoomNodeMatches(c, t, next);
    RoomNodeMatches(c.(passPosHalf := Top(t), isWalked := true, isWall := false), Entered(t, next, count), next);
  }

  /** A node other than the opened connector agrees with the trace after the connector opens as before. */
  lemma MatchAfterOpen(c: Cell, t: CarveTrace, p: Pos, mid: Pos)
    requires CellMatches(c, t, p) && p != mid
    ensures CellMatches(c, Opened(t, mid), p)
  {
  }

  /** The opened connector, no longer a wall, agrees with the trace. */
  lemma MatchOpenedConnector(c: Cell, t: CarveTrace, mid: Pos)
    requires !IsRoomNode(mid)
    ensures CellMatches(c.(isWall := false), Opened(t, mid), mid)
  {
  }

  /** Half-lattice position `h` names a room of the grid. */
  predicate RoomIn(nodes: array2<Cell>, h: Pos) { InGrid(nodes, Twice(h)) }

  /** The room node of half-lattice position `h`. */
  function RoomAt(nodes: array2<Cell>, h: Pos): Cell
    reads nodes
    requires InGrid(nodes, Twice(h))
  {
    nodes[2 * h.0, 2 * h.1]
  }

  /** A grid that agrees with the trace agrees at each room node. */
  lemma MatchedRoom(nodes: array2<Cell>, t: CarveTrace, h: Pos)
    requires NodesMatch(nodes, t) && RoomIn(nodes, h)
    ensures RoomMatches(RoomAt(nodes, h), t, h)
  {
    assert CellMatches(nodes[2 * h.0, 2 * h.1], t, (2 * h.0, 2 * h.1));
    RoomNodeMatches(RoomAt(nodes, h), t, h);
  }

  /** A node with both coordinates even is the node of a room. */
  lemma EvenIsRoom(p: Pos)
    requires IsRoomNode(p)
    ensures p == Twice(Half(p))
  {
  }

  /** The set of connector nodes (exactly one odd coordinate) that are open. */
  ghost function OpenConnectors(nodes: array2<Cell>): set<Pos>
    reads nodes
  {
    set x, y | 0 <= x < nodes.Length0 && 0 <= y < nodes.Length1 && (x + y) % 2 == 1 && !nodes[x, y].isWall :: (x, y)
  }

  /**
   * Following `passPosHalf` from room `h` reaches the origin within `steps`
   * steps, through rooms of the grid.
   */
  ghost predicate ReachesOrigin(nodes: array2<Cell>, h: Pos, steps: nat)
    reads nodes
    decreases steps
  {
    RoomIn(nodes, h) &&
    (h == Origin || (steps > 0 && ReachesOrigin(nodes, RoomAt(nodes, h).passPosHalf, steps - 1)))
  }

  /** Room `p` is next to room `r` and the connector between them is open. */
  ghost predicate TreeLink(nodes: array2<Cell>, r: Pos, p: Pos)
    reads nodes
  {
    RoomIn(nodes, p) && Adjacent(r, p) && InGrid(nodes, Add(r, p)) && !nodes[r.0 + p.0, r.1 + p.1].isWall
  }

  /** Every room node (both coordinates even) is walked and open. */
  ghost predicate RoomsOpen(nodes: array2<Cell>)
    reads nodes
  {
    forall x, y {:trigger nodes[x, y]} :: 0 <= x < nodes.Length0 && 0 <= y < nodes.Length1 && x % 2 == 0 && y % 2 == 0 ==>
      nodes[x, y].isWalked && !nodes[x, y].isWall
  }

  /** Every pillar node (both coordinates odd) is a wall. */
  ghost predicate PillarsClosed(nodes: array2<Cell>)
    reads nodes
  {
    forall x, y {:trigger nodes[x, y]} :: 0 <= x < nodes.Length0 && 0 <= y < nodes.Length1 && x % 2 == 1 && y % 2 == 1 ==>
      nodes[x, y].isWall
  }

  /** Every room but the origin is joined by an open connector to the room it was entered from. */
  ghost predicate LinksToParent(nodes: array2<Cell>)
    reads nodes
  {
    forall r :: RoomIn(nodes, r) && r != Origin ==> TreeLink(nodes, r, RoomAt(nodes, r).passPosHalf)
  }

  /** Following the entry links from any room reaches the origin within as many steps as there are rooms. */
  ghost predicate AllReachOrigin(nodes: array2<Cell>)
    reads nodes
  {
    forall r :: RoomIn(nodes, r) ==> ReachesOrigin(nodes, r, RoomsAlong(nodes.Length0) * RoomsAlong(nodes.Length1))
  }

  /**
   * The carved grid is a perfect maze: every room is walked and open, every
   * pillar is a wall, every room but the origin is joined to the room it
   * was entered from by an open connector, these links lead from every room
   * to the origin, and exactly one connector fewer than there are rooms is
   * open. The open nodes therefore form a spanning tree of the rooms.
   */
  ghost predicate PerfectMaze(nodes: array2<Cell>)
    reads nodes
  {
    RoomsOpen(nodes) && PillarsClosed(nodes) && LinksToParent(nodes) && AllReachOrigin(nodes) &&
    |OpenConnectors(nodes)| == RoomsAlong(nodes.Length0) * RoomsAlong(nodes.Length1) - 1
  }

  /** The node fields a perfect maze is made of are the same now as in the old state. */
  twostate predicate MazeFieldsKept(nodes: array2<Cell>)
    reads nodes
  {
    forall x, y {:trigger nodes[x, y]} :: 0 <= x < nodes.Length0 && 0 <= y < nodes.Length1 ==>
      MazeView(nodes[x, y]) == MazeView(old(nodes[x, y]))
  }

  /** Keeping the maze fields keeps the entry links across open connectors. */
  twostate lemma LinksToParentKept(nodes: array2<Cell>)
    requires MazeFieldsKept(nodes) && old(LinksToParent(nodes))
    ensures LinksToParent(nodes)
  {
    forall r | RoomIn(nodes, r) && r != Origin ensures TreeLink(nodes, r, RoomAt(nodes, r).passPosHalf) {
      assert MazeView(nodes[2 * r.0, 2 * r.1]) == MazeView(old(nodes[2 * r.0, 2 * r.1]));
      var p := RoomAt(nodes, r).passPosHalf;
      assert old(TreeLink(nodes, r, RoomAt(nodes, r).passPosHalf));
      assert MazeView(nodes[r.0 + p.0, r.1 + p.1]) == MazeView(old(nodes[r.0 + p.0, r.1 + p.1]));
    }
  }

  /** Keeping the maze fields keeps every walk along the entry links to the origin. */
  twostate lemma AllReachOriginKept(nodes: array2<Cell>)
    requires MazeFieldsKept(nodes) && old(AllReachOrigin(nodes))
    ensures AllReachOrigin(nodes)
  {
    var n := RoomsAlong(nodes.Length0) * RoomsAlong(nodes.Length1);
    var k := 0;
    while k < n
      invariant k <= n
      invariant forall x: int, y: int, s: nat {:trigger ReachesOrigin(nodes, (x, y), s)} ::
        s <= k && old(ReachesOrigin(nodes, (x, y), s)) ==> ReachesOrigin(nodes, (x, y), s)
    {
      forall x: int, y: int, s: nat {:trigger ReachesOrigin(nodes, (x, y), s)} | s == k + 1 && old(ReachesOrigin(nodes, (x, y), s))
        ensures ReachesOrigin(nodes, (x, y), s)
      {
        if (x, y) != Origin {
          assert MazeView(nodes[2 * x, 2 * y]) == MazeView(old(nodes[2 * x, 2 * y]));
          assert old(ReachesOrigin(nodes, RoomAt(nodes, (x, y)).passPosHalf, k));
        }
      }
      k := k + 1;
    }
    forall r | RoomIn(nodes, r) ensures ReachesOrigin(nodes, r, n) {
      assert old(ReachesOrigin(nodes, r, n));
    }
  }

  /**
   * A perfect maze is made of the wall, walk and entry-link fields of its
   * nodes: a change that keeps those fields of every node keeps it perfect.
   */
  twostate lemma PerfectMazeKept(nodes: array2<Cell>)
    requires MazeFieldsKept(nodes) && old(PerfectMaze(nodes))
    ensures PerfectMaze(nodes)
  {
    LinksToParentKept(nodes);
    AllReachOriginKept(nodes);
    assert OpenConnectors(nodes) == old(OpenConnectors(nodes));
  }

  /** Links that lower the walk order at every step lead from each walked room to the origin. */
  lemma {:induction false} OrderedLinksReachOrigin(nodes: array2<Cell>, t: CarveTrace, size: (nat, nat), count: nat, r: Pos, steps: nat)
    requires SizeOf(nodes, size) && CountOk(t, size, count) && ParentsOk(t) && NodesMatch(nodes, t)
    requires r in t.walked && t.order[r] <= steps
    ensures ReachesOrigin(nodes, r, steps)
    decreases t.order[r]
  {
    MatchedRoom(nodes, t, r);
    if r != Origin {
      OrderedLinksReachOrigin(nodes, t, size, count, t.parent[r], steps - 1);
    }
  }

  /** The room and pillar flags of a finished carve. */
  lemma FinishedRoomsAndPillars(nodes: array2<Cell>, t: CarveTrace, size: (nat, nat))
    requires SizeOf(nodes, size) && CarvedConnectors(t, size) && NodesMatch(nodes, t)
    requires forall r :: RoomOf(size, r) ==> r in t.walked
    ensures RoomsOpen(nodes) && PillarsClosed(nodes)
  {
    forall x, y {:trigger nodes[x, y]} | 0 <= x < nodes.Length0 && 0 <= y < nodes.Length1 && x % 2 == 0 && y % 2 == 0
      ensures nodes[x, y].isWalked && !nodes[x, y].isWall
    {
      EvenIsRoom((x, y));
      MatchedRoom(nodes, t, Half((x, y)));
    }
    forall x, y {:trigger nodes[x, y]} | 0 <= x < nodes.Length0 && 0 <= y < nodes.Length1 && x % 2 == 1 && y % 2 == 1
      ensures nodes[x, y].isWall
    {
      assert CellMatches(nodes[x, y], t, (x, y));
    }
  }

  /** The entry links of a finished carve cross open connectors and lead to the origin. */
  lemma FinishedLinks(nodes: array2<Cell>, t: CarveTrace, size: (nat, nat), count: nat)
    requires SizeOf(nodes, size) && TraceOk(t, size, count) && NodesMatch(nodes, t) && count == TotalRooms(size)
    ensures LinksToParent(nodes) && AllReachOrigin(nodes)
  {
    FinishedTraceWalkedAll(t, size, count);
    forall r | RoomIn(nodes, r) && r != Origin ensures TreeLink(nodes, r, RoomAt(nodes, r).passPosHalf) {
      MatchedRoom(nodes, t, r);
      var p := t.parent[r];
      var c := Add(r, p);
      assert c in t.carved;
      assert CellMatches(nodes[c.0, c.1], t, c);
    }
    forall r | RoomIn(nodes, r) ensures ReachesOrigin(nodes, r, RoomsAlong(nodes.Length0) * RoomsAlong(nodes.Length1)) {
      OrderedLinksReachOrigin(nodes, t, size, count, r, RoomsAlong(nodes.Length0) * RoomsAlong(nodes.Length1));
    }
  }

  /** The open connectors of a matched grid are exactly the carved nodes. */
  lemma OpenConnectorsAreCarved(nodes: array2<Cell>, t: CarveTrace, size: (nat, nat))
    requires SizeOf(nodes, size) && CarvedConnectors(t, size) && NodesMatch(nodes, t)
    ensures OpenConnectors(nodes) == t.carved
  {
    forall c | c in t.carved ensures c in OpenConnectors(nodes) {
      var (x, y) := c;
      assert CellMatches(nodes[x, y], t, (x, y));
    }
    forall c | c in OpenConnectors(nodes) ensures c in t.carved {
      var (x, y) := c;
      assert CellMatches(nodes[x, y], t, (x, y));
    }
  }

  /**
   * A grid that matches a trace whose walk reached every room is a perfect
   * maze: carving is complete and the open nodes form a spanning tree.
   */
  lemma FinishedCarveIsPerfect(nodes: array2<Cell>, t: CarveTrace, size: (nat, nat), count: nat)
    requires SizeOf(nodes, size) && TraceOk(t, size, count) && NodesMatch(nodes, t) && count == TotalRooms(size)
    ensures PerfectMaze(nodes)
  {
    FinishedTraceWalkedAll(t, size, count);
    FinishedRoomsAndPillars(nodes, t, size);
    FinishedLinks(nodes, t, size, count);
    OpenConnectorsAreCarved(nodes, t, size);
  }
}
