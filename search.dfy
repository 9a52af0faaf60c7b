/**
 * AStar.cs: the search `PathFinding` over the node arena.
 *
 * The open list is scanned for the entry with the least `(FCost, HCost)`,
 * ties keeping the earliest; the chosen entry is removed and its node marked
 * visited; the target ends the search with the path read back along the
 * `PreviousNode` links; otherwise the in-grid 4-neighbours that are neither
 * walls nor visited are linked back to the current node and appended. There
 * is no check that an appended node is already open, so a node can be open
 * more than once and its link can be overwritten until it is visited.
 *
 * The search is proved against ghost bookkeeping: the visited set `V`, the
 * step at which each node was visited (`order`) and the set of nodes the
 * search has linked back (`linked`). `SearchInv` ties them to the arena.
 */
module Search {
  import opened Options
  import opened Geometry
  import opened Nodes

  /** The node at index `p` of the arena. */
  function At(nodes: array2<Cell>, p: Pos): Cell
    reads nodes
    requires InGrid(nodes, p)
  {
    nodes[p.0, p.1]
  }

  /**
   * `GetNeighbours(node)`: the lookups left, right, up and down of `pos`,
   * none where the neighbour lies outside the grid.
   */
  function GetNeighbours(pos: Pos, size: (nat, nat)): (r: seq<Option<Pos>>)
    ensures |r| == 4
    ensures forall q :: Some(q) in r <==> InBounds(q, size.0, size.1) && Adjacent(pos, q)
  {
    var r := [GetNode(Add(pos, Left), size), GetNode(Add(pos, Right), size),
              GetNode(Add(pos, Up), size), GetNode(Add(pos, Down), size)];
    assert forall q :: Adjacent(pos, q) ==> q in [Add(pos, Left), Add(pos, Right), Add(pos, Up), Add(pos, Down)] by {
      forall q | Adjacent(pos, q) ensures q in [Add(pos, Left), Add(pos, Right), Add(pos, Up), Add(pos, Down)] {
        AdjacentIsDirection(pos, q);
      }
    }
    r
  }

  /** A node the expansion may open: neither a wall nor visited. */
  predicate Unexplored(c: Cell) { !c.isWall && !c.isVisited }

  /** `q` is an in-grid, non-wall 4-neighbour of `v`: a step the search may take. */
  predicate Walkable(nodes: array2<Cell>, v: Pos, q: Pos)
    reads nodes
  {
    InGrid(nodes, q) && Adjacent(v, q) && !At(nodes, q).isWall
  }

  /** The lookups of `ns` that pass `if(!node || node.IsWall || node.IsVisited) continue;`, in order. */
  function FreshAmong(nodes: array2<Cell>, ns: seq<Option<Pos>>): (r: seq<Pos>)
    reads nodes
    requires forall n :: n in ns && n.Some? ==> InGrid(nodes, n.value)
    ensures forall q :: q in r <==> Some(q) in ns && Unexplored(At(nodes, q))
  {
    if ns == [] then []
    else
      var last := ns[|ns| - 1];
      assert forall n :: n in ns <==> n in ns[..|ns| - 1] || n == last;
      FreshAmong(nodes, ns[..|ns| - 1]) + if last.Some? && Unexplored(At(nodes, last.value)) then [last.value] else []
  }

  /** The entries one expansion of node `p` appends to the open list. */
  function Discovered(nodes: array2<Cell>, size: (nat, nat), p: Pos): (r: seq<Pos>)
    reads nodes
    requires SizeOf(nodes, size)
    ensures forall q :: q in r <==> InGrid(nodes, q) && Adjacent(p, q) && Unexplored(At(nodes, q))
  {
    FreshAmong(nodes, GetNeighbours(p, size))
  }

  /** `node.SetPreviousNode(p)` applied to every node of `added`. */
  function Relinked(c: Cell, at: Pos, added: seq<Pos>, p: Pos): Cell {
    if at in added then c.(previousNode := Some(p)) else c
  }

  /** Lookup `n` passes the expansion test: it found a node that is neither a wall nor visited. */
  predicate Passes(nodes: array2<Cell>, n: Option<Pos>)
    reads nodes
  {
    n.Some? && InGrid(nodes, n.value) && Unexplored(At(nodes, n.value))
  }

  /** The positions of the first `n` lookups of `ns` whose `keep` flag is set, in order. */
  function Picked(ns: seq<Option<Pos>>, keep: seq<bool>, n: nat): seq<Pos>
    requires n <= |ns| == |keep|
    requires forall k :: 0 <= k < |keep| && keep[k] ==> ns[k].Some?
  {
    if n == 0 then [] else Picked(ns, keep, n - 1) + if keep[n - 1] then [ns[n - 1].value] else []
  }

  /** Picking the lookups that pass the test is `FreshAmong`. */
  lemma {:induction false} PickedIsFresh(nodes: array2<Cell>, ns: seq<Option<Pos>>, keep: seq<bool>)
    requires |ns| == |keep| && forall n :: n in ns && n.Some? ==> InGrid(nodes, n.value)
    requires forall k :: 0 <= k < |keep| ==> keep[k] == Passes(nodes, ns[k])
    requires forall k :: 0 <= k < |keep| && keep[k] ==> ns[k].Some?
    ensures Picked(ns, keep, |ns|) == FreshAmong(nodes, ns)
    decreases |ns|
  {
    if ns != [] {
      var m := |ns| - 1;
      assert ns[m] in ns;
      PickedIsFresh(nodes, ns[..m], keep[..m]);
      PickedPrefix(ns, keep, m);
    }
  }

  /** `Picked` over a prefix only looks at that prefix. */
  lemma {:induction false} PickedPrefix(ns: seq<Option<Pos>>, keep: seq<bool>, n: nat)
    requires n <= |ns| == |keep|
    requires forall k :: 0 <= k < |keep| && keep[k] ==> ns[k].Some?
    ensures Picked(ns[..n], keep[..n], n) == Picked(ns, keep, n)
    decreases n
  {
    if n > 0 {
      PickedPrefix(ns, keep, n - 1);
      assert ns[..n - 1] == ns[..n][..n - 1] && keep[..n - 1] == keep[..n][..n - 1];
      PickedPrefix(ns[..n], keep[..n], n - 1);
    }
  }

  /**
   * One pass of the expansion loop: a lookup that found a node that is
   * neither a wall nor visited has that node linked back to `current`, and
   * the result says it is to be appended.
   */
  method LinkIfFresh(nodes: array2<Cell>, node: Option<Pos>, current: Pos) returns (added: bool)
    requires node.Some? ==> InGrid(nodes, node.value)
    modifies nodes
    ensures added == old(Passes(nodes, node))
    ensures forall x, y {:trigger nodes[x, y]} :: 0 <= x < nodes.Length0 && 0 <= y < nodes.Length1 ==>
      nodes[x, y] == Relinked(old(nodes[x, y]), (x, y), if added then [node.value] else [], current)
  {
    if node.None? || nodes[node.value.0, node.value.1].isWall || nodes[node.value.0, node.value.1].isVisited {
      return false;
    }
    SetPreviousNode(nodes, node.value, current);
    return true;
  }

  /** Relinking `a` and then `b` to the same node is relinking `a + b`. */
  lemma RelinkedTwice(a: seq<Pos>, b: seq<Pos>, p: Pos)
    ensures forall c, at :: Relinked(Relinked(c, at, a, p), at, b, p) == Relinked(c, at, a + b, p)
  {
  }

  /**
   * The expansion loop of `PathFinding`: every neighbour of `current` that
   * exists and is neither a wall nor visited is linked back to `current`
   * and appended to the open list, in the order left, right, up, down.
   */
  method Expand(nodes: array2<Cell>, size: (nat, nat), current: Pos, openNodes: seq<Pos>) returns (openNodes': seq<Pos>)
    requires SizeOf(nodes, size) && InGrid(nodes, current)
    modifies nodes
    ensures openNodes' == openNodes + old(Discovered(nodes, size, current))
    ensures forall x, y {:trigger nodes[x, y]} :: 0 <= x < nodes.Length0 && 0 <= y < nodes.Length1 ==>
      nodes[x, y] == Relinked(old(nodes[x, y]), (x, y), old(Discovered(nodes, size, current)), current)
  {
    var neighbours := GetNeighbours(current, size);
    // Which lookups pass the test, judged on the arena before the loop.
    ghost var keep := seq(4, k reads nodes requires 0 <= k < 4 => Passes(nodes, neighbours[k]));
    PickedIsFresh(nodes, neighbours, keep);
    openNodes' := LinkEach(nodes, neighbours, current, openNodes, keep);
  }

  /**
   * The loop over the four lookups: each that passes the test has its node
   * linked back to `current` and appended, in order.
   */
  method LinkEach(nodes: array2<Cell>, neighbours: seq<Option<Pos>>, current: Pos, openNodes: seq<Pos>, ghost keep: seq<bool>)
    returns (openNodes': seq<Pos>)
    requires |neighbours| == |keep| && forall n :: n in neighbours && n.Some? ==> InGrid(nodes, n.value)
    requires forall k :: 0 <= k < |keep| ==> keep[k] == Passes(nodes, neighbours[k])
    requires forall k :: 0 <= k < |keep| && keep[k] ==> neighbours[k].Some?
    modifies nodes
    ensures openNodes' == openNodes + Picked(neighbours, keep, |neighbours|)
    ensures forall x, y {:trigger nodes[x, y]} :: 0 <= x < nodes.Length0 && 0 <= y < nodes.Length1 ==>
      nodes[x, y] == Relinked(old(nodes[x, y]), (x, y), Picked(neighbours, keep, |neighbours|), current)
  {
    openNodes' := openNodes;
    for i := 0 to |neighbours|
      invariant openNodes' == openNodes + Picked(neighbours, keep, i)
      invariant forall x, y {:trigger nodes[x, y]} :: 0 <= x < nodes.Length0 && 0 <= y < nodes.Length1 ==>
        nodes[x, y] == Relinked(old(nodes[x, y]), (x, y), Picked(neighbours, keep, i), current)
    {
      var node := neighbours[i];
      if node.Some? {
        assert node in neighbours;
        assert nodes[node.value.0, node.value.1] == Relinked(old(nodes[node.value.0, node.value.1]), node.value, Picked(neighbours, keep, i), current);
      }
      var added := LinkIfFresh(nodes, node, current);
      if added {
        openNodes' := openNodes' + [node.value];
      }
      RelinkedTwice(Picked(neighbours, keep, i), if added then [node.value] else [], current);
    }
  }

  /** The ordering key of an open entry: `(FCost, HCost)`. */
  function Key(nodes: array2<Cell>, p: Pos): (int, int)
    reads nodes
    requires InGrid(nodes, p)
  {
    (FCost(At(nodes, p)), At(nodes, p).hCost)
  }

  /** Key `a` is strictly below key `b` in the order `FCost` first, then `HCost`. */
  predicate Better(a: (int, int), b: (int, int)) {
    a.0 < b.0 || (a.0 == b.0 && a.1 < b.1)
  }

  /**
   * Entry `i` of the open list takes part in the selection scan: the first
   * entry always, a later one only when its node is neither a wall nor
   * visited.
   */
  predicate Candidate(nodes: array2<Cell>, openNodes: seq<Pos>, i: int)
    reads nodes
    requires forall p :: p in openNodes ==> InGrid(nodes, p)
  {
    0 <= i < |openNodes| && (i == 0 || Unexplored(At(nodes, openNodes[i])))
  }

  /**
   * Index `k` is what the selection scan chooses: a candidate whose key no
   * candidate beats, and strictly better than every earlier candidate, so
   * ties keep the earliest.
   */
  ghost predicate ScanChoice(nodes: array2<Cell>, openNodes: seq<Pos>, k: int)
    reads nodes
    requires forall p :: p in openNodes ==> InGrid(nodes, p)
  {
    Candidate(nodes, openNodes, k) &&
    (forall j :: Candidate(nodes, openNodes, j) ==> !Better(Key(nodes, openNodes[j]), Key(nodes, openNodes[k]))) &&
    (forall j :: 0 <= j < k && Candidate(nodes, openNodes, j) ==> Better(Key(nodes, openNodes[k]), Key(nodes, openNodes[j])))
  }

  /**
   * The selection scan of `PathFinding`: starting from entry 0, each later
   * candidate first has its costs calculated (a no-op, since no node has
   * `IsCalculated` set) and replaces the current choice only when its key is
   * strictly better.
   */
  method SelectCurrent(nodes: array2<Cell>, openNodes: seq<Pos>, start: Pos, target: Pos) returns (currentIndex: int)
    requires |openNodes| > 0 && (forall p :: p in openNodes ==> InGrid(nodes, p))
    requires InGrid(nodes, start) && InGrid(nodes, target) && CostsUntouched(nodes)
    modifies nodes
    ensures unchanged(nodes)
    ensures ScanChoice(nodes, openNodes, currentIndex)
  {
    var currentNode := openNodes[0];
    currentIndex := 0;
    for i := 1 to |openNodes|
      invariant unchanged(nodes)
      invariant currentIndex < i && Candidate(nodes, openNodes, currentIndex) && currentNode == openNodes[currentIndex] && InGrid(nodes, currentNode)
      invariant forall j :: 0 <= j < i && Candidate(nodes, openNodes, j) ==> !Better(Key(nodes, openNodes[j]), Key(nodes, currentNode))
      invariant forall j :: 0 <= j < currentIndex && Candidate(nodes, openNodes, j) ==> Better(Key(nodes, currentNode), Key(nodes, openNodes[j]))
    {
      var node := openNodes[i];
      assert node in openNodes;
      if nodes[node.0, node.1].isWall || nodes[node.0, node.1].isVisited {
        continue;
      }
      CalculateCost(nodes, node, nodes[start.0, start.1].position, nodes[target.0, target.1].position);
      if FCost(nodes[currentNode.0, currentNode.1]) < FCost(nodes[node.0, node.1]) {
        continue;
      }
      if FCost(nodes[currentNode.0, currentNode.1]) == FCost(nodes[node.0, node.1]) &&
         nodes[currentNode.0, currentNode.1].hCost <= nodes[node.0, node.1].hCost {
        continue;
      }
      currentNode := node;
      currentIndex := i;
    }
  }

  /**
   * With every cost still 0 the scan never moves off the first entry, so the
   * open list is served first in, first out.
   */
  lemma ScanKeepsFirst(nodes: array2<Cell>, openNodes: seq<Pos>, k: int)
    requires forall p :: p in openNodes ==> InGrid(nodes, p)
    requires CostsUntouched(nodes) && ScanChoice(nodes, openNodes, k)
    ensures k == 0
  {
    if k != 0 {
      var p, q := openNodes[0], openNodes[k];
      assert p in openNodes && q in openNodes;
      assert nodes[p.0, p.1].gCost == 0 && nodes[p.0, p.1].hCost == 0;
      assert nodes[q.0, q.1].gCost == 0 && nodes[q.0, q.1].hCost == 0;
      assert Candidate(nodes, openNodes, 0);
      assert false;
    }
  }

  /** The entries of `s` as a set. */
  function Elements(s: seq<Pos>): (r: set<Pos>)
    ensures forall q :: q in r <==> q in s
  {
    set q | q in s
  }

  /** `_openNodes.RemoveAt(k)`: the list without its entry `k`, the others in order. */
  function RemoveAt(s: seq<Pos>, k: nat): (r: seq<Pos>)
    requires k < |s|
    ensures |r| == |s| - 1
    ensures forall i :: 0 <= i < k ==> r[i] == s[i]
    ensures forall i :: k <= i < |r| ==> r[i] == s[i + 1]
  {
    s[..k] + s[k + 1..]
  }

  /** The number of entries of `s` whose node is in `V`. */
  function CountIn(s: seq<Pos>, V: set<Pos>): (n: nat)
    ensures n <= |s|
  {
    if s == [] then 0 else CountIn(s[..|s| - 1], V) + if s[|s| - 1] in V then 1 else 0
  }

  lemma {:induction false} CountInAppend(s: seq<Pos>, t: seq<Pos>, V: set<Pos>)
    ensures CountIn(s + t, V) == CountIn(s, V) + CountIn(t, V)
    decreases |t|
  {
    if t != [] {
      assert (s + t)[..|s + t| - 1] == s + t[..|t| - 1];
      CountInAppend(s, t[..|t| - 1], V);
    } else {
      assert s + t == s;
    }
  }

  /** Removing an entry whose node is in `V` lowers the count by one. */
  lemma CountInRemoveAt(s: seq<Pos>, k: nat, V: set<Pos>)
    requires k < |s| && s[k] in V
    ensures CountIn(RemoveAt(s, k), V) + 1 == CountIn(s, V)
  {
    assert s == s[..k] + [s[k]] + s[k + 1..];
    CountInAppend(s[..k] + [s[k]], s[k + 1..], V);
    CountInAppend(s[..k], [s[k]], V);
    CountInAppend(s[..k], s[k + 1..], V);
    assert CountIn([s[k]], V) == 1 by {
      assert [s[k]][..0] == [];
    }
  }

  /** No entry of `t` is in `V`: its count is 0. */
  lemma {:induction false} CountInNone(t: seq<Pos>, V: set<Pos>)
    requires forall q :: q in t ==> q !in V
    ensures CountIn(t, V) == 0
    decreases |t|
  {
    if t != [] {
      assert forall q :: q in t[..|t| - 1] ==> q in t;
      CountInNone(t[..|t| - 1], V);
    }
  }

  /** The visited set `V` is exactly the set of nodes whose `IsVisited` is set. */
  ghost predicate VisitedAre(nodes: array2<Cell>, V: set<Pos>)
    reads nodes
  {
    (forall p :: p in V ==> InGrid(nodes, p)) &&
    (forall x, y {:trigger nodes[x, y]} :: 0 <= x < nodes.Length0 && 0 <= y < nodes.Length1 ==> (nodes[x, y].isVisited <==> (x, y) in V))
  }

  /** `order[v]` is the step at which `v` was visited; every step so far is below `|V|`. */
  ghost predicate OrderOk(V: set<Pos>, order: map<Pos, nat>) {
    order.Keys == V && forall v :: v in order ==> order[v] < |V|
  }

  /**
   * Every node the search has linked back is a non-wall node whose
   * `PreviousNode` is a visited 4-neighbour: the start or itself a linked
   * node, and visited before it when it has been visited too. The start is
   * never linked.
   */
  ghost predicate LinksOk(nodes: array2<Cell>, start: Pos, V: set<Pos>, order: map<Pos, nat>, linked: set<Pos>)
    reads nodes
  {
    start !in linked && order.Keys == V &&
    forall c {:trigger LinkOk(nodes, start, V, order, linked, c)} :: c in linked ==> LinkOk(nodes, start, V, order, linked, c)
  }

  /**
   * Node `c` is a non-wall node whose `PreviousNode` is a visited
   * 4-neighbour, the start or a linked node, visited before `c` when `c` is
   * visited too.
   */
  ghost predicate LinkOk(nodes: array2<Cell>, start: Pos, V: set<Pos>, order: map<Pos, nat>, linked: set<Pos>, c: Pos)
    reads nodes
    requires order.Keys == V
  {
    InGrid(nodes, c) && !At(nodes, c).isWall && At(nodes, c).previousNode.Some? &&
    var p := At(nodes, c).previousNode.value;
    p in V && Adjacent(c, p) && (p == start || p in linked) && (c in V ==> order[p] < order[c])
  }

  /** Every open entry is an in-grid node, the start or a linked node. */
  ghost predicate OpenOk(nodes: array2<Cell>, start: Pos, openNodes: seq<Pos>, linked: set<Pos>) {
    forall p :: p in openNodes ==> InGrid(nodes, p) && (p == start || p in linked)
  }

  /** Every walkable neighbour of a visited node is visited or open. */
  ghost predicate FrontierOk(nodes: array2<Cell>, V: set<Pos>, openNodes: seq<Pos>)
    reads nodes
  {
    forall v, q :: v in V && Walkable(nodes, v, q) ==> q in V || q in openNodes
  }

  /**
   * The invariant of the search loop: before the first step only the start
   * is open; after it the start is visited; visited nodes are the start or
   * linked; the target has not been visited yet.
   */
  ghost predicate SearchInv(nodes: array2<Cell>, start: Pos, target: Pos, openNodes: seq<Pos>,
                            V: set<Pos>, order: map<Pos, nat>, linked: set<Pos>)
    reads nodes
  {
    VisitedAre(nodes, V) && OrderOk(V, order) && LinksOk(nodes, start, V, order, linked) &&
    OpenOk(nodes, start, openNodes, linked) && FrontierOk(nodes, V, openNodes) &&
    (V == {} ==> openNodes == [start]) && (V != {} ==> start in V) &&
    (forall v :: v in V ==> v == start || v in linked) &&
    target !in V
  }

  /**
   * A path the search may return: it ends at the target, its first node is
   * a 4-neighbour of the start, consecutive nodes are 4-neighbours, and
   * every node on it is an in-grid non-wall node other than the start.
   */
  ghost predicate ValidPath(nodes: array2<Cell>, start: Pos, target: Pos, path: seq<Pos>)
    reads nodes
  {
    |path| > 0 && path[|path| - 1] == target && Adjacent(start, path[0]) &&
    (forall i :: 0 <= i < |path| - 1 ==> Adjacent(path[i], path[i + 1])) &&
    (forall i :: 0 <= i < |path| ==> InGrid(nodes, path[i]) && !At(nodes, path[i]).isWall && path[i] != start)
  }

  /**
   * Region `S` holds the start, not the target, and every walkable
   * neighbour of each of its nodes: no walk from the start reaches the
   * target.
   */
  ghost predicate Separates(nodes: array2<Cell>, S: set<Pos>, start: Pos, target: Pos)
    reads nodes
  {
    start in S && target !in S && forall v, q :: v in S && Walkable(nodes, v, q) ==> q in S
  }

  /** A valid path never leaves a region closed under walkable steps that holds the start. */
  lemma {:induction false} PathStaysInRegion(nodes: array2<Cell>, S: set<Pos>, start: Pos, target: Pos, path: seq<Pos>, i: nat)
    requires ValidPath(nodes, start, target, path) && i < |path|
    requires start in S && forall v, q :: v in S && Walkable(nodes, v, q) ==> q in S
    ensures path[i] in S
  {
    if i == 0 {
      assert Walkable(nodes, start, path[0]);
    } else {
      PathStaysInRegion(nodes, S, start, target, path, i - 1);
      assert Walkable(nodes, path[i - 1], path[i]);
    }
  }

  /** A separated target has no valid path: an empty result and a path exclude each other. */
  lemma SeparatedHasNoPath(nodes: array2<Cell>, S: set<Pos>, start: Pos, target: Pos, path: seq<Pos>)
    requires Separates(nodes, S, start, target)
    ensures !ValidPath(nodes, start, target, path)
  {
    if ValidPath(nodes, start, target, path) {
      PathStaysInRegion(nodes, S, start, target, path, |path| - 1);
    }
  }

  /** The sequence backwards: `path.Reverse()`. */
  function Reversed(s: seq<Pos>): (r: seq<Pos>)
    ensures |r| == |s| && forall i :: 0 <= i < |s| ==> r[i] == s[|s| - 1 - i]
  {
    if s == [] then [] else Reversed(s[1..]) + [s[0]]
  }

  /**
   * The links read back from the target: `chain[0]` is the target, each
   * node's link is the next one, and the last node's link is `end`.
   */
  ghost predicate BackChain(nodes: array2<Cell>, start: Pos, target: Pos, chain: seq<Pos>, end: Pos)
    reads nodes
  {
    |chain| > 0 && chain[0] == target && Adjacent(chain[|chain| - 1], end) &&
    (forall i :: 0 <= i < |chain| - 1 ==> Adjacent(chain[i], chain[i + 1])) &&
    (forall i :: 0 <= i < |chain| ==> InGrid(nodes, chain[i]) && !At(nodes, chain[i]).isWall && chain[i] != start)
  }

  /** A chain read back to the start is, reversed, a valid path. */
  lemma ReversedChainIsPath(nodes: array2<Cell>, start: Pos, target: Pos, chain: seq<Pos>)
    requires BackChain(nodes, start, target, chain, start)
    ensures ValidPath(nodes, start, target, Reversed(chain))
  {
    var r := Reversed(chain);
    ManhattanSymmetric(chain[|chain| - 1], start);
    forall i | 0 <= i < |r| - 1 ensures Adjacent(r[i], r[i + 1]) {
      var j := |chain| - 2 - i;
      assert r[i] == chain[j + 1] && r[i + 1] == chain[j];
      ManhattanSymmetric(chain[j], chain[j + 1]);
    }
  }

  /**
   * The reconstruction of `PathFinding` once the target is removed from the
   * open list: from the target, each node's position is collected and its
   * `PreviousNode` followed until the start is reached; the collected
   * positions are then reversed. The result is empty when the target is
   * the start, and a valid path otherwise.
   */
  method Reconstruct(nodes: array2<Cell>, start: Pos, target: Pos, ghost V: set<Pos>, ghost order: map<Pos, nat>, ghost linked: set<Pos>)
    returns (path: seq<Pos>)
    requires PositionsIndexed(nodes) && LinksOk(nodes, start, V, order, linked)
    requires target == start || (target in linked && target in V)
    ensures path == [] <==> target == start
    ensures path != [] ==> ValidPath(nodes, start, target, path)
  {
    var collected := [];
    var currentNode := target;
    while currentNode != start
      invariant currentNode == start || (currentNode in linked && currentNode in V)
      invariant collected == [] ==> currentNode == target
      invariant collected != [] ==> BackChain(nodes, start, target, collected, currentNode)
      decreases if currentNode in order then order[currentNode] + 1 else 0
    {
      assert LinkOk(nodes, start, V, order, linked, currentNode);
      var p := At(nodes, currentNode).previousNode.value;
      ghost var prev := collected;
      collected := collected + [At(nodes, currentNode).position];
      assert collected[|collected| - 1] == currentNode;
      currentNode := At(nodes, currentNode).previousNode.value;
      assert forall i :: 0 <= i < |prev| ==> collected[i] == prev[i];
    }
    path := Reversed(collected);
    if collected != [] {
      ReversedChainIsPath(nodes, start, target, collected);
    }
  }

  /**
   * `currentNode.IsVisited = true`: only that flag of that node changes, so
   * the links and the frontier stay as they were and the visited set grows
   * by the node.
   */
  method MarkVisited(nodes: array2<Cell>, start: Pos, current: Pos, openNodes: seq<Pos>,
                     ghost V: set<Pos>, ghost order: map<Pos, nat>, ghost linked: set<Pos>)
    requires InGrid(nodes, current) && PositionsIndexed(nodes) && VisitedAre(nodes, V)
    requires LinksOk(nodes, start, V, order, linked) && FrontierOk(nodes, V, openNodes)
    modifies nodes
    ensures nodes[current.0, current.1] == old(nodes[current.0, current.1]).(isVisited := true)
    ensures forall x, y {:trigger nodes[x, y]} :: 0 <= x < nodes.Length0 && 0 <= y < nodes.Length1 && (x, y) != current ==> nodes[x, y] == old(nodes[x, y])
    ensures PositionsIndexed(nodes) && VisitedAre(nodes, V + {current})
    ensures LinksOk(nodes, start, V, order, linked) && FrontierOk(nodes, V, openNodes)
  {
    nodes[current.0, current.1] := nodes[current.0, current.1].(isVisited := true);
    assert forall q :: InGrid(nodes, q) ==> At(nodes, q).isWall == old(At(nodes, q).isWall) && At(nodes, q).previousNode == old(At(nodes, q).previousNode);
    forall v, q | v in V && Walkable(nodes, v, q) ensures q in V || q in openNodes {
      assert old(Walkable(nodes, v, q));
    }
    forall c | c in linked ensures LinkOk(nodes, start, V, order, linked, c) {
      assert old(LinkOk(nodes, start, V, order, linked, c));
    }
  }

  /** An entry other than the removed one is still in the list after `RemoveAt`. */
  lemma RemoveAtKeeps(s: seq<Pos>, k: nat, q: Pos)
    requires k < |s| && q in s && q != s[k]
    ensures q in RemoveAt(s, k)
  {
    var i :| 0 <= i < |s| && s[i] == q;
    if i < k {
      assert RemoveAt(s, k)[i] == q;
    } else {
      assert RemoveAt(s, k)[i - 1] == q;
    }
  }

  /**
   * Visiting the chosen entry keeps the links: a node visited for the first
   * time is the start or a linked node whose link points to a node visited
   * earlier.
   */
  lemma LinksAfterVisit(nodes: array2<Cell>, start: Pos, current: Pos, V: set<Pos>, order: map<Pos, nat>, linked: set<Pos>)
    requires LinksOk(nodes, start, V, order, linked) && OrderOk(V, order)
    requires current == start || current in linked
    ensures var order' := if current in V then order else order[current := |V|];
      LinksOk(nodes, start, V + {current}, order', linked) && OrderOk(V + {current}, order')
  {
    var order' := if current in V then order else order[current := |V|];
    forall c | c in linked ensures LinkOk(nodes, start, V + {current}, order', linked, c) {
      assert LinkOk(nodes, start, V, order, linked, c);
    }
  }

  /**
   * After the chosen entry is removed and its node visited, every walkable
   * neighbour of a visited node other than the chosen one is still visited
   * or open.
   */
  lemma FrontierAfterRemove(nodes: array2<Cell>, V: set<Pos>, openNodes: seq<Pos>, k: nat)
    requires k < |openNodes| && FrontierOk(nodes, V, openNodes)
    ensures forall v, q :: v in V + {openNodes[k]} && v != openNodes[k] && Walkable(nodes, v, q) ==>
      q in V + {openNodes[k]} || q in RemoveAt(openNodes, k)
  {
    forall v, q | v in V + {openNodes[k]} && v != openNodes[k] && Walkable(nodes, v, q)
      ensures q in V + {openNodes[k]} || q in RemoveAt(openNodes, k)
    {
      if q != openNodes[k] && q !in V {
        RemoveAtKeeps(openNodes, k, q);
      }
    }
  }

  /**
   * Removing the chosen entry and marking its node visited. When the node
   * was not visited yet it is visited at step `|V|`; the loop measure, the
   * number of unvisited nodes and then the number of open entries whose node
   * is visited, goes down.
   */
  method VisitStep(nodes: array2<Cell>, start: Pos, target: Pos, openNodes: seq<Pos>, currentIndex: nat,
                   ghost V: set<Pos>, ghost order: map<Pos, nat>, ghost linked: set<Pos>)
    returns (current: Pos, openNodes': seq<Pos>, ghost V': set<Pos>, ghost order': map<Pos, nat>)
    requires PositionsIndexed(nodes) && SearchInv(nodes, start, target, openNodes, V, order, linked)
    requires ScanChoice(nodes, openNodes, currentIndex)
    requires CostsUntouched(nodes)
    modifies nodes
    ensures current == openNodes[currentIndex] && openNodes' == RemoveAt(openNodes, currentIndex)
    ensures InGrid(nodes, current) && nodes[current.0, current.1] == old(nodes[current.0, current.1]).(isVisited := true)
    ensures forall x, y {:trigger nodes[x, y]} :: 0 <= x < nodes.Length0 && 0 <= y < nodes.Length1 && (x, y) != current ==> nodes[x, y] == old(nodes[x, y])
    ensures PositionsIndexed(nodes) && V' == V + {current}
    ensures VisitedAre(nodes, V') && OrderOk(V', order') && LinksOk(nodes, start, V', order', linked)
    ensures OpenOk(nodes, start, openNodes', linked) && start in V' && (current == start || current in linked)
    ensures forall v :: v in V' ==> v == start || v in linked
    ensures forall v, q :: v in V' && v != current && Walkable(nodes, v, q) ==> q in V' || q in openNodes'
    ensures current != target ==> target !in V'
    ensures current in V ==> V' == V && CountIn(openNodes', V) < CountIn(openNodes, V)
    ensures current !in V ==> |V'| == |V| + 1
    ensures forall x, y {:trigger nodes[x, y]} :: 0 <= x < nodes.Length0 && 0 <= y < nodes.Length1 ==>
      MazeView(nodes[x, y]) == MazeView(old(nodes[x, y])) &&
      (old(nodes[x, y].isVisited) ==> nodes[x, y].isVisited)
    ensures CostsUntouched(nodes)
  {
    current := openNodes[currentIndex];
    assert current in openNodes;
    MarkVisited(nodes, start, current, openNodes, V, order, linked);
    openNodes' := RemoveAt(openNodes, currentIndex);
    V' := V + {current};
    order' := if current in V then order else order[current := |V|];
    LinksAfterVisit(nodes, start, current, V, order, linked);
    FrontierAfterRemove(nodes, V, openNodes, currentIndex);
    if current in V {
      CountInRemoveAt(openNodes, currentIndex, V);
    }
    assert forall p :: p in openNodes' ==> p in openNodes;
  }

  /**
   * Expanding the node just visited: its unexplored neighbours are linked
   * back to it and appended, they join the linked nodes, and the loop
   * invariant holds again.
   */
  method ExpandStep(nodes: array2<Cell>, size: (nat, nat), start: Pos, target: Pos, current: Pos, openNodes: seq<Pos>,
                    ghost V: set<Pos>, ghost order: map<Pos, nat>, ghost linked: set<Pos>)
    returns (openNodes': seq<Pos>, ghost linked': set<Pos>)
    requires SizeOf(nodes, size) && PositionsIndexed(nodes) && InGrid(nodes, current) && current in V && current != target
    requires VisitedAre(nodes, V) && OrderOk(V, order) && LinksOk(nodes, start, V, order, linked)
    requires OpenOk(nodes, start, openNodes, linked) && start in V && (current == start || current in linked)
    requires forall v :: v in V ==> v == start || v in linked
    requires forall v, q :: v in V && v != current && Walkable(nodes, v, q) ==> q in V || q in openNodes
    requires target !in V && CostsUntouched(nodes)
    modifies nodes
    ensures |openNodes| <= |openNodes'| && openNodes'[..|openNodes|] == openNodes
    ensures forall q :: q in openNodes'[|openNodes|..] ==> q !in V
    ensures PositionsIndexed(nodes) && SearchInv(nodes, start, target, openNodes', V, order, linked')
    ensures forall x, y {:trigger nodes[x, y]} :: 0 <= x < nodes.Length0 && 0 <= y < nodes.Length1 ==>
      MazeView(nodes[x, y]) == MazeView(old(nodes[x, y])) &&
      (old(nodes[x, y].isVisited) ==> nodes[x, y].isVisited)
    ensures CostsUntouched(nodes)
  {
    ghost var found := Discovered(nodes, size, current);
    openNodes' := Expand(nodes, size, current, openNodes);
    linked' := linked + Elements(found);
    // A relinked node now points back to `current`; any other linked node kept its link.
    forall c | c in linked' ensures LinkOk(nodes, start, V, order, linked', c) {
      if c in found {
        assert nodes[c.0, c.1] == Relinked(old(nodes[c.0, c.1]), c, found, current);
        ManhattanSymmetric(current, c);
        assert c !in V;
      } else {
        assert old(LinkOk(nodes, start, V, order, linked, c));
        assert nodes[c.0, c.1] == Relinked(old(nodes[c.0, c.1]), c, found, current);
      }
    }
    // No wall flag changed, so the walkable steps are the same.
    forall v, q | v in V && Walkable(nodes, v, q) ensures q in V || q in openNodes' {
      assert nodes[q.0, q.1] == Relinked(old(nodes[q.0, q.1]), q, found, current);
      assert old(Walkable(nodes, v, q));
    }
    assert openNodes'[|openNodes|..] == found;
  }

  /**
   * One pass of the search loop: the selection scan, the removal and visit
   * of the chosen entry, then either the path read back from the target
   * (`done`) or the expansion of the chosen node, after which the loop
   * invariant holds again and the loop measure has gone down.
   */
  method SearchStep(nodes: array2<Cell>, size: (nat, nat), start: Pos, target: Pos, openNodes: seq<Pos>,
                    ghost V: set<Pos>, ghost order: map<Pos, nat>, ghost linked: set<Pos>)
    returns (done: bool, path: seq<Pos>, openNodes': seq<Pos>, ghost V': set<Pos>, ghost order': map<Pos, nat>, ghost linked': set<Pos>)
    requires SizeOf(nodes, size) && InGrid(nodes, start) && InGrid(nodes, target)
    requires PositionsIndexed(nodes) && CostsUntouched(nodes)
    requires |openNodes| > 0 && SearchInv(nodes, start, target, openNodes, V, order, linked)
    modifies nodes
    ensures forall x, y {:trigger nodes[x, y]} :: 0 <= x < nodes.Length0 && 0 <= y < nodes.Length1 ==>
      MazeView(nodes[x, y]) == MazeView(old(nodes[x, y])) &&
      (old(nodes[x, y].isVisited) ==> nodes[x, y].isVisited)
    ensures PositionsIndexed(nodes) && CostsUntouched(nodes)
    ensures done ==> (path == [] <==> start == target) && (path != [] ==> ValidPath(nodes, start, target, path))
    ensures !done ==> path == [] && SearchInv(nodes, start, target, openNodes', V', order', linked')
    ensures !done ==> |V'| == |V| + 1 || (V' == V && CountIn(openNodes', V) < CountIn(openNodes, V))
  {
    var currentIndex := SelectCurrent(nodes, openNodes, start, target);
    var current;
    current, openNodes', V', order' := VisitStep(nodes, start, target, openNodes, currentIndex, V, order, linked);
    linked' := linked;
    if current == target {
      done := true;
      path := Reconstruct(nodes, start, target, V', order', linked);
      return;
    }
    done, path := false, [];
    ghost var open1 := openNodes';
    openNodes', linked' := ExpandStep(nodes, size, start, target, current, openNodes', V', order', linked);
    if current in V {
      CountInAppend(open1, openNodes'[|open1|..], V);
      CountInNone(openNodes'[|open1|..], V);
      assert openNodes' == open1 + openNodes'[|open1|..];
    }
  }

  /**
   * The AStar component: the arena and size of the last search and its
   * open list, all set by `PathFinding`.
   */
  class AStar {
    var nodes: array2<Cell>
    var openNodes: seq<Pos>
    var size: (nat, nat)

    /** `Awake`: an empty open list. */
    constructor ()
      ensures openNodes == [] && size == (0, 0) && nodes.Length0 == 0 && nodes.Length1 == 0
    {
      nodes := new Cell[0, 0];
      openNodes := [];
      size := (0, 0);
    }

    /**
     * `PathFinding(start, target, nodes, size)` on a grid in which no node
     * has been visited or has calculated costs. The result is empty when the
     * start is the target; otherwise it is a valid path to the target, or it
     * is empty and `region` shows that no walk from the start reaches the
     * target. Walls, positions and costs are left unchanged and no
     * `IsVisited` flag is cleared.
     */
    method PathFinding(start: Pos, target: Pos, nodes: array2<Cell>, size: (nat, nat)) returns (path: seq<Pos>, ghost region: set<Pos>)
      requires SizeOf(nodes, size) && InGrid(nodes, start) && InGrid(nodes, target)
      requires PositionsIndexed(nodes) && NoneVisited(nodes) && CostsUntouched(nodes)
      modifies this, nodes
      ensures this.nodes == nodes && this.size == size
      ensures start == target ==> path == []
      ensures path != [] ==> ValidPath(nodes, start, target, path)
      ensures path == [] && start != target ==> Separates(nodes, region, start, target)
      ensures forall x, y {:trigger nodes[x, y]} :: 0 <= x < nodes.Length0 && 0 <= y < nodes.Length1 ==>
        MazeView(nodes[x, y]) == MazeView(old(nodes[x, y])) &&
        (old(nodes[x, y].isVisited) ==> nodes[x, y].isVisited)
      ensures PositionsIndexed(nodes) && CostsUntouched(nodes)
    {
      path := [];
      openNodes := [start];
      this.nodes := nodes;
      this.size := size;
      ghost var V: set<Pos> := {};
      ghost var order: map<Pos, nat> := map[];
      ghost var linked: set<Pos> := {};
      region := {};
      while |openNodes| > 0
        invariant this.nodes == nodes && this.size == size && path == []
        invariant InGrid(nodes, start) && InGrid(nodes, target)
        invariant PositionsIndexed(nodes) && CostsUntouched(nodes)
        invariant SearchInv(nodes, start, target, openNodes, V, order, linked)
        invariant forall x, y {:trigger nodes[x, y]} :: 0 <= x < nodes.Length0 && 0 <= y < nodes.Length1 ==>
          MazeView(nodes[x, y]) == MazeView(old(nodes[x, y])) &&
          (old(nodes[x, y].isVisited) ==> nodes[x, y].isVisited)
        decreases size.0 * size.1 - |V|, CountIn(openNodes, V)
      {
        GridBoundsVisited(nodes, V);
        var done;
        done, path, openNodes, V, order, linked := SearchStep(nodes, size, start, target, openNodes, V, order, linked);
        if done {
          break;
        }
        GridBoundsVisited(nodes, V);
      }
      region := V;
    }
  }

  /** The visited set lies in the grid, so it is no larger than the grid. */
  lemma GridBoundsVisited(nodes: array2<Cell>, V: set<Pos>)
    requires VisitedAre(nodes, V)
    ensures |V| <= nodes.Length0 * nodes.Length1
  {
    assert V <= Rect(nodes.Length0, nodes.Length1);
    SubsetSize(V, Rect(nodes.Length0, nodes.Length1));
    RectSize(nodes.Length0, nodes.Length1);
  }
}
