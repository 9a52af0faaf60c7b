/**
 * Integer grid coordinates (Unity's `Vector2Int`), the four unit directions
 * and facts about rectangles of coordinates: how many positions they hold and
 * that any set closed under 4-adjacency that holds the corner holds them all.
 */
module Geometry {

  /** A grid position or a grid vector `(x, y)`. */
  type Pos = (int, int)

  // Unity's Vector2Int.left, .right, .up and .down.
  const Left: Pos := (-1, 0)
  const Right: Pos := (1, 0)
  const Up: Pos := (0, 1)
  const Down: Pos := (0, -1)

  /** The order in which both the maze generator and the search visit neighbours. */
  const Directions: seq<Pos> := [Left, Right, Up, Down]

  function Add(a: Pos, b: Pos): Pos { (a.0 + b.0, a.1 + b.1) }

  /** `pos * 2`: the full-grid cell of a half-lattice room. */
  function Twice(p: Pos): Pos { (2 * p.0, 2 * p.1) }

  function Abs(n: int): nat { if n < 0 then -n else n }

  /** `Mathf.Abs(dx) + Mathf.Abs(dy)`. */
  function Manhattan(a: Pos, b: Pos): (d: nat)
    ensures d == 0 <==> a == b
  {
    Abs(a.0 - b.0) + Abs(a.1 - b.1)
  }

  lemma ManhattanSymmetric(a: Pos, b: Pos)
    ensures Manhattan(a, b) == Manhattan(b, a)
  {
  }

  /** Two positions one unit step apart, horizontally or vertically. */
  predicate Adjacent(a: Pos, b: Pos) { Manhattan(a, b) == 1 }

  predicate InBounds(p: Pos, w: int, h: int) { 0 <= p.0 < w && 0 <= p.1 < h }

  /** The 4-neighbours of `p` are exactly `p` plus one of the four directions. */
  lemma AdjacentIsDirection(p: Pos, q: Pos)
    ensures Adjacent(p, q) <==> q in [Add(p, Left), Add(p, Right), Add(p, Up), Add(p, Down)]
  {
  }

  /** All positions of a `w x h` rectangle anchored at the origin. */
  function Rect(w: nat, h: nat): (r: set<Pos>)
    ensures forall p :: p in r <==> InBounds(p, w, h)
  {
    set x, y | 0 <= x < w && 0 <= y < h :: (x, y)
  }

  function Row(w: nat, y: int): (r: set<Pos>)
    ensures forall p :: p in r <==> 0 <= p.0 < w && p.1 == y
  {
    set x | 0 <= x < w :: (x, y)
  }

  lemma {:induction false} RowSize(w: nat, y: int)
    ensures |Row(w, y)| == w
  {
    if w > 0 {
      assert Row(w, y) == Row(w - 1, y) + {(w - 1, y)};
      RowSize(w - 1, y);
    } else {
      assert Row(w, y) == {};
    }
  }

  /** A `w x h` rectangle holds `w * h` positions. */
  lemma {:induction false} RectSize(w: nat, h: nat)
    ensures |Rect(w, h)| == w * h
  {
    if h > 0 {
      var top, row := Rect(w, h - 1), Row(w, h - 1);
      assert Rect(w, h) == top + row by {
        forall p ensures p in Rect(w, h) <==> p in top + row { }
      }
      assert top !! row;
      RectSize(w, h - 1);
      RowSize(w, h - 1);
      assert |top + row| == |top| + |row|;
      assert w * h == w * (h - 1) + w;
    } else {
      assert Rect(w, h) == {};
    }
  }

  /** A subset is no larger than its superset. */
  lemma {:induction false} SubsetSize<T>(a: set<T>, b: set<T>)
    requires a <= b
    ensures |a| <= |b|
    decreases a
  {
    if a != {} {
      var x :| x in a;
      SubsetSize(a - {x}, b - {x});
    }
  }

  /** A subset of a finite set of the same size is the whole set. */
  lemma SubsetOfSameSize<T>(a: set<T>, b: set<T>)
    requires a <= b && |a| >= |b|
    ensures a == b
  {
    if a != b {
      assert !(b <= a);
      var x :| x in b && x !in a;
      SubsetSize(a, b - {x});
    }
  }

  /** `S` contains every in-bounds 4-neighbour of each of its members. */
  ghost predicate ClosedIn(S: set<Pos>, w: int, h: int) {
    forall p, q :: p in S && InBounds(q, w, h) && Adjacent(p, q) ==> q in S
  }

  lemma {:induction false} ClosedReachesColumn(S: set<Pos>, w: int, h: int, x: int, y: int)
    requires ClosedIn(S, w, h) && (x, 0) in S
    requires 0 <= y < h && 0 <= x < w
    ensures (x, y) in S
  {
    if y > 0 {
      ClosedReachesColumn(S, w, h, x, y - 1);
      assert Adjacent((x, y - 1), (x, y));
    }
  }

  lemma {:induction false} ClosedReachesRow(S: set<Pos>, w: int, h: int, x: int)
    requires ClosedIn(S, w, h) && (0, 0) in S
    requires 0 <= x < w && h > 0
    ensures (x, 0) in S
  {
    if x > 0 {
      ClosedReachesRow(S, w, h, x - 1);
      assert Adjacent((x - 1, 0), (x, 0));
    }
  }

  /**
   * The rectangle is connected under 4-adjacency: a set closed under it that
   * contains the origin corner contains the whole rectangle.
   */
  lemma ClosedSetCoversRect(S: set<Pos>, w: nat, h: nat)
    requires w > 0 && h > 0 && (0, 0) in S && ClosedIn(S, w, h)
    ensures Rect(w, h) <= S
  {
    forall p | p in Rect(w, h) ensures p in S {
      ClosedReachesRow(S, w, h, p.0);
      ClosedReachesColumn(S, w, h, p.0, p.1);
    }
  }
}
