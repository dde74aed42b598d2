/**
 * The staggered lattice of the bubble board: how a slot (row, column) maps
 * to world coordinates and which six slots count as its neighbours.
 *
 * Rows are 2r apart; odd rows are shifted right by one radius. Row parity
 * uses Dafny's `%`, which for the divisor 2 agrees with Python's `%` also on
 * negative rows (-1 % 2 == 1): a row index of -1 is an odd row.
 */
module Lattice {

  /** A lattice address. Out-of-range addresses (row -1, col -1) are values too. */
  datatype Slot = Slot(row: int, col: int)

  datatype Point = Point(x: real, y: real)

  /** 0 for even rows, 1 for odd rows (also for negative rows). */
  function Parity(row: int): (p: int)
    ensures p == 0 || p == 1
  {
    row % 2
  }

  /**
   * World position of the centre of a slot: `get_bubble_world_position`.
   * Measured in radii, the centre lies 1 + 2 * col (plus one on odd rows)
   * across and 1 + 2 * row down from the scrolled top.
   */
  function WorldPosition(r: real, top: real, s: Slot): (p: Point)
    ensures p.x == r * (XUnits(s) as real)
    ensures p.y == r * ((1 + 2 * s.row) as real) + top
  {
    var y := r + 2.0 * r * (s.row as real);
    if Parity(s.row) == 1 then Point(2.0 * r + 2.0 * r * (s.col as real), y + top)
    else Point(r + 2.0 * r * (s.col as real), y + top)
  }

  /**
   * The six neighbour candidates, in the order `get_neighborhood_indexes` lists them:
   * left, right, up, down, then the two diagonals, which lie at col - 1 on
   * even rows and at col + 1 on odd rows.
   */
  function NeighborhoodIndexes(s: Slot): (ns: seq<Slot>)
    ensures |ns| == 6
  {
    var row, col := s.row, s.col;
    var straight := [Slot(row, col - 1), Slot(row, col + 1), Slot(row - 1, col), Slot(row + 1, col)];
    if Parity(row) == 0 then straight + [Slot(row - 1, col - 1), Slot(row + 1, col - 1)]
    else straight + [Slot(row - 1, col + 1), Slot(row + 1, col + 1)]
  }

  function SquaredDistance(p: Point, q: Point): real {
    (p.x - q.x) * (p.x - q.x) + (p.y - q.y) * (p.y - q.y)
  }

  /**
   * The squared distance of two slot centres measured in units of r*r:
   * the horizontal gap is r * (2 * dcol + dparity), the vertical one 2r * drow.
   */
  function Gap(a: Slot, b: Slot): int {
    var u := 2 * (b.col - a.col) + (Parity(b.row) - Parity(a.row));
    var v := b.row - a.row;
    u * u + 4 * (v * v)
  }

  lemma SquareAtMostOne(t: int)
    requires t * t <= 1
    ensures -1 <= t <= 1
  {
  }

  lemma SquareAtMostFive(t: int)
    requires t * t <= 5
    ensures -2 <= t <= 2
  {
  }

  /** The six candidates are exactly the slots at lattice gap 1 to 5. */
  lemma NeighborIffGap(a: Slot, b: Slot)
    ensures b in NeighborhoodIndexes(a) <==> 1 <= Gap(a, b) <= 5
  {
    var u := 2 * (b.col - a.col) + (Parity(b.row) - Parity(a.row));
    var v := b.row - a.row;
    assert Gap(a, b) == u * u + 4 * (v * v);
    if 1 <= Gap(a, b) <= 5 {
      assert u * u >= 0;
      SquareAtMostOne(v);
      if v == 0 {
        assert Parity(b.row) == Parity(a.row);
        SquareAtMostFive(u);
      } else {
        assert v * v == 1;
        SquareAtMostOne(u);
        assert Parity(b.row) != Parity(a.row);
      }
    }
  }

  lemma GapSymmetric(a: Slot, b: Slot)
    ensures Gap(a, b) == Gap(b, a)
  {
    var u := 2 * (b.col - a.col) + (Parity(b.row) - Parity(a.row));
    var v := b.row - a.row;
    assert (-u) * (-u) == u * u;
    assert (-v) * (-v) == v * v;
  }

  /** Hex adjacency is symmetric: the parity rule for the diagonals is consistent. */
  lemma NeighborSymmetric(a: Slot, b: Slot)
    requires b in NeighborhoodIndexes(a)
    ensures a in NeighborhoodIndexes(b)
  {
    NeighborIffGap(a, b);
    GapSymmetric(a, b);
    NeighborIffGap(b, a);
  }

  /** The six candidates are pairwise distinct and never the slot itself. */
  lemma NeighborsDistinct(s: Slot)
    ensures forall i, j :: 0 <= i < j < 6 ==> NeighborhoodIndexes(s)[i] != NeighborhoodIndexes(s)[j]
    ensures s !in NeighborhoodIndexes(s)
  {
  }

  /** Horizontal position of a slot centre in units of r. */
  function XUnits(s: Slot): int {
    1 + 2 * s.col + Parity(s.row)
  }

  lemma SquareOfScaled(r: real, u: int)
    ensures (r * (u as real)) * (r * (u as real)) == r * r * ((u * u) as real)
  {
  }

  /** Two points at r times integer coordinates, shifted alike vertically, are r*r times the integer distance apart. */
  lemma ScaledPoints(r: real, top: real, p: Point, q: Point, xa: int, ya: int, xb: int, yb: int, n: int)
    requires p.x == r * (xa as real) && p.y == r * (ya as real) + top
    requires q.x == r * (xb as real) && q.y == r * (yb as real) + top
    requires n == (xa - xb) * (xa - xb) + (ya - yb) * (ya - yb)
    ensures SquaredDistance(p, q) == r * r * (n as real)
  {
    var u, v := xa - xb, ya - yb;
    assert p.x - q.x == r * (u as real);
    assert p.y - q.y == r * (v as real);
    SquareOfScaled(r, u);
    SquareOfScaled(r, v);
  }

  /**
   * In lattice units the centres of a and b lie XUnits across and 1 + 2 * row
   * down; the sum of their squared differences.
   */
  function UnitsSquare(a: Slot, b: Slot): int {
    var dx, dy := XUnits(a) - XUnits(b), (1 + 2 * a.row) - (1 + 2 * b.row);
    dx * dx + dy * dy
  }

  /** The squared differences of the centres in lattice units sum to the gap. */
  lemma UnitsGap(a: Slot, b: Slot)
    ensures UnitsSquare(a, b) == Gap(a, b)
  {
    var v := a.row - b.row;
    var dy := (1 + 2 * a.row) - (1 + 2 * b.row);
    assert dy == 2 * v;
    assert dy * dy == 4 * (v * v);
    GapSymmetric(a, b);
  }

  /** The squared world distance of two slot centres, from their coordinates in lattice units. */
  lemma SlotsScaled(r: real, top: real, a: Slot, b: Slot, n: int)
    requires n == UnitsSquare(a, b)
    ensures SquaredDistance(WorldPosition(r, top, a), WorldPosition(r, top, b)) == r * r * (n as real)
  {
    ScaledPoints(r, top, WorldPosition(r, top, a), WorldPosition(r, top, b),
                 XUnits(a), 1 + 2 * a.row, XUnits(b), 1 + 2 * b.row, n);
  }

  /** Squared world distance of two slot centres is r*r times their lattice gap. */
  lemma DistanceIsScaledGap(r: real, top: real, a: Slot, b: Slot)
    ensures SquaredDistance(WorldPosition(r, top, a), WorldPosition(r, top, b)) == r * r * (Gap(a, b) as real)
  {
    UnitsGap(a, b);
    SlotsScaled(r, top, a, b, Gap(a, b));
  }

  lemma SquareAtLeastOne(t: int)
    requires t != 0
    ensures t * t >= 1
  {
    if t < 0 {
      assert t * t == (-t) * (-t);
    }
  }

  /** Distinct slots are at least 4 apart in lattice units: two radii, squared. */
  lemma GapAtLeastFour(a: Slot, b: Slot)
    requires a != b
    ensures Gap(a, b) >= 4
  {
    var d := b.col - a.col;
    var u := 2 * d + (Parity(b.row) - Parity(a.row));
    var v := b.row - a.row;
    assert Gap(a, b) == u * u + 4 * (v * v);
    if v == 0 {
      assert u == 2 * d;
      assert u * u == 4 * (d * d);
      SquareAtLeastOne(d);
    } else {
      SquareAtLeastOne(v);
      assert u * u >= 0;
    }
  }

  lemma ScaledAtLeastFour(k: real, n: int)
    requires k >= 0.0 && n >= 4
    ensures k * (n as real) >= 4.0 * k
  {
  }

  /** The centres of two different slots are at least two radii apart. */
  lemma DistinctSlotsApart(r: real, top: real, a: Slot, b: Slot)
    requires a != b
    ensures SquaredDistance(WorldPosition(r, top, a), WorldPosition(r, top, b)) >= (r + r) * (r + r)
  {
    DistanceIsScaledGap(r, top, a, b);
    GapAtLeastFour(a, b);
    assert r * r >= 0.0;
    ScaledAtLeastFour(r * r, Gap(a, b));
    assert (r + r) * (r + r) == 4.0 * (r * r);
  }

  lemma PositiveSquare(r: real)
    requires r > 0.0
    ensures r * r > 0.0
  {
  }

  lemma GapZeroIffSame(a: Slot, b: Slot)
    ensures Gap(a, b) >= 0
    ensures Gap(a, b) == 0 <==> a == b
  {
    var u := 2 * (b.col - a.col) + (Parity(b.row) - Parity(a.row));
    var v := b.row - a.row;
    assert u * u >= 0 && v * v >= 0;
    if Gap(a, b) == 0 {
      assert u * u == 0 && v * v == 0;
      assert Parity(b.row) == Parity(a.row);
    }
  }

  /** Distinct slots have distinct centres (for a positive radius). */
  lemma WorldPositionInjective(r: real, top: real, a: Slot, b: Slot)
    requires r > 0.0
    requires WorldPosition(r, top, a) == WorldPosition(r, top, b)
    ensures a == b
  {
    DistanceIsScaledGap(r, top, a, b);
    GapZeroIffSame(a, b);
    PositiveSquare(r);
  }
}
