/**
 * The board as a value: a jagged array of rows of optional bubbles, and the
 * notions the flood fills are specified with (adjacency of resting bubbles,
 * sets closed under adjacency, the component reachable from some seeds).
 *
 * A resting bubble records its own row and column, and the board keeps that
 * record equal to the slot the bubble sits in (`Consistent`). Two different
 * slots therefore never hold equal values, so membership of a bubble value in
 * a list is the same test as the object identity the game uses.
 */
module Board {
  import opened Lattice

  datatype Option<T> = None | Some(value: T)

  /**
   * A bubble: the slot it rests in (-1, -1 while it flies), its centre, its
   * radius and its colour index; kind -1 marks the decorative row-0 bubbles.
   */
  datatype Bubble = Bubble(row: int, col: int, x: real, y: real, r: real, kind: int)

  type Row = seq<Option<Bubble>>
  type Grid = seq<Row>

  /** The flood-fill filter: a colour index, or "any" bubble at all. */
  datatype Filter = Any | OfKind(kind: int)

  function SlotOf(b: Bubble): Slot {
    Slot(b.row, b.col)
  }

  predicate InGrid(g: Grid, s: Slot) {
    0 <= s.row < |g| && 0 <= s.col < |g[s.row]|
  }

  /** Bounds-checked read: every address outside the jagged array reads as empty. */
  function BubbleAt(g: Grid, s: Slot): (o: Option<Bubble>)
    ensures !InGrid(g, s) ==> o == None
    ensures InGrid(g, s) ==> o == g[s.row][s.col]
  {
    if s.row >= |g| || s.row < 0 then None
    else if s.col >= |g[s.row]| || s.col < 0 then None
    else g[s.row][s.col]
  }

  /** b rests in the slot it records. */
  predicate Holds(g: Grid, b: Bubble) {
    InGrid(g, SlotOf(b)) && g[b.row][b.col] == Some(b)
  }

  /** Every resting bubble records the slot it occupies. */
  predicate Consistent(g: Grid) {
    forall i, j :: 0 <= i < |g| && 0 <= j < |g[i]| && g[i][j].Some? ==> SlotOf(g[i][j].value) == Slot(i, j)
  }

  function Centre(b: Bubble): Point {
    Point(b.x, b.y)
  }

  /** Every resting bubble has radius r and sits exactly at the lattice centre of its slot. */
  predicate Centred(g: Grid, r: real, top: real) {
    forall i, j :: 0 <= i < |g| && 0 <= j < |g[i]| && g[i][j].Some? ==>
      Centre(g[i][j].value) == WorldPosition(r, top, Slot(i, j)) && g[i][j].value.r == r
  }

  /** Even rows are `width` long, odd rows one shorter. */
  function RowWidth(width: int, row: int): int {
    if Parity(row) == 0 then width else width - 1
  }

  predicate Shaped(g: Grid) {
    |g| > 0 && |g[0]| > 0 && forall i :: 0 <= i < |g| ==> |g[i]| == RowWidth(|g[0]|, i)
  }

  function EmptyRow(n: nat): (row: Row)
    ensures |row| == n && forall j :: 0 <= j < n ==> row[j] == None
  {
    seq(n, _ => None)
  }

  /** The resting bubbles of a board. */
  function Occupied(g: Grid): set<Bubble> {
    set i, j | 0 <= i < |g| && 0 <= j < |g[i]| && g[i][j].Some? :: g[i][j].value
  }

  /** The resting bubbles of row 0, the anchors of the board. */
  function Row0(g: Grid): set<Bubble> {
    if |g| == 0 then {} else set j | 0 <= j < |g[0]| && g[0][j].Some? :: g[0][j].value
  }

  function Members(s: seq<Bubble>): set<Bubble> {
    set b | b in s
  }

  predicate Distinct(s: seq<Bubble>) {
    forall i, j :: 0 <= i < j < |s| ==> s[i] != s[j]
  }

  /** The bubbles found at `slots`, in that order, skipping empty and out-of-range ones. */
  function Occupants(g: Grid, slots: seq<Slot>): seq<Bubble> {
    if slots == [] then []
    else
      var last := BubbleAt(g, slots[|slots| - 1]);
      Occupants(g, slots[..|slots| - 1]) + (if last.Some? then [last.value] else [])
  }

  predicate Matches(b: Bubble, f: Filter) {
    f.Any? || b.kind == f.kind
  }

  /** a and b are resting bubbles and b's slot is one of a's six neighbour candidates. */
  predicate Adjacent(g: Grid, a: Bubble, b: Bubble) {
    Holds(g, a) && Holds(g, b) && SlotOf(b) in NeighborhoodIndexes(SlotOf(a))
  }

  /** S is closed under stepping to adjacent bubbles that pass the filter. */
  ghost predicate Closed(g: Grid, S: set<Bubble>, f: Filter) {
    forall a, b :: a in S && Adjacent(g, a, b) && Matches(b, f) ==> b in S
  }

  /**
   * The resting bubbles reachable from the seeds by steps to adjacent bubbles
   * that pass the filter: those that lie in every closed set holding the seeds.
   */
  ghost function Reach(g: Grid, seeds: set<Bubble>, f: Filter): set<Bubble> {
    set b | b in Occupied(g) && forall S :: seeds <= S && Closed(g, S, f) ==> b in S
  }

  /**
   * What one call of the recursive flood fill does to its accumulator, from
   * seed `seed` on board g: `group` before the call, `out` after it.
   */
  ghost predicate FloodGrown(g: Grid, seed: Bubble, f: Filter, group: seq<Bubble>, out: seq<Bubble>) {
    // the accumulator only grows at its end
    && |group| <= |out| && out[..|group|] == group
    // a seed of the wrong colour, or one already collected, adds nothing
    && (!Matches(seed, f) || seed in group ==> out == group)
    && (Matches(seed, f) ==> seed in out)
    // nothing is collected twice
    && (Distinct(group) ==> Distinct(out))
    // only resting bubbles that pass the filter are added
    && (forall i :: |group| <= i < |out| ==> Holds(g, out[i]) && Matches(out[i], f))
    // every matching neighbour of a newly added bubble is collected
    && (forall i, n :: |group| <= i < |out| && Adjacent(g, out[i], n) && Matches(n, f) ==> n in out)
    // and only bubbles reachable from the seed through bubbles not yet collected are added
    && (forall S :: seed in S && ClosedOutside(g, S, f, group) ==> forall i :: |group| <= i < |out| ==> out[i] in S)
  }

  /** S is closed under stepping to adjacent bubbles that pass the filter and are not in `group`. */
  ghost predicate ClosedOutside(g: Grid, S: set<Bubble>, f: Filter, group: seq<Bubble>) {
    forall a, b :: a in S && Adjacent(g, a, b) && Matches(b, f) && b !in group ==> b in S
  }

  /** The board with every resting bubble of C taken out of its slot. */
  function Without(g: Grid, C: set<Bubble>): (h: Grid)
    ensures |h| == |g|
    ensures forall i :: 0 <= i < |g| ==> |h[i]| == |g[i]|
    ensures forall i, j :: 0 <= i < |g| && 0 <= j < |g[i]| ==>
              h[i][j] == if g[i][j].Some? && g[i][j].value in C then None else g[i][j]
  {
    seq(|g|, i requires 0 <= i < |g| =>
      seq(|g[i]|, j requires 0 <= j < |g[i]| =>
        if g[i][j].Some? && g[i][j].value in C then None else g[i][j]))
  }

  /** The resting bubbles of one row that lie in D, left to right. */
  function RowListed(row: Row, D: set<Bubble>): seq<Bubble> {
    if row == [] then []
    else
      var last := row[|row| - 1];
      RowListed(row[..|row| - 1], D) + (if last.Some? && last.value in D then [last.value] else [])
  }

  /** The resting bubbles of the board that lie in D, row by row from row 0. */
  function Listed(g: Grid, D: set<Bubble>): seq<Bubble> {
    if g == [] then [] else Listed(g[..|g| - 1], D) + RowListed(g[|g| - 1], D)
  }

  // ---------------------------------------------------------------------
  // Lemmas about the board
  // ---------------------------------------------------------------------

  lemma OccupiedIffHolds(g: Grid, b: Bubble)
    requires Consistent(g)
    ensures b in Occupied(g) <==> Holds(g, b)
  {
    if Holds(g, b) {
      assert g[b.row][b.col].value == b;
    }
  }

  /** With consistent slots, reading a slot finds b exactly when b rests there. */
  lemma BubbleAtHolds(g: Grid, s: Slot, b: Bubble)
    requires Consistent(g)
    ensures BubbleAt(g, s) == Some(b) <==> Holds(g, b) && SlotOf(b) == s
  {
  }

  /** The occupants listed for some slots are exactly the bubbles read at them. */
  lemma {:induction false} OccupantsMembers(g: Grid, slots: seq<Slot>, b: Bubble)
    ensures b in Occupants(g, slots) <==> exists k :: 0 <= k < |slots| && BubbleAt(g, slots[k]) == Some(b)
  {
    if slots != [] {
      var init := slots[..|slots| - 1];
      OccupantsMembers(g, init, b);
      if b in Occupants(g, init) {
        var k :| 0 <= k < |init| && BubbleAt(g, init[k]) == Some(b);
        assert slots[k] == init[k];
      }
      if exists k :: 0 <= k < |slots| && BubbleAt(g, slots[k]) == Some(b) {
        var k :| 0 <= k < |slots| && BubbleAt(g, slots[k]) == Some(b);
        if k < |init| {
          assert init[k] == slots[k];
        }
      }
    }
  }

  /**
   * On a consistent board, the occupants of a slot's neighbour candidates are
   * exactly the bubbles adjacent to the bubble resting there.
   */
  lemma NeighborhoodIsAdjacency(g: Grid, a: Bubble, b: Bubble)
    requires Consistent(g) && Holds(g, a)
    ensures b in Occupants(g, NeighborhoodIndexes(SlotOf(a))) <==> Adjacent(g, a, b)
  {
    var ni := NeighborhoodIndexes(SlotOf(a));
    OccupantsMembers(g, ni, b);
    if Adjacent(g, a, b) {
      var k :| 0 <= k < |ni| && ni[k] == SlotOf(b);
      BubbleAtHolds(g, ni[k], b);
    }
    if b in Occupants(g, ni) {
      var k :| 0 <= k < |ni| && BubbleAt(g, ni[k]) == Some(b);
      BubbleAtHolds(g, ni[k], b);
    }
  }

  /** Adjacency of resting bubbles is symmetric. */
  lemma AdjacentSymmetric(g: Grid, a: Bubble, b: Bubble)
    requires Adjacent(g, a, b)
    ensures Adjacent(g, b, a)
  {
    NeighborSymmetric(SlotOf(a), SlotOf(b));
  }

  lemma ReachWithin(g: Grid, seeds: set<Bubble>, f: Filter, S: set<Bubble>)
    requires seeds <= S && Closed(g, S, f)
    ensures Reach(g, seeds, f) <= S
  {
  }

  lemma ReachHasSeeds(g: Grid, seeds: set<Bubble>, f: Filter)
    requires seeds <= Occupied(g)
    ensures seeds <= Reach(g, seeds, f)
  {
  }

  /** The reachable set is itself closed. */
  lemma ReachClosed(g: Grid, seeds: set<Bubble>, f: Filter)
    ensures Closed(g, Reach(g, seeds, f), f)
  {
    var R := Reach(g, seeds, f);
    forall a, b | a in R && Adjacent(g, a, b) && Matches(b, f)
      ensures b in R
    {
      assert Holds(g, b);
      assert g[b.row][b.col].value == b;
      assert b in Occupied(g);
    }
  }

  lemma ReachMonotone(g: Grid, seeds: set<Bubble>, more: set<Bubble>, f: Filter)
    requires seeds <= more
    ensures Reach(g, seeds, f) <= Reach(g, more, f)
  {
  }

  /** Everything reachable from matching seeds passes the filter. */
  lemma ReachMatches(g: Grid, seeds: set<Bubble>, f: Filter, b: Bubble)
    requires forall s :: s in seeds ==> Matches(s, f)
    requires b in Reach(g, seeds, f)
    ensures Matches(b, f)
  {
    var M := set x | x in Occupied(g) && Matches(x, f);
    var S := seeds + M;
    assert Closed(g, S, f) by {
      forall a, c | a in S && Adjacent(g, a, c) && Matches(c, f)
        ensures c in S
      {
        assert g[c.row][c.col].value == c;
      }
    }
    ReachWithin(g, seeds, f, S);
  }

  /**
   * Growing a flood-filled accumulator that already holds everything
   * reachable from `seeds`, from one more matching seed, leaves it holding
   * exactly what is reachable from all of them.
   */
  lemma FloodAccumulates(g: Grid, seeds: set<Bubble>, seed: Bubble, f: Filter, group: seq<Bubble>, out: seq<Bubble>)
    requires Consistent(g) && Holds(g, seed) && Matches(seed, f) && seeds <= Occupied(g)
    requires Members(group) == Reach(g, seeds, f)
    requires FloodGrown(g, seed, f, group, out)
    ensures Members(out) == Reach(g, seeds + {seed}, f)
  {
    var R0, R1, M := Reach(g, seeds, f), Reach(g, seeds + {seed}, f), Members(out);
    ReachMonotone(g, seeds, seeds + {seed}, f);
    forall x | x in M
      ensures x in R1
    {
      var i :| 0 <= i < |out| && out[i] == x;
      if i < |group| {
        assert x == group[i];
        assert x in R0;
      } else {
        OccupiedIffHolds(g, x);
        forall S | seeds + {seed} <= S && Closed(g, S, f)
          ensures x in S
        {
        }
      }
    }
    ReachClosed(g, seeds, f);
    assert Closed(g, M, f) by {
      forall a, b | a in M && Adjacent(g, a, b) && Matches(b, f)
        ensures b in M
      {
        var i :| 0 <= i < |out| && out[i] == a;
        if i < |group| {
          assert a == group[i];
          assert a in R0;
          assert b in R0;
          var k :| 0 <= k < |group| && group[k] == b;
          assert out[k] == b;
        }
      }
    }
    ReachHasSeeds(g, seeds, f);
    assert seeds <= M by {
      forall s | s in seeds
        ensures s in M
      {
        assert s in R0;
        var k :| 0 <= k < |group| && group[k] == s;
        assert out[k] == s;
      }
    }
    ReachWithin(g, seeds + {seed}, f, M);
  }

  /** Nothing is reachable from no seeds. */
  lemma ReachNothing(g: Grid, f: Filter)
    ensures Reach(g, {}, f) == {}
  {
    assert Closed(g, {}, f);
  }

  /** A list without repetitions has as many members as entries. */
  lemma {:induction false} DistinctCard(s: seq<Bubble>)
    requires Distinct(s)
    ensures |Members(s)| == |s|
  {
    if s != [] {
      var init := s[..|s| - 1];
      assert Distinct(init);
      DistinctCard(init);
      assert Members(s) == Members(init) + {s[|s| - 1]};
      assert s[|s| - 1] !in Members(init);
    }
  }

  lemma WithoutPreserves(g: Grid, C: set<Bubble>)
    requires Shaped(g) && Consistent(g)
    ensures Shaped(Without(g, C)) && Consistent(Without(g, C))
  {
  }

  lemma WithoutCentred(g: Grid, C: set<Bubble>, r: real, top: real)
    requires Centred(g, r, top)
    ensures Centred(Without(g, C), r, top)
  {
  }

  /**
   * On a board whose bubbles sit at their slot centres, two different resting
   * bubbles never overlap: their centres are at least the sum of their radii
   * apart (they may touch).
   */
  lemma CentredApart(g: Grid, r: real, top: real, a: Bubble, b: Bubble)
    requires Consistent(g) && Centred(g, r, top)
    requires a in Occupied(g) && b in Occupied(g) && a != b
    ensures SquaredDistance(Centre(a), Centre(b)) >= (a.r + b.r) * (a.r + b.r)
  {
    OccupiedIffHolds(g, a);
    OccupiedIffHolds(g, b);
    assert g[a.row][a.col] == Some(a) && g[b.row][b.col] == Some(b);
    SlotsApart(r, top, a, b);
  }

  /** Two bubbles of radius r at the centres of two different slots do not overlap. */
  lemma SlotsApart(r: real, top: real, a: Bubble, b: Bubble)
    requires SlotOf(a) != SlotOf(b) && a.r == r && b.r == r
    requires Centre(a) == WorldPosition(r, top, SlotOf(a)) && Centre(b) == WorldPosition(r, top, SlotOf(b))
    ensures SquaredDistance(Centre(a), Centre(b)) >= (a.r + b.r) * (a.r + b.r)
  {
    DistinctSlotsApart(r, top, SlotOf(a), SlotOf(b));
  }

  /** Taking C out of the board removes exactly the resting bubbles of C. */
  lemma WithoutOccupied(g: Grid, C: set<Bubble>)
    ensures Occupied(Without(g, C)) == Occupied(g) - C
  {
    var h := Without(g, C);
    forall b | b in Occupied(g) - C
      ensures b in Occupied(h)
    {
      var i, j :| 0 <= i < |g| && 0 <= j < |g[i]| && g[i][j].Some? && g[i][j].value == b;
      assert h[i][j] == g[i][j];
    }
  }

  lemma {:induction false} RowListedMembers(row: Row, D: set<Bubble>, b: Bubble)
    ensures b in RowListed(row, D) <==> b in D && exists j :: 0 <= j < |row| && row[j] == Some(b)
  {
    if row != [] {
      var init := row[..|row| - 1];
      RowListedMembers(init, D, b);
      if exists j :: 0 <= j < |init| && init[j] == Some(b) {
        var j :| 0 <= j < |init| && init[j] == Some(b);
        assert row[j] == Some(b);
      }
      if exists j :: 0 <= j < |row| && row[j] == Some(b) {
        var j :| 0 <= j < |row| && row[j] == Some(b);
        if j < |init| { assert init[j] == Some(b); }
      }
    }
  }

  /** The listing holds exactly the resting bubbles that lie in D. */
  lemma {:induction false} ListedMembers(g: Grid, D: set<Bubble>, b: Bubble)
    ensures b in Listed(g, D) <==> b in Occupied(g) && b in D
  {
    if g != [] {
      var init, last := g[..|g| - 1], g[|g| - 1];
      ListedMembers(init, D, b);
      RowListedMembers(last, D, b);
      if b in Occupied(init) {
        var i, j :| 0 <= i < |init| && 0 <= j < |init[i]| && init[i][j].Some? && init[i][j].value == b;
        assert g[i][j] == init[i][j];
      }
      if b in Occupied(g) {
        var i, j :| 0 <= i < |g| && 0 <= j < |g[i]| && g[i][j].Some? && g[i][j].value == b;
        if i < |init| {
          assert init[i][j] == g[i][j];
        } else {
          assert last[j] == Some(b);
        }
      }
    }
  }

  /** When every bubble of `row` records row index i and its own column, a bubble listed from it lies in row i. */
  lemma RowListedSlot(row: Row, D: set<Bubble>, i: int, b: Bubble)
    requires forall j :: 0 <= j < |row| && row[j].Some? ==> SlotOf(row[j].value) == Slot(i, j)
    requires b in RowListed(row, D)
    ensures b.row == i && 0 <= b.col < |row|
  {
    RowListedMembers(row, D, b);
  }

  lemma DistinctConcat(A: seq<Bubble>, B: seq<Bubble>)
    requires Distinct(A) && Distinct(B)
    requires forall x, y :: x in A && y in B ==> x != y
    ensures Distinct(A + B)
  {
    var s := A + B;
    forall i, j | 0 <= i < j < |s|
      ensures s[i] != s[j]
    {
      if i < |A| && j >= |A| {
        assert s[i] in A && s[j] in B;
      }
    }
  }

  lemma {:induction false} RowListedDistinct(row: Row, D: set<Bubble>, i: int)
    requires forall j :: 0 <= j < |row| && row[j].Some? ==> SlotOf(row[j].value) == Slot(i, j)
    ensures Distinct(RowListed(row, D))
  {
    if row != [] {
      var init := row[..|row| - 1];
      RowListedDistinct(init, D, i);
      var last := row[|row| - 1];
      if last.Some? && last.value in D {
        forall b | b in RowListed(init, D)
          ensures b != last.value
        {
          RowListedSlot(init, D, i, b);
        }
        DistinctConcat(RowListed(init, D), [last.value]);
      } else {
        assert RowListed(row, D) == RowListed(init, D);
      }
    }
  }

  lemma ListedRows(g: Grid, D: set<Bubble>, b: Bubble)
    requires Consistent(g)
    requires b in Listed(g, D)
    ensures 0 <= b.row < |g|
  {
    ListedMembers(g, D, b);
  }

  /** On a consistent board the listing never repeats a bubble. */
  lemma {:induction false} ListedDistinct(g: Grid, D: set<Bubble>)
    requires Consistent(g)
    ensures Distinct(Listed(g, D))
  {
    if g != [] {
      var init, last := g[..|g| - 1], g[|g| - 1];
      assert Consistent(init);
      ListedDistinct(init, D);
      RowListedDistinct(last, D, |g| - 1);
      var A, B := Listed(init, D), RowListed(last, D);
      forall x, y | x in A && y in B
        ensures x != y
      {
        ListedRows(init, D, x);
        RowListedSlot(last, D, |g| - 1, y);
      }
      DistinctConcat(A, B);
    }
  }
}
