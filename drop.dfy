/**
 * The landing step as a relation between boards: growing the board by a row,
 * writing the landed bubble into its slot, and the match-and-drop pass that
 * removes a same-colour group of three or more and then every bubble no
 * longer connected to row 0.
 */
module Drop {
  import opened Lattice
  import opened Board

  /** A same-colour group is removed once it has this many members. */
  const MatchThreshold: nat := 3

  /** The all-empty row that `add_empty_row` appends: the parity rule applied to the next row index. */
  function NewRow(g: Grid): (row: Row)
    requires |g| > 0
    ensures forall j :: 0 <= j < |row| ==> row[j] == None
    ensures Shaped(g) ==> |row| == RowWidth(|g[0]|, |g|)
    ensures Shaped(g) ==> Shaped(g + [row])
  {
    var w := RowWidth(|g[0]|, |g|);
    EmptyRow(if w < 0 then 0 else w)
  }

  /** `update` grows the board by one row when the landing row is at or past the end. */
  function Grown(g: Grid, row: int): (h: Grid)
    requires |g| > 0
    ensures |g| <= |h| <= |g| + 1 && h[..|g|] == g
    ensures |h| == |g| + 1 <==> row >= |g|
    ensures row <= |g| ==> row < |h|
    ensures |h| == |g| + 1 ==> forall j :: 0 <= j < |h[|g|]| ==> h[|g|][j] == None
  {
    if row >= |g| then g + [NewRow(g)] else g
  }

  /**
   * The landing slot can be written: it lies in the board once the board has
   * grown. Candidates above row 0, left of column 0 or right of the end of
   * their row fail this.
   */
  predicate Landable(g: Grid, s: Slot)
    requires |g| > 0
  {
    0 <= s.row <= |g| && InGrid(Grown(g, s.row), s)
  }

  /** The flying bubble after it lands in slot s, centred at the slot centre p. */
  function Settle(b: Bubble, s: Slot, p: Point): (pb: Bubble)
    ensures SlotOf(pb) == s && pb.x == p.x && pb.y == p.y
    ensures pb.r == b.r && pb.kind == b.kind
  {
    b.(row := s.row, col := s.col, x := p.x, y := p.y)
  }

  /** The board with bubble b written into slot s. */
  function PlaceAt(g: Grid, s: Slot, b: Bubble): (h: Grid)
    requires InGrid(g, s)
    ensures |h| == |g| && forall i :: 0 <= i < |g| ==> |h[i]| == |g[i]|
    ensures forall i, j :: 0 <= i < |g| && 0 <= j < |g[i]| ==> h[i][j] == if Slot(i, j) == s then Some(b) else g[i][j]
  {
    g[s.row := g[s.row][s.col := Some(b)]]
  }

  /**
   * What the match-and-drop pass does, from the board `placed` holding the
   * just-landed bubble pb and the animation lists del0 and fall0, to the
   * board g1 and the lists del1 and fall1.
   */
  ghost predicate MatchAndDrop(placed: Grid, pb: Bubble, del0: seq<Bubble>, fall0: seq<Bubble>,
                               g1: Grid, del1: seq<Bubble>, fall1: seq<Bubble>) {
    var C := Reach(placed, {pb}, OfKind(pb.kind));
    if |C| < MatchThreshold then
      g1 == placed && del1 == del0 && fall1 == fall0
    else
      var mid := Without(placed, C);
      var A := Reach(mid, Row0(mid), Any);
      && g1 == Without(mid, Occupied(mid) - A)
      && |del0| <= |del1| && del1[..|del0|] == del0
      && Members(del1[|del0|..]) == C && Distinct(del1[|del0|..])
      && fall1 == fall0 + Listed(mid, Occupied(mid) - A)
  }

  // ---------------------------------------------------------------------
  // Growing and placing
  // ---------------------------------------------------------------------

  /** Appending the new row keeps the board's shape and consistency. */
  lemma GrownPreserves(g: Grid, row: int)
    requires Shaped(g) && Consistent(g)
    ensures Shaped(Grown(g, row)) && Consistent(Grown(g, row))
    ensures Occupied(Grown(g, row)) == Occupied(g)
  {
    var h := Grown(g, row);
    if row >= |g| {
      assert |NewRow(g)| == RowWidth(|g[0]|, |g|);
      assert forall i, j :: 0 <= i < |g| && 0 <= j < |g[i]| ==> h[i][j] == g[i][j];
      forall b | b in Occupied(h)
        ensures b in Occupied(g)
      {
        var i, j :| 0 <= i < |h| && 0 <= j < |h[i]| && h[i][j].Some? && h[i][j].value == b;
        assert i < |g|;
      }
      forall b | b in Occupied(g)
        ensures b in Occupied(h)
      {
        var i, j :| 0 <= i < |g| && 0 <= j < |g[i]| && g[i][j].Some? && g[i][j].value == b;
        assert h[i][j] == g[i][j];
      }
    }
  }

  /**
   * Writing a bubble that records slot s into the empty slot s keeps the board
   * consistent and adds exactly that bubble.
   */
  lemma PlacePreserves(g: Grid, s: Slot, b: Bubble)
    requires Shaped(g) && Consistent(g) && InGrid(g, s) && g[s.row][s.col] == None && SlotOf(b) == s
    ensures Shaped(PlaceAt(g, s, b)) && Consistent(PlaceAt(g, s, b)) && Holds(PlaceAt(g, s, b), b)
    ensures Occupied(PlaceAt(g, s, b)) == Occupied(g) + {b}
  {
    var h := PlaceAt(g, s, b);
    forall x | x in Occupied(h)
      ensures x in Occupied(g) + {b}
    {
      var i, j :| 0 <= i < |h| && 0 <= j < |h[i]| && h[i][j].Some? && h[i][j].value == x;
      if Slot(i, j) != s { assert g[i][j] == h[i][j]; }
    }
    forall x | x in Occupied(g) + {b}
      ensures x in Occupied(h)
    {
      if x == b {
        assert h[s.row][s.col] == Some(b);
      } else {
        var i, j :| 0 <= i < |g| && 0 <= j < |g[i]| && g[i][j].Some? && g[i][j].value == x;
        assert h[i][j] == g[i][j];
      }
    }
  }

  /** The added row is empty, so growing keeps every bubble at its slot centre. */
  lemma GrownCentred(g: Grid, row: int, r: real, top: real)
    requires |g| > 0 && Centred(g, r, top)
    ensures Centred(Grown(g, row), r, top)
  {
    var h: Grid := Grown(g, row);
    forall i, j | 0 <= i < |h| && 0 <= j < |h[i]| && h[i][j].Some?
      ensures Centre(h[i][j].value) == WorldPosition(r, top, Slot(i, j)) && h[i][j].value.r == r
    {
      assert i < |g| && h[i] == g[i];
    }
  }

  /** Writing a bubble of radius r centred at the centre of slot s keeps every bubble at its slot centre. */
  lemma PlaceCentred(g: Grid, s: Slot, b: Bubble, r: real, top: real)
    requires InGrid(g, s) && Centred(g, r, top)
    requires Centre(b) == WorldPosition(r, top, s) && b.r == r
    ensures Centred(PlaceAt(g, s, b), r, top)
  {
  }

  // ---------------------------------------------------------------------
  // Taking bubbles off the board
  // ---------------------------------------------------------------------

  lemma WithoutHolds(g: Grid, C: set<Bubble>, b: Bubble)
    requires Holds(g, b) && b !in C
    ensures Holds(Without(g, C), b)
  {
  }

  lemma WithoutNothing(g: Grid)
    ensures Without(g, {}) == g
  {
    var h := Without(g, {});
    forall i | 0 <= i < |g|
      ensures h[i] == g[i]
    {
    }
  }

  lemma Row0Without(g: Grid, C: set<Bubble>)
    requires |g| > 0
    ensures Row0(Without(g, C)) == Row0(g) - C
  {
    var h := Without(g, C);
    forall b | b in Row0(g) - C
      ensures b in Row0(h)
    {
      var j :| 0 <= j < |g[0]| && g[0][j].Some? && g[0][j].value == b;
      assert h[0][j] == g[0][j];
    }
  }

  lemma Row0Occupied(g: Grid)
    ensures Row0(g) <= Occupied(g)
  {
    forall b | b in Row0(g)
      ensures b in Occupied(g)
    {
      var j :| 0 <= j < |g[0]| && g[0][j].Some? && g[0][j].value == b;
      assert g[0][j].value == b;
    }
  }

  /**
   * Taking one more resting bubble b out of a board already cleared of M is
   * the same as nulling b's own slot.
   */
  lemma WithoutOneMore(g: Grid, M: set<Bubble>, b: Bubble)
    requires Consistent(g) && Holds(g, b)
    ensures var h := Without(g, M);
      h[b.row := h[b.row][b.col := None]] == Without(g, M + {b})
  {
    var h := Without(g, M);
    var h1 := h[b.row := h[b.row][b.col := None]];
    var h2 := Without(g, M + {b});
    assert |h1| == |h2|;
    forall i | 0 <= i < |h1|
      ensures h1[i] == h2[i]
    {
      assert |h1[i]| == |h2[i]|;
      forall j | 0 <= j < |h1[i]|
        ensures h1[i][j] == h2[i][j]
      {
        if g[i][j].Some? && g[i][j].value == b {
          assert SlotOf(g[i][j].value) == Slot(i, j);
        }
      }
    }
  }

  /**
   * After the unconnected bubbles are taken off, the board left is exactly the
   * connected part, row 0 is intact and every remaining bubble is connected
   * to row 0 in the new board too.
   */
  lemma AnchoredAfterDrop(g: Grid)
    requires |g| > 0 && Consistent(g)
    ensures var A := Reach(g, Row0(g), Any);
      var h := Without(g, Occupied(g) - A);
      && Occupied(h) == A
      && Row0(h) == Row0(g)
      && Reach(h, Row0(h), Any) == Occupied(h)
  {
    var A := Reach(g, Row0(g), Any);
    var D := Occupied(g) - A;
    var h := Without(g, D);
    WithoutOccupied(g, D);
    assert Occupied(h) == A;
    Row0Occupied(g);
    ReachHasSeeds(g, Row0(g), Any);
    Row0Without(g, D);
    assert Row0(h) == Row0(g);
    ReachClosed(g, Row0(g), Any);
    forall a | a in A
      ensures a in Reach(h, Row0(h), Any)
    {
      forall S | Row0(h) <= S && Closed(h, S, Any)
        ensures a in S
      {
        assert Closed(g, S * A, Any) by {
          forall x, y | x in S * A && Adjacent(g, x, y) && Matches(y, Any)
            ensures y in S * A
          {
            assert y in A;
            WithoutHolds(g, D, x);
            WithoutHolds(g, D, y);
            assert Adjacent(h, x, y);
          }
        }
        ReachWithin(g, Row0(g), Any, S * A);
      }
    }
  }

  // ---------------------------------------------------------------------
  // Properties of the match-and-drop pass
  // ---------------------------------------------------------------------

  /** The pass keeps the board well formed. */
  lemma MatchAndDropValid(placed: Grid, pb: Bubble, del0: seq<Bubble>, fall0: seq<Bubble>,
                          g1: Grid, del1: seq<Bubble>, fall1: seq<Bubble>)
    requires Shaped(placed) && Consistent(placed)
    requires MatchAndDrop(placed, pb, del0, fall0, g1, del1, fall1)
    ensures Shaped(g1) && Consistent(g1)
  {
    var C := Reach(placed, {pb}, OfKind(pb.kind));
    if |C| >= MatchThreshold {
      var mid := Without(placed, C);
      WithoutPreserves(placed, C);
      WithoutPreserves(mid, Occupied(mid) - Reach(mid, Row0(mid), Any));
    }
  }

  /** The pass only takes bubbles off, so every bubble left still sits at its slot centre. */
  lemma MatchAndDropCentred(placed: Grid, pb: Bubble, del0: seq<Bubble>, fall0: seq<Bubble>,
                            g1: Grid, del1: seq<Bubble>, fall1: seq<Bubble>, r: real, top: real)
    requires Centred(placed, r, top)
    requires MatchAndDrop(placed, pb, del0, fall0, g1, del1, fall1)
    ensures Centred(g1, r, top)
  {
    var C := Reach(placed, {pb}, OfKind(pb.kind));
    if |C| >= MatchThreshold {
      var mid := Without(placed, C);
      WithoutCentred(placed, C, r, top);
      WithoutCentred(mid, Occupied(mid) - Reach(mid, Row0(mid), Any), r, top);
    }
  }

  /** After the pass every bubble left on the board hangs from row 0. */
  lemma MatchAndDropAnchored(placed: Grid, pb: Bubble, del0: seq<Bubble>, fall0: seq<Bubble>,
                             g1: Grid, del1: seq<Bubble>, fall1: seq<Bubble>)
    requires |placed| > 0 && Consistent(placed)
    requires MatchAndDrop(placed, pb, del0, fall0, g1, del1, fall1)
    requires |Reach(placed, {pb}, OfKind(pb.kind))| >= MatchThreshold
    ensures Reach(g1, Row0(g1), Any) == Occupied(g1)
  {
    var C := Reach(placed, {pb}, OfKind(pb.kind));
    var mid := Without(placed, C);
    WithoutPreserves0(placed, C);
    AnchoredAfterDrop(mid);
  }

  /**
   * The pass loses no bubble and moves none twice: the bubbles of the board
   * before it are split into those left, those deleted (the same-colour group
   * of pb, all of pb's colour and pb among them) and those falling (no
   * repeats), and every row-0 bubble outside the group stays.
   */
  lemma MatchAndDropPartition(placed: Grid, pb: Bubble, del0: seq<Bubble>, fall0: seq<Bubble>,
                              g1: Grid, del1: seq<Bubble>, fall1: seq<Bubble>)
    requires |placed| > 0 && Consistent(placed) && Holds(placed, pb)
    requires MatchAndDrop(placed, pb, del0, fall0, g1, del1, fall1)
    requires |Reach(placed, {pb}, OfKind(pb.kind))| >= MatchThreshold
    ensures |del0| <= |del1| && |fall0| <= |fall1|
    ensures var removed, fallen := Members(del1[|del0|..]), Members(fall1[|fall0|..]);
      && Occupied(placed) == Occupied(g1) + removed + fallen
      && Occupied(g1) !! removed && Occupied(g1) !! fallen && removed !! fallen
      && pb in removed && (forall b :: b in removed ==> b.kind == pb.kind)
      && Distinct(fall1[|fall0|..])
      && Row0(placed) - removed <= Occupied(g1)
  {
    var C := Reach(placed, {pb}, OfKind(pb.kind));
    var mid := Without(placed, C);
    var A := Reach(mid, Row0(mid), Any);
    var D := Occupied(mid) - A;
    var removed, fallen := Members(del1[|del0|..]), Members(fall1[|fall0|..]);
    assert removed == C;
    assert fall1[|fall0|..] == Listed(mid, D);
    WithoutPreserves0(placed, C);
    ListedDistinct(mid, D);
    forall b
      ensures b in fallen <==> b in D
    {
      ListedMembers(mid, D, b);
    }
    assert fallen == D;
    WithoutOccupied(placed, C);
    AnchoredAfterDrop(mid);
    assert Occupied(g1) == A;
    assert C <= Occupied(placed);
    assert Occupied(placed) == Occupied(g1) + removed + fallen;
    assert pb in Occupied(placed) by { OccupiedIffHolds(placed, pb); }
    ReachHasSeeds(placed, {pb}, OfKind(pb.kind));
    forall b | b in removed
      ensures b.kind == pb.kind
    {
      ReachMatches(placed, {pb}, OfKind(pb.kind), b);
    }
    Row0Without(placed, C);
    Row0Occupied(mid);
    ReachHasSeeds(mid, Row0(mid), Any);
  }

  /** The consistency half of WithoutPreserves, which needs no shape. */
  lemma WithoutPreserves0(g: Grid, C: set<Bubble>)
    requires Consistent(g)
    ensures Consistent(Without(g, C)) && |Without(g, C)| == |g|
  {
  }
}
