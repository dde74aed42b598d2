/**
 * The game field: the board of resting bubbles, the flying bubble and the two
 * animation lists, with the operations that read and update them in place.
 */
module Field {
  import opened Lattice
  import opened Board
  import opened Flight
  import opened Drop

  /** What one update of the field did. */
  datatype Step =
    | Idle                 // no bubble is flying
    | Flew                 // the flying bubble moved and touched nothing
    | Landed(slot: Slot)   // it touched a bubble and was placed in `slot`
    | NoFreeSlot           // it touched a bubble but no neighbour slot was free and near enough
    | OffGrid(slot: Slot)  // the chosen neighbour slot lies outside the board even after growing

  /**
   * The loop of the flood fill from `seed` after its first k neighbours `nb`
   * have been visited: the accumulator `out` holds `group`, then the seed,
   * then what the recursive calls so far have added.
   */
  ghost predicate FloodPartial(g: Grid, seed: Bubble, f: Filter, group: seq<Bubble>, nb: seq<Bubble>, k: nat, out: seq<Bubble>)
    requires k <= |nb|
  {
    && |group| + 1 <= |out| && out[..|group| + 1] == group + [seed]
    && (Distinct(group) ==> Distinct(out))
    && (forall i :: |group| <= i < |out| ==> Holds(g, out[i]) && Matches(out[i], f))
    && (forall i, n :: |group| < i < |out| && Adjacent(g, out[i], n) && Matches(n, f) ==> n in out)
    && (forall m :: 0 <= m < k && Matches(nb[m], f) ==> nb[m] in out)
    && (forall S :: seed in S && ClosedOutside(g, S, f, group) ==> forall i :: |group| <= i < |out| ==> out[i] in S)
  }

  lemma FloodStart(g: Grid, seed: Bubble, f: Filter, group: seq<Bubble>, nb: seq<Bubble>)
    requires Holds(g, seed) && Matches(seed, f) && seed !in group
    ensures FloodPartial(g, seed, f, group, nb, 0, group + [seed])
  {
    var out := group + [seed];
    assert out[..|group| + 1] == out;
    if Distinct(group) {
      DistinctConcat(group, [seed]);
    }
  }

  lemma FloodStep(g: Grid, seed: Bubble, f: Filter, group: seq<Bubble>, nb: seq<Bubble>, k: nat, out: seq<Bubble>, out': seq<Bubble>)
    requires Consistent(g) && Holds(g, seed) && nb == Occupants(g, NeighborhoodIndexes(SlotOf(seed)))
    requires k < |nb| && FloodPartial(g, seed, f, group, nb, k, out)
    requires (nb[k] in out && out' == out) || (nb[k] !in out && FloodGrown(g, nb[k], f, out, out'))
    ensures FloodPartial(g, seed, f, group, nb, k + 1, out')
  {
    if nb[k] !in out {
      var n := nb[k];
      NeighborhoodIsAdjacency(g, seed, n);
      assert Adjacent(g, seed, n);
      assert out'[..|group| + 1] == out[..|group| + 1];
      forall x | x in out
        ensures x in out'
      {
        var i :| 0 <= i < |out| && out[i] == x;
        assert out'[i] == x;
      }
      forall i | |group| <= i < |out'|
        ensures Holds(g, out'[i]) && Matches(out'[i], f)
      {
        if i < |out| { assert out'[i] == out[i]; }
      }
      forall i, m | |group| < i < |out'| && Adjacent(g, out'[i], m) && Matches(m, f)
        ensures m in out'
      {
        if i < |out| { assert out'[i] == out[i]; }
      }
      forall S | seed in S && ClosedOutside(g, S, f, group)
        ensures forall i :: |group| <= i < |out'| ==> out'[i] in S
      {
        assert n !in group by {
          assert forall x :: x in group ==> x in out[..|group| + 1];
        }
        assert ClosedOutside(g, S, f, out) by {
          forall a, c | a in S && Adjacent(g, a, c) && Matches(c, f) && c !in out
            ensures c in S
          {
            assert c !in group by {
              assert forall x :: x in group ==> x in out[..|group| + 1];
            }
          }
        }
        forall i | |group| <= i < |out'|
          ensures out'[i] in S
        {
          if i < |out| {
            assert out'[i] == out[i];
          } else {
            assert n in S;
          }
        }
      }
    }
  }

  lemma FloodFinish(g: Grid, seed: Bubble, f: Filter, group: seq<Bubble>, nb: seq<Bubble>, out: seq<Bubble>)
    requires Consistent(g) && Holds(g, seed) && nb == Occupants(g, NeighborhoodIndexes(SlotOf(seed)))
    requires Matches(seed, f) && seed !in group
    requires FloodPartial(g, seed, f, group, nb, |nb|, out)
    ensures FloodGrown(g, seed, f, group, out)
  {
    assert out[..|group|] == group by {
      assert out[..|group|] == out[..|group| + 1][..|group|];
    }
    assert out[|group|] == seed by {
      assert out[|group|] == out[..|group| + 1][|group|];
    }
    forall i, n | |group| <= i < |out| && Adjacent(g, out[i], n) && Matches(n, f)
      ensures n in out
    {
      if i == |group| {
        NeighborhoodIsAdjacency(g, seed, n);
      }
    }
  }

  /** The row-0 bubbles among the first j slots of row 0. */
  function Row0Prefix(g: Grid, j: int): set<Bubble>
    requires |g| > 0 && 0 <= j <= |g[0]|
  {
    set m | 0 <= m < j && g[0][m].Some? :: g[0][m].value
  }

  /** The prefix holds resting bubbles, and one more slot adds that slot's bubble, if any. */
  lemma Row0PrefixStep(g: Grid, j: int)
    requires |g| > 0 && 0 <= j < |g[0]|
    ensures Row0Prefix(g, j) <= Occupied(g)
    ensures g[0][j].Some? ==> Row0Prefix(g, j + 1) == Row0Prefix(g, j) + {g[0][j].value}
    ensures g[0][j].None? ==> Row0Prefix(g, j + 1) == Row0Prefix(g, j)
  {
    forall b | b in Row0Prefix(g, j)
      ensures b in Occupied(g)
    {
      var m :| 0 <= m < j && g[0][m].Some? && g[0][m].value == b;
      assert g[0][m].value == b;
    }
  }

  /**
   * The outcome of a landing from board g0, animation lists del0 and fall0
   * and flying bubble fly0, after the flying bubble touched `hit` at (fx, fy).
   */
  ghost predicate LandOutcome(g0: Grid, del0: seq<Bubble>, fall0: seq<Bubble>, fly0: Option<Bubble>,
                              r: real, top: real, hit: Bubble, fx: real, fy: real, step: Step,
                              g1: Grid, del1: seq<Bubble>, fall1: seq<Bubble>, fly1: Option<Bubble>)
    requires |g0| > 0 && fly0.Some?
  {
    var c := SlotOf(hit);
    match step
    case NoFreeSlot =>
      && NearestFree(g0, r, top, c, fx, fy, None)
      && g1 == g0 && del1 == del0 && fall1 == fall0 && fly1 == fly0
    case OffGrid(s) =>
      && NearestFree(g0, r, top, c, fx, fy, Some(s)) && !Landable(g0, s)
      && g1 == g0 && del1 == del0 && fall1 == fall0 && fly1 == fly0
    case Landed(s) =>
      var pb := Settle(fly0.value, s, WorldPosition(r, top, s));
      && NearestFree(g0, r, top, c, fx, fy, Some(s)) && Landable(g0, s)
      && MatchAndDrop(PlaceAt(Grown(g0, s.row), s, pb), pb, del0, fall0, g1, del1, fall1)
      && fly1 == None
    case _ => false
  }

  /** A landing in slot s, followed by the pass, is the outcome `Landed(s)`. */
  lemma LandedOutcome(g0: Grid, del0: seq<Bubble>, fall0: seq<Bubble>, fly0: Option<Bubble>,
                      r: real, top: real, hit: Bubble, fx: real, fy: real, s: Slot,
                      g1: Grid, del1: seq<Bubble>, fall1: seq<Bubble>)
    requires |g0| > 0 && fly0.Some?
    requires NearestFree(g0, r, top, SlotOf(hit), fx, fy, Some(s)) && Landable(g0, s)
    requires var pb := Settle(fly0.value, s, WorldPosition(r, top, s));
      MatchAndDrop(PlaceAt(Grown(g0, s.row), s, pb), pb, del0, fall0, g1, del1, fall1)
    ensures LandOutcome(g0, del0, fall0, fly0, r, top, hit, fx, fy, Landed(s), g1, del1, fall1, None)
  {
  }

  lemma ListedStep(g: Grid, D: set<Bubble>, i: nat)
    requires i < |g|
    ensures Listed(g[..i + 1], D) == Listed(g[..i], D) + RowListed(g[i], D)
  {
    assert g[..i + 1][..i] == g[..i];
  }

  /** The drop scan has done rows 0 .. i-1 (they now equal h) and not yet touched the rest (they equal g). */
  ghost predicate ScannedTo(cur: Grid, g: Grid, h: Grid, i: int) {
    0 <= i <= |g| && |cur| == |g| && |h| == |g| && cur[..i] == h[..i] && cur[i..] == g[i..]
  }

  lemma DropStart(g: Grid, D: set<Bubble>)
    ensures ScannedTo(g, g, Without(g, D), 0) && Listed(g[..0], D) == []
  {
    assert g[..0] == [];
  }

  lemma DropDone(g: Grid, h: Grid, cur: Grid)
    requires |h| == |g| && ScannedTo(cur, g, h, |g|)
    ensures cur == h && g[..|g|] == g
  {
    assert cur == cur[..|g|] && h == h[..|g|];
  }

  /** One cell of the drop scan: what the scan sees there and what it leaves behind. */
  lemma DropCell(g: Grid, D: set<Bubble>, connected: seq<Bubble>, h: Grid, cur: Grid, i: nat, j: nat)
    requires Consistent(g) && D == Occupied(g) - Members(connected) && h == Without(g, D)
    requires i < |g| && j < |g[i]| && |cur| == |g| && |cur[i]| == |g[i]|
    requires cur[..i] == h[..i] && cur[i + 1..] == g[i + 1..]
    requires cur[i][..j] == h[i][..j] && cur[i][j..] == g[i][j..]
    ensures cur[i][j] == g[i][j]
    ensures g[i][..j + 1] == g[i][..j] + [g[i][j]]
    ensures RowListed(g[i][..j + 1], D) == RowListed(g[i][..j], D) + (if g[i][j].Some? && g[i][j].value in D then [g[i][j].value] else [])
    ensures g[i][j].Some? ==> SlotOf(g[i][j].value) == Slot(i, j) && (g[i][j].value in D <==> g[i][j].value !in connected)
    ensures g[i][j].Some? && g[i][j].value in D ==>
      var nxt := cur[i := cur[i][j := None]];
      && |nxt| == |g| && |nxt[i]| == |g[i]|
      && nxt[..i] == h[..i] && nxt[i + 1..] == g[i + 1..]
      && nxt[i][..j + 1] == h[i][..j + 1] && nxt[i][j + 1..] == g[i][j + 1..]
    ensures !(g[i][j].Some? && g[i][j].value in D) ==>
      cur[i][..j + 1] == h[i][..j + 1] && cur[i][j + 1..] == g[i][j + 1..]
  {
    assert cur[i][j] == cur[i][j..][0];
    assert g[i][j] == g[i][j..][0];
    assert g[i][..j + 1][..j] == g[i][..j];
    if g[i][j].Some? {
      assert g[i][j].value in Occupied(g);
    }
    var nw := if g[i][j].Some? && g[i][j].value in D then None else g[i][j];
    var nxt := cur[i := cur[i][j := nw]];
    if nw == cur[i][j] {
      assert cur[i][j := nw] == cur[i];
      assert nxt == cur;
    }
    assert nxt[..i] == cur[..i];
    assert nxt[i + 1..] == cur[i + 1..];
    assert h[i][j] == nw;
    assert nxt[i][..j + 1] == h[i][..j + 1] by {
      forall q | 0 <= q < j + 1
        ensures nxt[i][q] == h[i][q]
      {
        if q < j { assert cur[i][q] == cur[i][..j][q]; assert h[i][q] == h[i][..j][q]; }
      }
    }
    assert nxt[i][j + 1..] == g[i][j + 1..] by {
      forall q | j + 1 <= q < |g[i]|
        ensures nxt[i][q] == g[i][q]
      {
        assert cur[i][q] == cur[i][j..][q - j];
        assert g[i][q] == g[i][j..][q - j];
      }
    }
  }

  /** The end of one row of the drop scan. */
  lemma DropRowDone(g: Grid, h: Grid, cur: Grid, i: nat)
    requires |h| == |g| && i < |g| && |cur| == |g| && |cur[i]| == |g[i]| && |h[i]| == |g[i]|
    requires cur[..i] == h[..i] && cur[i + 1..] == g[i + 1..]
    requires cur[i][..|g[i]|] == h[i][..|g[i]|]
    ensures cur[..i + 1] == h[..i + 1] && cur[i + 1..] == g[i + 1..]
    ensures g[i][..|g[i]|] == g[i]
  {
    assert cur[i] == h[i] by {
      assert cur[i] == cur[i][..|g[i]|];
      assert h[i] == h[i][..|g[i]|];
    }
    assert cur[..i + 1] == cur[..i] + [cur[i]];
    assert h[..i + 1] == h[..i] + [h[i]];
  }

  class GameField {
    /** Bubble radius. */
    var r: real
    /** Vertical scroll offset of the board. */
    var topPos: real
    /** The resting bubbles, row by row. */
    var bubbles: Grid
    /** The bubble in flight, if any. */
    var flying: Option<Bubble>
    var direction: Vec
    /** Bubbles of removed groups, shrinking away. */
    var deleting: seq<Bubble>
    /** Disconnected bubbles, falling away. */
    var falling: seq<Bubble>

    /**
     * The board is shaped and consistent, every resting bubble has radius r
     * and sits at the lattice centre of its slot, and the flying bubble has
     * radius r too.
     */
    predicate Valid()
      reads this
    {
      && Shaped(bubbles) && Consistent(bubbles) && Centred(bubbles, r, topPos)
      && (flying.Some? ==> flying.value.r == r)
    }

    /** `get_neighborhood`: the resting bubbles at the six neighbour slots, in candidate order. */
    method GetNeighborhood(row: int, col: int) returns (nb: seq<Bubble>)
      ensures nb == Occupants(bubbles, NeighborhoodIndexes(Slot(row, col)))
      ensures forall a, b :: Consistent(bubbles) && Holds(bubbles, a) && SlotOf(a) == Slot(row, col) ==>
                (b in nb <==> Adjacent(bubbles, a, b))
    {
      var ni := NeighborhoodIndexes(Slot(row, col));
      nb := [];
      for k := 0 to |ni|
        invariant nb == Occupants(bubbles, ni[..k])
      {
        assert ni[..k + 1][..k] == ni[..k];
        var o := BubbleAt(bubbles, ni[k]);
        if o.Some? {
          nb := nb + [o.value];
        }
      }
      assert ni[..|ni|] == ni;
      forall a, b | Consistent(bubbles) && Holds(bubbles, a) && SlotOf(a) == Slot(row, col)
        ensures b in nb <==> Adjacent(bubbles, a, b)
      {
        NeighborhoodIsAdjacency(bubbles, a, b);
      }
    }

    /**
     * `find_group_recursion`: extend the accumulator `group` by the bubbles
     * reachable from `seed` through neighbours that pass the filter.
     */
    method FindGroup(seed: Bubble, f: Filter, group: seq<Bubble>) returns (out: seq<Bubble>)
      requires Consistent(bubbles) && Holds(bubbles, seed)
      ensures FloodGrown(bubbles, seed, f, group, out)
      ensures group == [] ==> Distinct(out)
      ensures group == [] && Matches(seed, f) ==> Members(out) == Reach(bubbles, {seed}, f)
      decreases Occupied(bubbles) - Members(group)
    {
      if !Matches(seed, f) || seed in group {
        return group;
      }
      out := group + [seed];
      var nb := GetNeighborhood(seed.row, seed.col);
      FloodStart(bubbles, seed, f, group, nb);
      assert seed in Occupied(bubbles) by { OccupiedIffHolds(bubbles, seed); }
      for k := 0 to |nb|
        invariant FloodPartial(bubbles, seed, f, group, nb, k, out)
      {
        var n := nb[k];
        if n !in out {
          NeighborhoodIsAdjacency(bubbles, seed, n);
          assert Members(group) + {seed} <= Members(out) by {
            forall x | x in Members(group) + {seed}
              ensures x in out
            {
              assert x in out[..|group| + 1];
            }
          }
          var grown := FindGroup(n, f, out);
          FloodStep(bubbles, seed, f, group, nb, k, out, grown);
          out := grown;
        } else {
          FloodStep(bubbles, seed, f, group, nb, k, out, out);
        }
      }
      FloodFinish(bubbles, seed, f, group, nb, out);
      if group == [] {
        assert Distinct(group);
        assert Members(group) == {};
        ReachNothing(bubbles, f);
        FloodAccumulates(bubbles, {}, seed, f, group, out);
      }
    }

    /** `add_empty_row`: append one all-empty row whose length follows the parity rule. */
    method AddEmptyRow()
      requires |bubbles| > 0
      modifies this`bubbles
      ensures bubbles == old(bubbles) + [NewRow(old(bubbles))]
      ensures |bubbles| == |old(bubbles)| + 1 && bubbles[..|old(bubbles)|] == old(bubbles)
      ensures forall j :: 0 <= j < |bubbles[|old(bubbles)|]| ==> bubbles[|old(bubbles)|][j] == None
      ensures Shaped(old(bubbles)) ==> |bubbles[|old(bubbles)|]| == RowWidth(|old(bubbles)[0]|, |old(bubbles)|)
      ensures Shaped(old(bubbles)) && Consistent(old(bubbles)) ==> Shaped(bubbles) && Consistent(bubbles)
      ensures old(Valid()) ==> Valid()
    {
      var nextRowIndex := |bubbles|;
      var numBubblesInRow := |bubbles[0]|;
      var row: Row;
      if Parity(nextRowIndex) == 0 {
        row := EmptyRow(numBubblesInRow);
      } else {
        row := EmptyRow(if numBubblesInRow - 1 < 0 then 0 else numBubblesInRow - 1);
      }
      bubbles := bubbles + [row];
      if Shaped(old(bubbles)) && Consistent(old(bubbles)) {
        GrownPreserves(old(bubbles), nextRowIndex);
      }
      if old(Valid()) {
        GrownCentred(old(bubbles), nextRowIndex, r, topPos);
      }
    }

    /**
     * `find_place_to_add_flying_bubble`: the empty neighbour slot of `hit`
     * nearest to the flying bubble at (fx, fy).
     */
    method FindPlace(hit: Bubble, fx: real, fy: real) returns (pos: Option<Slot>)
      ensures NearestFree(bubbles, r, topPos, SlotOf(hit), fx, fy, pos)
    {
      var ni := NeighborhoodIndexes(SlotOf(hit));
      var minDist := DistanceLimit;
      pos := None;
      ghost var pk := 0;
      for k := 0 to |ni|
        invariant pos.None? ==> minDist == DistanceLimit
        invariant pos.None? ==> forall m :: 0 <= m < k && BubbleAt(bubbles, ni[m]).None? ==>
                    SlotDistance(r, topPos, ni[m], fx, fy) >= DistanceLimit
        invariant pos.Some? ==> pk < k && ni[pk] == pos.value && BubbleAt(bubbles, pos.value).None?
        invariant pos.Some? ==> minDist == SlotDistance(r, topPos, pos.value, fx, fy) && minDist < DistanceLimit
        invariant pos.Some? ==> forall m :: 0 <= m < k && BubbleAt(bubbles, ni[m]).None? ==>
                    minDist <= SlotDistance(r, topPos, ni[m], fx, fy)
                    && (minDist == SlotDistance(r, topPos, ni[m], fx, fy) ==> pk <= m)
      {
        if BubbleAt(bubbles, ni[k]).None? {
          var d := SlotDistance(r, topPos, ni[k], fx, fy);
          if d < minDist {
            minDist := d;
            pos := Some(ni[k]);
            pk := k;
          }
        }
      }
      if pos.Some? {
        forall m | 0 <= m < 6 && BubbleAt(bubbles, ni[m]).None? && minDist == SlotDistance(r, topPos, ni[m], fx, fy)
          ensures pos.value in ni[..m + 1]
        {
          assert ni[..m + 1][pk] == pos.value;
        }
      }
    }

    /** Null the slot of every bubble of `group` and queue it for the shrink animation. */
    method RemoveGroup(group: seq<Bubble>)
      requires Consistent(bubbles) && forall b :: b in group ==> Holds(bubbles, b)
      modifies this`bubbles, this`deleting
      ensures bubbles == Without(old(bubbles), Members(group))
      ensures deleting == old(deleting) + group
    {
      ghost var g := bubbles;
      WithoutNothing(g);
      assert Members(group[..0]) == {};
      for k := 0 to |group|
        invariant bubbles == Without(g, Members(group[..k]))
        invariant deleting == old(deleting) + group[..k]
      {
        var b := group[k];
        WithoutOneMore(g, Members(group[..k]), b);
        assert Members(group[..k + 1]) == Members(group[..k]) + {b} by {
          assert group[..k + 1] == group[..k] + [b];
        }
        bubbles := bubbles[b.row := bubbles[b.row][b.col := None]];
        deleting := deleting + [b];
        assert group[..k + 1] == group[..k] + [b];
      }
      assert group[..|group|] == group;
    }

    /** Flood-fill with the filter "any" from every row-0 bubble into one accumulator. */
    method Connected() returns (connected: seq<Bubble>)
      requires |bubbles| > 0 && Consistent(bubbles)
      ensures Members(connected) == Reach(bubbles, Row0(bubbles), Any)
      ensures Distinct(connected)
    {
      connected := [];
      ReachNothing(bubbles, Any);
      assert Row0Prefix(bubbles, 0) == {};
      assert Members(connected) == {};
      for j := 0 to |bubbles[0]|
        invariant Members(connected) == Reach(bubbles, Row0Prefix(bubbles, j), Any)
        invariant Distinct(connected)
      {
        Row0PrefixStep(bubbles, j);
        if bubbles[0][j].Some? {
          var b := bubbles[0][j].value;
          assert Holds(bubbles, b);
          var grown := FindGroup(b, Any, connected);
          FloodAccumulates(bubbles, Row0Prefix(bubbles, j), b, Any, connected, grown);
          connected := grown;
        }
      }
      assert Row0Prefix(bubbles, |bubbles[0]|) == Row0(bubbles);
    }

    /**
     * Scan the board row by row and take every resting bubble that is not in
     * `connected` off the board, queueing it for the fall animation.
     */
    method DropUnconnected(connected: seq<Bubble>)
      requires Consistent(bubbles)
      modifies this`bubbles, this`falling
      ensures bubbles == Without(old(bubbles), Occupied(old(bubbles)) - Members(connected))
      ensures falling == old(falling) + Listed(old(bubbles), Occupied(old(bubbles)) - Members(connected))
    {
      ghost var g := bubbles;
      ghost var D := Occupied(g) - Members(connected);
      ghost var h := Without(g, D);
      DropStart(g, D);
      var i := 0;
      while i < |bubbles|
        invariant ScannedTo(bubbles, g, h, i)
        invariant falling == old(falling) + Listed(g[..i], D)
      {
        DropRow(i, connected, g, D, h);
        ListedStep(g, D, i);
        i := i + 1;
      }
      DropDone(g, h, bubbles);
    }

    /** The inner loop of the drop scan, over row i. */
    method DropRow(i: nat, connected: seq<Bubble>, ghost g: Grid, ghost D: set<Bubble>, ghost h: Grid)
      requires Consistent(g) && D == Occupied(g) - Members(connected) && h == Without(g, D)
      requires i < |g| && ScannedTo(bubbles, g, h, i)
      modifies this`bubbles, this`falling
      ensures ScannedTo(bubbles, g, h, i + 1)
      ensures falling == old(falling) + RowListed(g[i], D)
    {
      assert bubbles[i] == g[i] by { assert bubbles[i] == bubbles[i..][0]; }
      assert bubbles[i + 1..] == g[i + 1..] by { assert bubbles[i + 1..] == bubbles[i..][1..]; }
      var j := 0;
      while j < |bubbles[i]|
        invariant 0 <= j <= |g[i]| && |bubbles| == |g| && |bubbles[i]| == |g[i]|
        invariant bubbles[..i] == h[..i] && bubbles[i + 1..] == g[i + 1..]
        invariant bubbles[i][..j] == h[i][..j] && bubbles[i][j..] == g[i][j..]
        invariant falling == old(falling) + RowListed(g[i][..j], D)
      {
        DropCellStep(i, j, connected, g, D, h, old(falling));
        j := j + 1;
      }
      DropRowDone(g, h, bubbles, i);
    }

    /** One cell of the drop scan: take the bubble at (i, j) off if it is not connected. */
    method DropCellStep(i: nat, j: nat, connected: seq<Bubble>, ghost g: Grid, ghost D: set<Bubble>, ghost h: Grid,
                        ghost F: seq<Bubble>)
      requires Consistent(g) && D == Occupied(g) - Members(connected) && h == Without(g, D)
      requires i < |g| && j < |g[i]| && |bubbles| == |g| && |bubbles[i]| == |g[i]|
      requires bubbles[..i] == h[..i] && bubbles[i + 1..] == g[i + 1..]
      requires bubbles[i][..j] == h[i][..j] && bubbles[i][j..] == g[i][j..]
      requires falling == F + RowListed(g[i][..j], D)
      modifies this`bubbles, this`falling
      ensures |bubbles| == |g| && |bubbles[i]| == |g[i]|
      ensures bubbles[..i] == h[..i] && bubbles[i + 1..] == g[i + 1..]
      ensures bubbles[i][..j + 1] == h[i][..j + 1] && bubbles[i][j + 1..] == g[i][j + 1..]
      ensures falling == F + RowListed(g[i][..j + 1], D)
    {
      DropCell(g, D, connected, h, bubbles, i, j);
      var cell := bubbles[i][j];
      if cell.Some? && cell.value !in connected {
        var b := cell.value;
        assert b.row == i && b.col == j;
        bubbles := bubbles[b.row := bubbles[b.row][b.col := None]];
        falling := falling + [b];
      }
    }

    /**
     * The match-and-drop pass after a landing: remove the same-colour group of
     * the landed bubble if it has three or more members, then drop what no
     * longer hangs from row 0.
     */
    method MatchAndDropPass(pb: Bubble)
      requires Shaped(bubbles) && Consistent(bubbles) && Holds(bubbles, pb)
      modifies this`bubbles, this`deleting, this`falling
      ensures Shaped(bubbles) && Consistent(bubbles)
      ensures MatchAndDrop(old(bubbles), pb, old(deleting), old(falling), bubbles, deleting, falling)
    {
      ghost var placed := bubbles;
      var group := FindGroup(pb, OfKind(pb.kind), []);
      DistinctCard(group);
      if |group| >= MatchThreshold {
        RemoveGroup(group);
        ghost var C := Members(group);
        WithoutPreserves(placed, C);
        var connected := Connected();
        DropUnconnected(connected);
        assert deleting[|old(deleting)|..] == group;
      }
      MatchAndDropValid(placed, pb, old(deleting), old(falling), bubbles, deleting, falling);
    }

    /**
     * The landing block of `update`: choose the landing slot next to `hit`,
     * grow the board if the slot is one row past the end, write the flying
     * bubble into the slot, run the match-and-drop pass and clear the flying
     * bubble.
     */
    method Land(hit: Bubble, fx: real, fy: real) returns (step: Step)
      requires Valid() && flying.Some?
      modifies this`bubbles, this`flying, this`deleting, this`falling
      ensures Valid()
      ensures LandOutcome(old(bubbles), old(deleting), old(falling), old(flying), r, topPos, hit, fx, fy, step,
                          bubbles, deleting, falling, flying)
    {
      var pos := FindPlace(hit, fx, fy);
      if pos.None? {
        return NoFreeSlot;
      }
      var s := pos.value;
      if !Landable(bubbles, s) {
        return OffGrid(s);
      }
      var b := PlaceFlying(s);
      ghost var placed := bubbles;
      MatchAndDropPass(b);
      MatchAndDropCentred(placed, b, old(deleting), old(falling), bubbles, deleting, falling, r, topPos);
      LandedOutcome(old(bubbles), old(deleting), old(falling), old(flying), r, topPos, hit, fx, fy, s,
                    bubbles, deleting, falling);
      flying := None;
      step := Landed(s);
    }

    /**
     * Grow the board if the landing slot is one row past the end, then move
     * the flying bubble into the slot, at the slot's centre.
     */
    method PlaceFlying(s: Slot) returns (b: Bubble)
      requires Valid() && flying.Some? && Landable(bubbles, s) && BubbleAt(bubbles, s).None?
      modifies this`bubbles, this`flying
      ensures b == Settle(old(flying).value, s, WorldPosition(r, topPos, s)) && flying == Some(b)
      ensures bubbles == PlaceAt(Grown(old(bubbles), s.row), s, b)
      ensures Valid() && Holds(bubbles, b)
      ensures forall c :: c in Occupied(bubbles) && c != b ==>
                SquaredDistance(Centre(b), Centre(c)) >= (b.r + c.r) * (b.r + c.r)
    {
      var wp := WorldPosition(r, topPos, s);
      GrownPreserves(bubbles, s.row);
      if s.row >= |bubbles| {
        AddEmptyRow();
      }
      assert bubbles == Grown(old(bubbles), s.row);
      b := Settle(flying.value, s, wp);
      flying := Some(b);
      PlacePreserves(bubbles, s, b);
      PlaceCentred(bubbles, s, b, r, topPos);
      bubbles := bubbles[b.row := bubbles[b.row][b.col := Some(b)]];
      forall c | c in Occupied(bubbles) && c != b
        ensures SquaredDistance(Centre(b), Centre(c)) >= (b.r + c.r) * (b.r + c.r)
      {
        OccupiedIffHolds(bubbles, b);
        CentredApart(bubbles, r, topPos, b, c);
      }
    }

    /**
     * The flying-bubble part of `update`: one step with the wall clamp, then
     * either the bubble keeps flying or it lands next to the first bubble it
     * touches.
     */
    method Update() returns (step: Step)
      requires Valid()
      modifies this`bubbles, this`flying, this`direction, this`deleting, this`falling
      ensures Valid()
      ensures old(flying).None? ==>
        step == Idle && bubbles == old(bubbles) && flying == None && direction == old(direction)
        && deleting == old(deleting) && falling == old(falling)
      ensures old(flying).Some? ==>
        var fb := old(flying).value;
        var m := Advance(fb.x, fb.y, old(direction), r);
        && direction == m.dir
        && match CheckCollision(old(bubbles), m.x, m.y, r)
           case None =>
             step == Flew && flying == Some(fb.(x := m.x, y := m.y))
             && bubbles == old(bubbles) && deleting == old(deleting) && falling == old(falling)
           case Some(hit) =>
             LandOutcome(old(bubbles), old(deleting), old(falling), old(flying), r, topPos, hit, m.x, m.y, step,
                         bubbles, deleting, falling, flying)
    {
      if flying.None? {
        return Idle;
      }
      var fb := flying.value;
      var m := Advance(fb.x, fb.y, direction, r);
      direction := m.dir;
      var collision := CheckCollision(bubbles, m.x, m.y, r);
      if collision.Some? {
        step := Land(collision.value, m.x, m.y);
      } else {
        flying := Some(fb.(x := m.x, y := m.y));
        step := Flew;
      }
    }
  }
}
