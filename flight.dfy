/**
 * The flying bubble: one step of straight-line motion with the wall clamp,
 * the collision query against the resting bubbles, and the rule that picks
 * the slot the bubble lands in.
 *
 * Positions and directions are reals. Distances are compared squared: the
 * square root is monotone, so `sqrt(a) < sqrt(b)` exactly when `a < b`, and
 * the initial bound 10000 becomes 10000 * 10000.
 */
module Flight {
  import opened Lattice
  import opened Board

  /** Distance travelled per update. */
  const FlyingSpeed: real := 10.0
  /** x coordinate of the right wall (the left wall is at 0). */
  const RightWall: real := 330.0
  /** The squared initial bound on the landing distance, 10000 squared. */
  const DistanceLimit: real := 100000000.0

  datatype Vec = Vec(x: real, y: real)

  /** Position and direction after one step. */
  datatype Motion = Motion(x: real, y: real, dir: Vec)

  /** A bubble of radius r centred at x touches neither wall. */
  predicate BetweenWalls(x: real, r: real) {
    0.0 < x - r && x + r < RightWall
  }

  /**
   * One step of the flying bubble: advance by FlyingSpeed along dir, then
   * clamp against the walls, left wall first, reversing the horizontal
   * direction whenever a clamp fires.
   */
  function Advance(x: real, y: real, dir: Vec, r: real): (m: Motion)
    ensures m.y == y + dir.y * FlyingSpeed && m.dir.y == dir.y
    ensures var t := x + dir.x * FlyingSpeed;
      && (BetweenWalls(t, r) ==> m.x == t && m.dir == dir)
      && (!BetweenWalls(t, r) ==> m.dir.x == -dir.x && m.x == (if t - r <= 0.0 then r else RightWall - r))
    ensures 0.0 < r && r + r <= RightWall ==> r <= m.x <= RightWall - r
  {
    var tx := x + dir.x * FlyingSpeed;
    var ty := y + dir.y * FlyingSpeed;
    if tx - r <= 0.0 then Motion(r, ty, Vec(-dir.x, dir.y))
    else if tx + r >= RightWall then Motion(RightWall - r, ty, Vec(-dir.x, dir.y))
    else Motion(tx, ty, dir)
  }

  /** The circle of radius r at (x, y) touches or overlaps bubble b. */
  function Overlaps(b: Bubble, x: real, y: real, r: real): (o: bool)
    ensures o <==> SquaredDistance(Point(b.x, b.y), Point(x, y)) <= (b.r + r) * (b.r + r)
  {
    (x - b.x) * (x - b.x) + (y - b.y) * (y - b.y) <= (b.r + r) * (b.r + r)
  }

  predicate HitAt(g: Grid, i: int, j: int, x: real, y: real, r: real) {
    0 <= i < |g| && 0 <= j < |g[i]| && g[i][j].Some? && Overlaps(g[i][j].value, x, y, r)
  }

  /**
   * No overlapping bubble comes before slot s in the scan order of the
   * collision query: rows from the last one up, each row left to right.
   */
  predicate FirstHit(g: Grid, s: Slot, x: real, y: real, r: real) {
    && (forall i, j :: 0 <= i && s.row < i < |g| && 0 <= j < |g[i]| ==> !HitAt(g, i, j, x, y, r))
    && (forall j :: 0 <= j < s.col ==> !HitAt(g, s.row, j, x, y, r))
  }

  /** Scan row i from column j rightwards for the first overlapping bubble. */
  function ScanRow(g: Grid, i: nat, j: nat, x: real, y: real, r: real): (res: Option<nat>)
    requires i < |g| && j <= |g[i]|
    decreases |g[i]| - j
    ensures res.Some? ==> j <= res.value < |g[i]| && HitAt(g, i, res.value, x, y, r)
    ensures res.Some? ==> forall k :: j <= k < res.value ==> !HitAt(g, i, k, x, y, r)
    ensures res.None? ==> forall k :: j <= k < |g[i]| ==> !HitAt(g, i, k, x, y, r)
  {
    if j == |g[i]| then None
    else if HitAt(g, i, j, x, y, r) then Some(j)
    else ScanRow(g, i, j + 1, x, y, r)
  }

  /** Scan rows k-1 down to 0 for the first overlapping bubble. */
  function ScanRows(g: Grid, k: nat, x: real, y: real, r: real): (res: Option<Slot>)
    requires k <= |g|
    ensures res.Some? ==> 0 <= res.value.row < k && HitAt(g, res.value.row, res.value.col, x, y, r)
    ensures res.Some? ==> forall i, j :: res.value.row < i < k ==> !HitAt(g, i, j, x, y, r)
    ensures res.Some? ==> forall j :: 0 <= j < res.value.col ==> !HitAt(g, res.value.row, j, x, y, r)
    ensures res.None? ==> forall i, j :: 0 <= i < k ==> !HitAt(g, i, j, x, y, r)
  {
    if k == 0 then None
    else match ScanRow(g, k - 1, 0, x, y, r)
      case Some(j) => Some(Slot(k - 1, j))
      case None => ScanRows(g, k - 1, x, y, r)
  }

  /**
   * `check_collision`: the first resting bubble, in scan order, that the
   * circle of radius r at (x, y) touches. Every non-empty slot counts,
   * the decorative row-0 bubbles included.
   */
  function CheckCollision(g: Grid, x: real, y: real, r: real): (hit: Option<Bubble>)
    ensures hit.None? <==> forall b :: b in Occupied(g) ==> !Overlaps(b, x, y, r)
    ensures hit.Some? ==> hit.value in Occupied(g) && Overlaps(hit.value, x, y, r)
    ensures hit.Some? && Consistent(g) ==> Holds(g, hit.value) && FirstHit(g, SlotOf(hit.value), x, y, r)
  {
    match ScanRows(g, |g|, x, y, r)
    case None =>
      assert forall b :: b in Occupied(g) ==> !Overlaps(b, x, y, r) by {
        forall b | b in Occupied(g)
          ensures !Overlaps(b, x, y, r)
        {
          var i, j :| 0 <= i < |g| && 0 <= j < |g[i]| && g[i][j].Some? && g[i][j].value == b;
          assert !HitAt(g, i, j, x, y, r);
        }
      }
      None
    case Some(s) =>
      assert g[s.row][s.col].value in Occupied(g);
      g[s.row][s.col]
  }

  /** Squared distance from the centre of slot s to the point (fx, fy). */
  function SlotDistance(r: real, top: real, s: Slot, fx: real, fy: real): real {
    SquaredDistance(WorldPosition(r, top, s), Point(fx, fy))
  }

  /**
   * The landing rule: among the six neighbour candidates of slot c that read
   * as empty (out-of-range ones included), pos is the one whose centre is
   * nearest to (fx, fy), the first in list order on a tie, provided it is
   * nearer than the initial bound; None when no empty candidate is.
   */
  predicate NearestFree(g: Grid, r: real, top: real, c: Slot, fx: real, fy: real, pos: Option<Slot>) {
    var ni := NeighborhoodIndexes(c);
    match pos
    case None =>
      forall k :: 0 <= k < 6 && BubbleAt(g, ni[k]).None? ==> SlotDistance(r, top, ni[k], fx, fy) >= DistanceLimit
    case Some(s) =>
      && s in ni && BubbleAt(g, s).None?
      && SlotDistance(r, top, s, fx, fy) < DistanceLimit
      && forall k :: 0 <= k < 6 && BubbleAt(g, ni[k]).None? ==>
           && SlotDistance(r, top, s, fx, fy) <= SlotDistance(r, top, ni[k], fx, fy)
           && (SlotDistance(r, top, s, fx, fy) == SlotDistance(r, top, ni[k], fx, fy) ==> s in ni[..k + 1])
  }

  /** A slot the rule picks is one of the six candidates and reads as empty. */
  lemma PickedIsCandidate(g: Grid, r: real, top: real, c: Slot, fx: real, fy: real, s: Slot) returns (k: nat)
    requires NearestFree(g, r, top, c, fx, fy, Some(s))
    ensures k < 6 && NeighborhoodIndexes(c)[k] == s && BubbleAt(g, s).None?
    ensures SlotDistance(r, top, s, fx, fy) < DistanceLimit
  {
    k :| 0 <= k < 6 && NeighborhoodIndexes(c)[k] == s;
  }

  lemma FirstOfEqual(ni: seq<Slot>, a: nat, b: nat)
    requires |ni| == 6 && a < 6 && b < 6
    requires forall i, j :: 0 <= i < j < 6 ==> ni[i] != ni[j]
    requires ni[a] in ni[..b + 1]
    ensures a <= b
  {
    var m :| 0 <= m <= b && ni[m] == ni[a];
  }

  /** Two picked slots lie at the same distance, so each comes no later than the other in list order. */
  lemma TiedPicks(g: Grid, r: real, top: real, c: Slot, fx: real, fy: real, s: Slot, t: Slot, ks: nat, kt: nat)
    requires NearestFree(g, r, top, c, fx, fy, Some(s)) && NearestFree(g, r, top, c, fx, fy, Some(t))
    requires ks < 6 && NeighborhoodIndexes(c)[ks] == s && BubbleAt(g, s).None?
    requires kt < 6 && NeighborhoodIndexes(c)[kt] == t && BubbleAt(g, t).None?
    ensures s in NeighborhoodIndexes(c)[..kt + 1] && t in NeighborhoodIndexes(c)[..ks + 1]
  {
    var ds := SlotDistance(r, top, s, fx, fy);
    var dt := SlotDistance(r, top, t, fx, fy);
    assert ds <= dt;
    assert dt <= ds;
  }

  /** The landing rule determines the landing slot: it is a function of the board and the position. */
  lemma NearestFreeUnique(g: Grid, r: real, top: real, c: Slot, fx: real, fy: real, p: Option<Slot>, q: Option<Slot>)
    requires NearestFree(g, r, top, c, fx, fy, p) && NearestFree(g, r, top, c, fx, fy, q)
    ensures p == q
  {
    var ni := NeighborhoodIndexes(c);
    if p.Some? {
      var ks := PickedIsCandidate(g, r, top, c, fx, fy, p.value);
      if q.Some? {
        var kt := PickedIsCandidate(g, r, top, c, fx, fy, q.value);
        TiedPicks(g, r, top, c, fx, fy, p.value, q.value, ks, kt);
        NeighborsDistinct(c);
        FirstOfEqual(ni, ks, kt);
        FirstOfEqual(ni, kt, ks);
      }
    } else if q.Some? {
      var kt := PickedIsCandidate(g, r, top, c, fx, fy, q.value);
    }
  }
}
