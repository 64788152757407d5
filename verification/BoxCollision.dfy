/** Boxes against the solid tiles of a map (`TestBox` and `MoveBox` in src/game/collision.cpp), in
    exact coordinates. */
module BoxCollision {
  import opened Arith
  import opened Grids

  const TILE_SOLID := 1
  const TILE_NOHOOK := 3
  const TILE_NOLASER := 4

  datatype Vec = Vec(x: real, y: real)

  datatype MapData = NoMap | Map(width: nat, height: nat, index: seq<int>)
  type GameMap = m: MapData | m.Map? ==> m.width > 0 && m.height > 0 && |m.index| == m.width * m.height
    witness NoMap

  // ----- From coordinates to tiles ---------------------------------------------------------------

  /** Rounding to the nearest integer, halves away from zero. */
  function RoundToInt(x: real): int {
    if x > 0.0 then Trunc(x + 0.5) else Trunc(x - 0.5)
  }

  /** Division of integers: towards zero. */
  function Div32(x: int): int {
    if x < 0 then -(-x / 32) else x / 32
  }

  function Clamp(x: int, lo: int, hi: int): int {
    if x < lo then lo else if hi < x then hi else x
  }

  function GetTile(m: GameMap, x: int, y: int): int {
    if m.NoMap? then 0
    else
      var nx, ny := Clamp(Div32(x), 0, m.width - 1), Clamp(Div32(y), 0, m.height - 1);
      var t := m.index[Flat(m.width, m.height, nx, ny)];
      if TILE_SOLID <= t <= TILE_NOLASER then t else 0
  }

  predicate IsSolid(m: GameMap, x: int, y: int) {
    var t := GetTile(m, x, y);
    t == TILE_SOLID || t == TILE_NOHOOK
  }

  predicate CheckPoint(m: GameMap, x: real, y: real) {
    IsSolid(m, RoundToInt(x), RoundToInt(y))
  }

  predicate TestBox(m: GameMap, pos: Vec, size: Vec) {
    var hx, hy := size.x * 0.5, size.y * 0.5;
    || CheckPoint(m, pos.x - hx, pos.y - hy)
    || CheckPoint(m, pos.x + hx, pos.y - hy)
    || CheckPoint(m, pos.x - hx, pos.y + hy)
    || CheckPoint(m, pos.x + hx, pos.y + hy)
  }

  // ----- The corners stand for the whole box -----------------------------------------------------

  predicate InBox(q: Vec, pos: Vec, size: Vec) {
    && pos.x - size.x * 0.5 <= q.x <= pos.x + size.x * 0.5
    && pos.y - size.y * 0.5 <= q.y <= pos.y + size.y * 0.5
  }

  /** Some point of the closed box maps to a solid tile. */
  ghost predicate BoxTouchesSolid(m: GameMap, pos: Vec, size: Vec) {
    exists q :: InBox(q, pos, size) && CheckPoint(m, q.x, q.y)
  }

  function Column(x: real): int {
    Div32(RoundToInt(x))
  }

  /** The column of the map that a coordinate belongs to: column `k` begins half a unit before `32 * k`
      and ends half a unit before the next; the first and the last also have all that lies outside. */
  predicate InColumn(x: real, k: int, n: nat) {
    && 0 <= k < n
    && (k == 0 || 32.0 * k as real - 0.5 <= x)
    && (k == n - 1 || x < 32.0 * (k + 1) as real - 0.5)
  }

  lemma ColumnIs(x: real, k: int, n: nat)
    requires n > 0
    ensures Clamp(Column(x), 0, n - 1) == k <==> InColumn(x, k, n)
  {
    ColumnStarts(x, k);
    ColumnStarts(x, k + 1);
    hide Column;
  }

  /** Half a unit before a tile, but not before the first one, rounding enters it. */
  lemma ColumnStarts(x: real, k: int)
    ensures k >= 1 ==> (Column(x) >= k <==> 32.0 * k as real - 0.5 <= x)
  {
    var r := RoundToInt(x);
    RoundReaches(x, 32 * k);
    hide RoundToInt;
  }

  /** Rounding reaches a positive number half a unit before it. */
  lemma RoundReaches(x: real, n: int)
    ensures n >= 1 ==> (RoundToInt(x) >= n <==> n as real - 0.5 <= x)
  {
  }

  /** A point is solid exactly if the tile of its column and row, the edge tiles going on outside, has
      number 1 or 3. Without a map nothing is. */
  lemma CheckPointByNumbers(m: GameMap, x: real, y: real)
    ensures m.NoMap? ==> !CheckPoint(m, x, y)
    ensures m.Map? ==> forall cx, cy | InColumn(x, cx, m.width) && InColumn(y, cy, m.height) ::
      var t := m.index[Flat(m.width, m.height, cx, cy)];
      CheckPoint(m, x, y) <==> t == 1 || t == 3
    ensures m.Map? ==> exists cx, cy :: InColumn(x, cx, m.width) && InColumn(y, cy, m.height)
  {
    if m.Map? {
      var cx, cy := Clamp(Column(x), 0, m.width - 1), Clamp(Column(y), 0, m.height - 1);
      ColumnIs(x, cx, m.width);
      ColumnIs(y, cy, m.height);
      forall kx, ky | InColumn(x, kx, m.width) && InColumn(y, ky, m.height) ensures kx == cx && ky == cy {
        ColumnIs(x, kx, m.width);
        ColumnIs(y, ky, m.height);
      }
      hide InColumn, Clamp, RoundToInt, Div32;
    }
  }

  lemma ColumnMonotone(x: real, y: real)
    requires x <= y
    ensures Column(x) <= Column(y)
  {
  }

  /** A stretch of at most 32 units meets at most two neighbouring columns. */
  lemma ColumnGap(x: real, y: real)
    requires x <= y <= x + 32.0
    ensures Column(y) <= Column(x) + 1
  {
  }

  lemma ColumnBetween(a: real, q: real, b: real)
    requires a <= q <= b <= a + 32.0
    ensures Column(q) == Column(a) || Column(q) == Column(b)
  {
    ColumnMonotone(a, q);
    ColumnMonotone(q, b);
    ColumnGap(a, b);
  }

  lemma SameColumns(m: GameMap, x: real, y: real, x': real, y': real)
    requires Column(x) == Column(x') && Column(y) == Column(y')
    ensures CheckPoint(m, x, y) == CheckPoint(m, x', y')
  {
  }

  /** A solid point of the box makes the corner solid that maps to the same tile. */
  lemma SolidPointMeansSolidCorner(m: GameMap, pos: Vec, size: Vec, q: Vec)
    requires 0.0 <= size.x <= 32.0 && 0.0 <= size.y <= 32.0
    requires InBox(q, pos, size) && CheckPoint(m, q.x, q.y)
    ensures TestBox(m, pos, size)
  {
    hide CheckPoint;
    hide Column;
    var hx, hy := size.x * 0.5, size.y * 0.5;
    ColumnBetween(pos.x - hx, q.x, pos.x + hx);
    ColumnBetween(pos.y - hy, q.y, pos.y + hy);
    var x := if Column(q.x) == Column(pos.x - hx) then pos.x - hx else pos.x + hx;
    var y := if Column(q.y) == Column(pos.y - hy) then pos.y - hy else pos.y + hy;
    SameColumns(m, q.x, q.y, x, y);
  }

  /** For boxes of at most 32 units the test of the corners is exact. */
  lemma TestBoxIsExact(m: GameMap, pos: Vec, size: Vec)
    requires 0.0 <= size.x <= 32.0 && 0.0 <= size.y <= 32.0
    ensures TestBox(m, pos, size) <==> BoxTouchesSolid(m, pos, size)
  {
    hide CheckPoint;
    forall q | InBox(q, pos, size) && CheckPoint(m, q.x, q.y) ensures TestBox(m, pos, size) {
      SolidPointMeansSolidCorner(m, pos, size, q);
    }
    if TestBox(m, pos, size) {
      var hx, hy := size.x * 0.5, size.y * 0.5;
      var x := if CheckPoint(m, pos.x - hx, pos.y - hy) || CheckPoint(m, pos.x - hx, pos.y + hy) then pos.x - hx else pos.x + hx;
      var y := if CheckPoint(m, x, pos.y - hy) then pos.y - hy else pos.y + hy;
      assert InBox(Vec(x, y), pos, size) && CheckPoint(m, Vec(x, y).x, Vec(x, y).y);
    }
  }

  /** Maps of three tiles, side by side or one above the other, of which the middle one is solid. */
  const WALL: GameMap := Map(3, 1, [0, TILE_SOLID, 0])
  const FLOOR: GameMap := Map(1, 3, [0, TILE_SOLID, 0])

  lemma MiddleIsSolid(x: real, y: real)
    ensures CheckPoint(WALL, x, y) <==> Column(x) == 1
    ensures CheckPoint(FLOOR, x, y) <==> Column(y) == 1
  {
    hide Div32;
    hide RoundToInt;
  }

  lemma OnlyMiddleIsSolid()
    ensures forall x, y :: CheckPoint(WALL, x, y) <==> Column(x) == 1
    ensures forall x, y :: CheckPoint(FLOOR, x, y) <==> Column(y) == 1
  {
    forall x, y
      ensures CheckPoint(WALL, x, y) <==> Column(x) == 1
      ensures CheckPoint(FLOOR, x, y) <==> Column(y) == 1
    {
      MiddleIsSolid(x, y);
    }
    hide CheckPoint, Column;
  }

  /** The ends of a stretch of more than 32 units can stand on both sides of a tile that it crosses. */
  lemma LongStretch(length: real) returns (left: real)
    requires length > 32.0
    ensures Column(left) == 0 && Column(left + length) >= 2
    ensures left <= 40.0 <= left + length && Column(40.0) == 1
  {
    var e := if length > 33.0 then 0.5 else (length - 32.0) / 2.0;
    left := 31.5 - e;
  }

  /** For wider boxes it is not: the corners can stand left and right of a solid column. */
  lemma WiderBoxesAreMissed(size: Vec)
    requires size.x > 32.0 && size.y >= 0.0
    ensures exists m: GameMap, pos :: !TestBox(m, pos, size) && BoxTouchesSolid(m, pos, size)
  {
    OnlyMiddleIsSolid();
    hide Column, CheckPoint, WALL, FLOOR;
    var left := LongStretch(size.x);
    var pos, q := Vec(left + size.x * 0.5, 0.0), Vec(40.0, 0.0);
    assert pos.x - size.x * 0.5 == left && pos.x + size.x * 0.5 == left + size.x;
    assert InBox(q, pos, size) && CheckPoint(WALL, q.x, q.y);
    assert !TestBox(WALL, pos, size);
  }

  /** Nor for higher ones: they can stand above and below a solid row. */
  lemma HigherBoxesAreMissed(size: Vec)
    requires size.x >= 0.0 && size.y > 32.0
    ensures exists m: GameMap, pos :: !TestBox(m, pos, size) && BoxTouchesSolid(m, pos, size)
  {
    OnlyMiddleIsSolid();
    hide Column, CheckPoint, WALL, FLOOR;
    var top := LongStretch(size.y);
    var pos, q := Vec(0.0, top + size.y * 0.5), Vec(0.0, 40.0);
    assert pos.y - size.y * 0.5 == top && pos.y + size.y * 0.5 == top + size.y;
    assert InBox(q, pos, size) && CheckPoint(FLOOR, q.x, q.y);
    assert !TestBox(FLOOR, pos, size);
  }

  /** The test is right on every map and at every place exactly for boxes of at most 32 by 32. */
  lemma ExactUpTo32(size: Vec)
    requires size.x >= 0.0 && size.y >= 0.0
    ensures (forall m: GameMap, pos :: TestBox(m, pos, size) <==> BoxTouchesSolid(m, pos, size))
      <==> size.x <= 32.0 && size.y <= 32.0
  {
    hide TestBox;
    hide BoxTouchesSolid;
    if size.x > 32.0 {
      WiderBoxesAreMissed(size);
    } else if size.y > 32.0 {
      HigherBoxesAreMissed(size);
    } else {
      forall m: GameMap, pos ensures TestBox(m, pos, size) <==> BoxTouchesSolid(m, pos, size) {
        TestBoxIsExact(m, pos, size);
      }
    }
  }

  // ----- Moving a box ----------------------------------------------------------------------------

  function Square(v: Vec): real {
    v.x * v.x + v.y * v.y
  }

  /** `n` is the length of `v` without its fraction. */
  predicate IsWholeLength(n: nat, v: Vec) {
    (n * n) as real <= Square(v) < ((n + 1) * (n + 1)) as real
  }

  /** That number is the greatest whose square is not above that of the length, and there always is one. */
  lemma WholeLengthIs(v: Vec) returns (n: nat)
    ensures forall k: nat :: IsWholeLength(k, v) <==> k == n
    ensures forall k: nat :: k <= n <==> (k * k) as real <= Square(v)
    ensures Square(v) == v.x * v.x + v.y * v.y
  {
    SquareIsPositive(v);
    n := WholeRoot(Square(v));
    RootIsGreatest(n, Square(v));
    forall k: nat | IsWholeLength(k, v) ensures k == n {
      RootIsGreatest(k, Square(v));
      assert (k * k) as real <= Square(v) && (n * n) as real <= Square(v);
    }
  }

  lemma RootIsGreatest(n: nat, q: real)
    requires (n * n) as real <= q < ((n + 1) * (n + 1)) as real
    ensures forall k: nat :: k <= n <==> (k * k) as real <= q
  {
    forall k: nat ensures k <= n <==> (k * k) as real <= q {
      SquaresGrow(k, n);
      SquaresGrow(n + 1, k);
    }
  }

  lemma WholeRoot(q: real) returns (n: nat)
    requires q >= 0.0
    ensures (n * n) as real <= q < ((n + 1) * (n + 1)) as real
  {
    n := q.Floor + 1;
    SquaresGrow(1, n);
    while q < (n * n) as real
      invariant q < ((n + 1) * (n + 1)) as real
    {
      n := n - 1;
    }
  }

  lemma SquareIsPositive(v: Vec)
    ensures Square(v) >= 0.0
  {
  }

  lemma SquaresGrow(a: nat, b: nat)
    ensures a <= b ==> a * a <= b * b
  {
  }

  /** Longer than the program's threshold of 0.00001. */
  predicate Moves(v: Vec) {
    Square(v) > 0.0000000001
  }

  function Abs(x: real): real {
    if x < 0.0 then -x else x
  }

  /** The point after `i` of `n` equal steps along `v`. */
  function Along(pos: Vec, v: Vec, i: nat, n: nat): Vec
    requires n > 0
  {
    Vec(pos.x + v.x * (1.0 / n as real) * i as real, pos.y + v.y * (1.0 / n as real) * i as real)
  }

  /** Where a free step leads. */
  function Stepped(pos: Vec, vel: Vec, fraction: real): Vec {
    Vec(pos.x + vel.x * fraction, pos.y + vel.y * fraction)
  }

  /** On each axis a step goes its way, or stays and turns the velocity. */
  predicate AxisMoved(p: real, v: real, p': real, v': real, fraction: real, elasticity: real) {
    (p' == p + v * fraction && v' == v) || (p' == p && v' == v * -elasticity)
  }

  function Reflected(v: real, elasticity: real): real {
    v * -elasticity
  }

  /** On an axis the step goes on to `next`, or stays and reflects. */
  predicate AxisIs(stays: bool, p: real, v: real, next: real, p': real, v': real, elasticity: real) {
    if stays then p' == p && v' == Reflected(v, elasticity) else p' == next && v' == v
  }

  /** What one step does, by the three tests alone: an axis stays only if the step is blocked and, of
      its two parts, that along the axis is blocked too, or neither is. */
  predicate StepIs(m: GameMap, pos: Vec, vel: Vec, size: Vec, fraction: real, elasticity: real, pos': Vec, vel': Vec) {
    var next := Stepped(pos, vel, fraction);
    var whole := TestBox(m, next, size);
    var across, down := TestBox(m, Vec(next.x, pos.y), size), TestBox(m, Vec(pos.x, next.y), size);
    && AxisIs(whole && (across || !down), pos.x, vel.x, next.x, pos'.x, vel'.x, elasticity)
    && AxisIs(whole && (down || !across), pos.y, vel.y, next.y, pos'.y, vel'.y, elasticity)
  }

  /** One step to `pos + vel * fraction`, or as far of it as is free. */
  method MoveStep(m: GameMap, pos: Vec, vel: Vec, size: Vec, fraction: real, elasticity: real) returns (pos': Vec, vel': Vec)
    ensures !TestBox(m, pos, size) ==> !TestBox(m, pos', size)
    ensures !TestBox(m, Stepped(pos, vel, fraction), size) ==> pos' == Stepped(pos, vel, fraction) && vel' == vel
    ensures AxisMoved(pos.x, vel.x, pos'.x, vel'.x, fraction, elasticity)
    ensures AxisMoved(pos.y, vel.y, pos'.y, vel'.y, fraction, elasticity)
    ensures StepIs(m, pos, vel, size, fraction, elasticity, pos', vel')
  {
    hide TestBox;
    hide Reflected;
    hide Stepped;
    hide AxisMoved;
    GoesOn(pos, vel, fraction, elasticity);
    StaysBack(pos.x, vel.x, fraction, elasticity);
    StaysBack(pos.y, vel.y, fraction, elasticity);
    vel' := vel;
    pos' := Stepped(pos, vel, fraction);
    if TestBox(m, pos', size) {
      var hits := 0;
      if TestBox(m, Vec(pos.x, pos'.y), size) {
        pos' := Vec(pos'.x, pos.y);
        vel' := Vec(vel'.x, Reflected(vel'.y, elasticity));
        hits := hits + 1;
      }
      if TestBox(m, Vec(pos'.x, pos.y), size) {
        pos' := Vec(pos.x, pos'.y);
        vel' := Vec(Reflected(vel'.x, elasticity), vel'.y);
        hits := hits + 1;
      }
      if hits == 0 {
        pos' := Vec(pos.x, pos.y);
        vel' := Vec(Reflected(vel'.x, elasticity), Reflected(vel'.y, elasticity));
      }
    }
  }

  lemma GoesOn(pos: Vec, vel: Vec, fraction: real, elasticity: real)
    ensures AxisMoved(pos.x, vel.x, Stepped(pos, vel, fraction).x, vel.x, fraction, elasticity)
    ensures AxisMoved(pos.y, vel.y, Stepped(pos, vel, fraction).y, vel.y, fraction, elasticity)
  {
  }

  lemma StaysBack(p: real, v: real, fraction: real, elasticity: real)
    ensures AxisMoved(p, v, p, Reflected(v, elasticity), fraction, elasticity)
  {
  }

  /** A step of positive length goes somewhere: the second early exit of the loop is for rounding only. */
  lemma StepMoves(pos: Vec, vel: Vec, fraction: real)
    requires vel != Vec(0.0, 0.0) && fraction > 0.0
    ensures Stepped(pos, vel, fraction) != pos
  {
    NonZeroProduct(vel.x, fraction);
    NonZeroProduct(vel.y, fraction);
  }

  lemma NonZeroProduct(a: real, b: real)
    requires b > 0.0
    ensures a * b == 0.0 <==> a == 0.0
  {
    if a > 0.0 {
      assert a * b > 0.0;
    } else if a < 0.0 {
      assert -a * b > 0.0;
    }
  }

  // ----- Speed and way on one axis ---------------------------------------------------------------

  function Times(i: nat, step: real): real {
    i as real * step
  }

  /** What is kept of one axis after `i` steps: the speed does not grow and the way is bounded. */
  predicate AxisKept(p0: real, v0: real, p: real, v: real, i: nat, fraction: real) {
    Abs(v) <= Abs(v0) && Abs(p - p0) <= Times(i, Abs(v0) * fraction)
  }

  lemma AxisStep(p0: real, v0: real, p: real, v: real, i: nat, fraction: real, elasticity: real, p': real, v': real)
    requires AxisKept(p0, v0, p, v, i, fraction) && fraction > 0.0 && 0.0 <= elasticity <= 1.0
    requires AxisMoved(p, v, p', v', fraction, elasticity)
    ensures AxisKept(p0, v0, p', v', i + 1, fraction)
  {
    var step := Abs(v0) * fraction;
    assert Times(i + 1, step) == Times(i, step) + step;
    AxisStepBounds(v0, v, fraction, elasticity);
    hide Times;
    assert p' == p + v * fraction || p' == p;
  }

  lemma AxisStepBounds(v0: real, v: real, fraction: real, elasticity: real)
    requires Abs(v) <= Abs(v0) && fraction > 0.0 && 0.0 <= elasticity <= 1.0
    ensures Abs(v * fraction) <= Abs(v0) * fraction && Abs(v0) * fraction >= 0.0
    ensures Abs(v * -elasticity) <= Abs(v0)
  {
    ScaleDown(v, v0, fraction);
    ScaleDown(elasticity, 1.0, Abs(v));
    assert v * -elasticity == -(elasticity * v);
    assert elasticity * Abs(v) == Abs(elasticity * v);
  }

  lemma ScaleDown(a: real, b: real, c: real)
    requires Abs(a) <= Abs(b) && c >= 0.0
    ensures Abs(a * c) <= Abs(b) * c && Abs(b) * c >= 0.0
  {
    assert (Abs(b) - Abs(a)) * c >= 0.0;
    if a < 0.0 {
      assert a * c == -(-a * c);
      assert -a * c >= 0.0;
    } else {
      assert a * c >= 0.0;
    }
  }

  lemma AxisStart(p: real, v: real, fraction: real)
    ensures AxisKept(p, v, p, v, 0, fraction)
  {
  }

  lemma AxisEnd(p0: real, v0: real, p: real, v: real, i: nat, n: nat, fraction: real)
    requires AxisKept(p0, v0, p, v, i, fraction) && i <= n && n > 0 && fraction == 1.0 / n as real
    ensures Abs(v) <= Abs(v0) && Abs(p - p0) <= Abs(v0)
  {
    var step := Abs(v0) * fraction;
    assert fraction * n as real == 1.0;
    Associate(Abs(v0), fraction, n as real);
    assert step * n as real == Abs(v0);
    assert step >= 0.0;
    assert (n - i) as real * step >= 0.0;
  }

  // ----- A free way ------------------------------------------------------------------------------

  /** All points of the way are free. */
  ghost predicate WayIsFree(m: GameMap, pos: Vec, vel: Vec, n: nat, size: Vec)
    requires n > 0
  {
    forall i | 1 <= i <= n :: !TestBox(m, Along(pos, vel, i, n), size)
  }

  lemma AlongNext(pos: Vec, vel: Vec, i: nat, n: nat)
    requires n > 0
    ensures Along(pos, vel, i + 1, n) == Stepped(Along(pos, vel, i, n), vel, 1.0 / n as real)
  {
    var f := 1.0 / n as real;
    assert vel.x * f * (i + 1) as real == vel.x * f * i as real + vel.x * f by {
      Distribute(vel.x, f, i);
    }
    assert vel.y * f * (i + 1) as real == vel.y * f * i as real + vel.y * f by {
      Distribute(vel.y, f, i);
    }
  }

  lemma AlongEnds(pos: Vec, vel: Vec, n: nat)
    requires n > 0
    ensures Along(pos, vel, 0, n) == pos && Along(pos, vel, n, n) == Vec(pos.x + vel.x, pos.y + vel.y)
  {
    var f := 1.0 / n as real;
    assert f * n as real == 1.0;
    Associate(vel.x, f, n as real);
    Associate(vel.y, f, n as real);
  }

  lemma FreeStep(m: GameMap, pos: Vec, vel: Vec, i: nat, n: nat, size: Vec)
    requires n > i && WayIsFree(m, pos, vel, n, size)
    ensures !TestBox(m, Stepped(Along(pos, vel, i, n), vel, 1.0 / n as real), size)
  {
    AlongNext(pos, vel, i, n);
  }

  lemma Distribute(v: real, f: real, i: nat)
    ensures v * f * (i + 1) as real == v * f * i as real + v * f
  {
  }

  lemma Associate(a: real, b: real, c: real)
    ensures a * b * c == a * (b * c)
  {
  }

  // ----- The move --------------------------------------------------------------------------------

  function Across(v: Vec): Vec {
    Vec(v.x, 0.0)
  }

  function Down(v: Vec): Vec {
    Vec(0.0, v.y)
  }

  /** The box runs along a floor or ceiling (`w` is the velocity across) or along a wall (down): all
      that it passes with `w` is free, and the first step is blocked, as a whole and in its other part. */
  ghost predicate RunsAlong(m: GameMap, pos: Vec, vel: Vec, w: Vec, n: nat, size: Vec)
    requires n > 0
  {
    var next := Stepped(pos, vel, 1.0 / n as real);
    && (|| (w == Across(vel) && TestBox(m, Vec(pos.x, next.y), size))
        || (w == Down(vel) && TestBox(m, Vec(next.x, pos.y), size)))
    && TestBox(m, next, size)
    && forall i | 0 < i <= n :: !TestBox(m, Along(pos, w, i, n), size)
  }

  /** After `i` steps of such a run. */
  predicate Running(pos0: Vec, vel0: Vec, w: Vec, i: nat, n: nat, pos: Vec, vel: Vec)
    requires n > 0
  {
    if i == 0 then pos == pos0 && vel == vel0 else pos == Along(pos0, w, i, n) && vel == w
  }

  lemma RunStart(m: GameMap, pos0: Vec, vel0: Vec, w: Vec, n: nat, size: Vec, pos: Vec, vel: Vec)
    requires n > 0 && RunsAlong(m, pos0, vel0, w, n, size)
    requires StepIs(m, pos0, vel0, size, 1.0 / n as real, 0.0, pos, vel)
    ensures Running(pos0, vel0, w, 1, n, pos, vel)
  {
    hide TestBox, Stepped, Along;
    PartsOfFirst(pos0, vel0, n);
    assert !TestBox(m, Along(pos0, w, 1, n), size);
  }

  /** Along `w` the first step goes as far as the whole step goes on its axis. */
  lemma PartsOfFirst(pos: Vec, vel: Vec, n: nat)
    requires n > 0
    ensures
      var next := Stepped(pos, vel, 1.0 / n as real);
      Along(pos, Across(vel), 1, n) == Vec(next.x, pos.y) && Along(pos, Down(vel), 1, n) == Vec(pos.x, next.y)
  {
  }

  lemma RunOn(m: GameMap, pos0: Vec, vel0: Vec, w: Vec, i: nat, n: nat, size: Vec, pos: Vec, vel: Vec)
    requires n > i > 0 && RunsAlong(m, pos0, vel0, w, n, size) && Running(pos0, vel0, w, i, n, pos, vel)
    ensures !TestBox(m, Stepped(pos, vel, 1.0 / n as real), size)
    ensures Running(pos0, vel0, w, i + 1, n, Stepped(pos, vel, 1.0 / n as real), vel)
  {
    hide TestBox, Stepped, Along;
    AlongNext(pos0, w, i, n);
    assert !TestBox(m, Along(pos0, w, i + 1, n), size);
  }

  /** What a move keeps, `i` of `n` steps on. */
  ghost predicate Went(m: GameMap, pos0: Vec, vel0: Vec, size: Vec, elasticity: real, n: nat, i: nat, pos: Vec, vel: Vec)
    requires n > 0
  {
    && (!TestBox(m, pos0, size) ==> !TestBox(m, pos, size))
    && (0.0 <= elasticity <= 1.0 ==>
          && AxisKept(pos0.x, vel0.x, pos.x, vel.x, i, 1.0 / n as real)
          && AxisKept(pos0.y, vel0.y, pos.y, vel.y, i, 1.0 / n as real))
    && (WayIsFree(m, pos0, vel0, n, size) ==> pos == Along(pos0, vel0, i, n) && vel == vel0)
    && (elasticity == 0.0 && RunsAlong(m, pos0, vel0, Across(vel0), n, size) ==>
          Running(pos0, vel0, Across(vel0), i, n, pos, vel))
    && (elasticity == 0.0 && RunsAlong(m, pos0, vel0, Down(vel0), n, size) ==>
          Running(pos0, vel0, Down(vel0), i, n, pos, vel))
  }

  lemma WentStart(m: GameMap, pos0: Vec, vel0: Vec, size: Vec, elasticity: real, n: nat)
    requires n > 0
    ensures Went(m, pos0, vel0, size, elasticity, n, 0, pos0, vel0)
  {
    hide TestBox, Along, AxisKept, WayIsFree, RunsAlong;
    AlongEnds(pos0, vel0, n);
    AxisStart(pos0.x, vel0.x, 1.0 / n as real);
    AxisStart(pos0.y, vel0.y, 1.0 / n as real);
  }

  lemma WentOn(m: GameMap, pos0: Vec, vel0: Vec, size: Vec, elasticity: real, n: nat, i: nat, pos: Vec, vel: Vec,
      pos': Vec, vel': Vec)
    requires i < n && Went(m, pos0, vel0, size, elasticity, n, i, pos, vel)
    requires StepIs(m, pos, vel, size, 1.0 / n as real, elasticity, pos', vel')
    requires !TestBox(m, pos, size) ==> !TestBox(m, pos', size)
    requires AxisMoved(pos.x, vel.x, pos'.x, vel'.x, 1.0 / n as real, elasticity)
    requires AxisMoved(pos.y, vel.y, pos'.y, vel'.y, 1.0 / n as real, elasticity)
    ensures Went(m, pos0, vel0, size, elasticity, n, i + 1, pos', vel')
  {
    hide TestBox, Along, AxisKept, AxisMoved, Stepped, WayIsFree, RunsAlong, Running, StepIs;
    if 0.0 <= elasticity <= 1.0 {
      AxisStep(pos0.x, vel0.x, pos.x, vel.x, i, 1.0 / n as real, elasticity, pos'.x, vel'.x);
      AxisStep(pos0.y, vel0.y, pos.y, vel.y, i, 1.0 / n as real, elasticity, pos'.y, vel'.y);
    }
    if WayIsFree(m, pos0, vel0, n, size) {
      FreeStep(m, pos0, vel0, i, n, size);
      AlongNext(pos0, vel0, i, n);
      FreeGoes(m, pos, vel, size, 1.0 / n as real, elasticity, pos', vel');
    }
    if elasticity == 0.0 && RunsAlong(m, pos0, vel0, Across(vel0), n, size) {
      RunStep(m, pos0, vel0, Across(vel0), i, n, size, pos, vel, pos', vel');
    }
    if elasticity == 0.0 && RunsAlong(m, pos0, vel0, Down(vel0), n, size) {
      RunStep(m, pos0, vel0, Down(vel0), i, n, size, pos, vel, pos', vel');
    }
  }

  lemma FreeGoes(m: GameMap, pos: Vec, vel: Vec, size: Vec, fraction: real, elasticity: real, pos': Vec, vel': Vec)
    requires StepIs(m, pos, vel, size, fraction, elasticity, pos', vel')
    requires !TestBox(m, Stepped(pos, vel, fraction), size)
    ensures pos' == Stepped(pos, vel, fraction) && vel' == vel
  {
    hide TestBox, Stepped;
  }

  lemma RunStep(m: GameMap, pos0: Vec, vel0: Vec, w: Vec, i: nat, n: nat, size: Vec, pos: Vec, vel: Vec, pos': Vec, vel': Vec)
    requires n > i && RunsAlong(m, pos0, vel0, w, n, size) && Running(pos0, vel0, w, i, n, pos, vel)
    requires StepIs(m, pos, vel, size, 1.0 / n as real, 0.0, pos', vel')
    ensures Running(pos0, vel0, w, i + 1, n, pos', vel')
  {
    hide TestBox, Stepped, RunsAlong, StepIs, Along;
    if i == 0 {
      RunStart(m, pos0, vel0, w, n, size, pos', vel');
    } else {
      RunOn(m, pos0, vel0, w, i, n, size, pos, vel);
      FreeGoes(m, pos, vel, size, 1.0 / n as real, 0.0, pos', vel');
    }
  }

  datatype Moving = Moving(pos: Vec, vel: Vec)

  /** Step after step. */
  ghost predicate Walks(m: GameMap, size: Vec, fraction: real, elasticity: real, path: seq<Moving>) {
    forall k | 0 <= k < |path| - 1 ::
      StepIs(m, path[k].pos, path[k].vel, size, fraction, elasticity, path[k + 1].pos, path[k + 1].vel)
  }

  lemma WalkStart(m: GameMap, size: Vec, fraction: real, elasticity: real, first: Moving)
    ensures Walks(m, size, fraction, elasticity, [first])
  {
  }

  lemma WalkOn(m: GameMap, size: Vec, fraction: real, elasticity: real, path: seq<Moving>, pos: Vec, vel: Vec)
    requires Walks(m, size, fraction, elasticity, path) && |path| > 0
    requires
      var last := path[|path| - 1];
      StepIs(m, last.pos, last.vel, size, fraction, elasticity, pos, vel)
    ensures Walks(m, size, fraction, elasticity, path + [Moving(pos, vel)])
  {
    hide StepIs;
  }

  /** A box at rest would stay where it is in all steps that are left out. */
  lemma {:induction false} RestGoesOn(m: GameMap, size: Vec, fraction: real, elasticity: real, path: seq<Moving>, n: nat)
      returns (whole: seq<Moving>)
    requires Walks(m, size, fraction, elasticity, path) && 0 < |path| <= n
    requires |path| == n || path[|path| - 1].vel == Vec(0.0, 0.0)
    ensures Walks(m, size, fraction, elasticity, whole)
    ensures |whole| == n && whole[0] == path[0] && whole[n - 1] == path[|path| - 1]
    decreases n - |path|
  {
    hide Walks;
    whole := path;
    if |path| < n {
      var last := path[|path| - 1];
      StaysAtRest(m, last.pos, size, fraction, elasticity);
      WalkOn(m, size, fraction, elasticity, path, last.pos, last.vel);
      whole := RestGoesOn(m, size, fraction, elasticity, path + [last], n);
    }
  }

  lemma StaysAtRest(m: GameMap, pos: Vec, size: Vec, fraction: real, elasticity: real)
    ensures StepIs(m, pos, Vec(0.0, 0.0), size, fraction, elasticity, pos, Vec(0.0, 0.0))
  {
    hide TestBox;
    assert Stepped(pos, Vec(0.0, 0.0), fraction) == pos;
    assert Reflected(0.0, elasticity) == 0.0;
  }

  /** Moves a box along `vel` in steps shorter than one unit. `max` is the whole part of the speed. */
  method MoveBox(m: GameMap, pos0: Vec, vel0: Vec, size: Vec, elasticity: real, max: nat) returns (pos: Vec, vel: Vec)
    requires IsWholeLength(max, vel0)
    // It never ends in a solid tile, whatever the elasticity.
    ensures !TestBox(m, pos0, size) ==> !TestBox(m, pos, size)
    // It neither gains speed nor goes further than the speed on any axis.
    ensures 0.0 <= elasticity <= 1.0 ==>
      && Abs(vel.x) <= Abs(vel0.x) && Abs(pos.x - pos0.x) <= Abs(vel0.x)
      && Abs(vel.y) <= Abs(vel0.y) && Abs(pos.y - pos0.y) <= Abs(vel0.y)
    // On a free way it goes all the way.
    ensures Moves(vel0) && WayIsFree(m, pos0, vel0, max + 1, size) ==>
      pos == Vec(pos0.x + vel0.x, pos0.y + vel0.y) && vel == vel0
    // Without elasticity it runs along floors, ceilings and walls with the speed that it has there.
    ensures Moves(vel0) && elasticity == 0.0 && RunsAlong(m, pos0, vel0, Across(vel0), max + 1, size) ==>
      pos == Vec(pos0.x + vel0.x, pos0.y) && vel == Vec(vel0.x, 0.0)
    ensures Moves(vel0) && elasticity == 0.0 && RunsAlong(m, pos0, vel0, Down(vel0), max + 1, size) ==>
      pos == Vec(pos0.x, pos0.y + vel0.y) && vel == Vec(0.0, vel0.y)
    // It is as if all steps were taken: to leave the loop early is a shortcut only.
    ensures Square(vel0) > 0.0000000001 ==> exists path: seq<Moving> ::
      && |path| == max + 2 && path[0] == Moving(pos0, vel0) && path[max + 1] == Moving(pos, vel)
      && Walks(m, size, 1.0 / (max + 1) as real, elasticity, path)
    // What is too slow to count does not move.
    ensures Square(vel0) <= 0.0000000001 ==> pos == pos0 && vel == vel0
  {
    hide TestBox;
    hide AxisMoved;
    hide Stepped;
    hide WayIsFree;
    hide RunsAlong;
    hide Went;
    hide StepIs;
    hide Walks;
    pos, vel := pos0, vel0;
    if !Moves(vel0) {
      return;
    }
    NotAtRest(vel0);
    hide Moves;
    var n := max + 1;
    var fraction := 1.0 / n as real;
    WentStart(m, pos0, vel0, size, elasticity, n);
    ghost var steps, path := 0, [Moving(pos0, vel0)];
    WalkStart(m, size, fraction, elasticity, path[0]);
    for i := 0 to n
      invariant steps == i && (i == 0 ==> vel == vel0)
      invariant Went(m, pos0, vel0, size, elasticity, n, steps, pos, vel)
      invariant |path| == steps + 1 && path[0] == Moving(pos0, vel0) && path[steps] == Moving(pos, vel)
      invariant Walks(m, size, fraction, elasticity, path)
    {
      if vel == Vec(0.0, 0.0) {
        break;
      }
      if Stepped(pos, vel, fraction) == pos {
        StepMoves(pos, vel, fraction);
        assert false;
        break;
      }
      ghost var p, v := pos, vel;
      pos, vel := MoveStep(m, pos, vel, size, fraction, elasticity);
      WentOn(m, pos0, vel0, size, elasticity, n, i, p, v, pos, vel);
      WalkOn(m, size, fraction, elasticity, path, pos, vel);
      steps, path := i + 1, path + [Moving(pos, vel)];
    }
    path := RestGoesOn(m, size, fraction, elasticity, path, n + 1);
    WentEnd(m, pos0, vel0, size, elasticity, n, steps, pos, vel);
  }

  /** At the end, or at rest before. */
  lemma WentEnd(m: GameMap, pos0: Vec, vel0: Vec, size: Vec, elasticity: real, n: nat, i: nat, pos: Vec, vel: Vec)
    requires i <= n && n > 0 && Went(m, pos0, vel0, size, elasticity, n, i, pos, vel)
    requires vel0 != Vec(0.0, 0.0) && (i == n || (i > 0 && vel == Vec(0.0, 0.0)))
    ensures !TestBox(m, pos0, size) ==> !TestBox(m, pos, size)
    ensures 0.0 <= elasticity <= 1.0 ==>
      && Abs(vel.x) <= Abs(vel0.x) && Abs(pos.x - pos0.x) <= Abs(vel0.x)
      && Abs(vel.y) <= Abs(vel0.y) && Abs(pos.y - pos0.y) <= Abs(vel0.y)
    ensures WayIsFree(m, pos0, vel0, n, size) ==> pos == Vec(pos0.x + vel0.x, pos0.y + vel0.y) && vel == vel0
    ensures elasticity == 0.0 && RunsAlong(m, pos0, vel0, Across(vel0), n, size) ==>
      pos == Vec(pos0.x + vel0.x, pos0.y) && vel == Vec(vel0.x, 0.0)
    ensures elasticity == 0.0 && RunsAlong(m, pos0, vel0, Down(vel0), n, size) ==>
      pos == Vec(pos0.x, pos0.y + vel0.y) && vel == Vec(0.0, vel0.y)
  {
    hide TestBox, Along, AxisKept, WayIsFree, RunsAlong, Running;
    AlongEnds(pos0, vel0, n);
    if 0.0 <= elasticity <= 1.0 {
      AxisEnd(pos0.x, vel0.x, pos.x, vel.x, i, n, 1.0 / n as real);
      AxisEnd(pos0.y, vel0.y, pos.y, vel.y, i, n, 1.0 / n as real);
    }
    if elasticity == 0.0 && RunsAlong(m, pos0, vel0, Across(vel0), n, size) {
      RunEnd(pos0, vel0, Across(vel0), i, n, pos, vel);
    }
    if elasticity == 0.0 && RunsAlong(m, pos0, vel0, Down(vel0), n, size) {
      RunEnd(pos0, vel0, Down(vel0), i, n, pos, vel);
    }
  }

  lemma RunEnd(pos0: Vec, vel0: Vec, w: Vec, i: nat, n: nat, pos: Vec, vel: Vec)
    requires n > 0 && Running(pos0, vel0, w, i, n, pos, vel)
    requires 0 < i <= n && (i == n || vel == Vec(0.0, 0.0))
    ensures pos == Vec(pos0.x + w.x, pos0.y + w.y) && vel == w
  {
    hide Along;
    AlongEnds(pos0, w, n);
    if w == Vec(0.0, 0.0) {
      RestsAlong(pos0, i, n);
    }
  }

  lemma RestsAlong(pos: Vec, i: nat, n: nat)
    requires n > 0
    ensures Along(pos, Vec(0.0, 0.0), i, n) == pos
  {
    assert 0.0 * (1.0 / n as real) * i as real == 0.0;
  }

  lemma NotAtRest(v: Vec)
    requires Moves(v)
    ensures v != Vec(0.0, 0.0)
  {
  }

  /** Box after box, in any number of moves: what is free stays free. */
  method MoveOften(m: GameMap, pos0: Vec, size: Vec, moves: seq<(Vec, real, nat)>) returns (pos: Vec)
    requires 0.0 <= size.x <= 32.0 && 0.0 <= size.y <= 32.0
    requires forall i | 0 <= i < |moves| :: IsWholeLength(moves[i].2, moves[i].0)
    ensures !BoxTouchesSolid(m, pos0, size) ==> !BoxTouchesSolid(m, pos, size)
  {
    hide TestBox;
    hide BoxTouchesSolid;
    pos := pos0;
    TestBoxIsExact(m, pos, size);
    for i := 0 to |moves|
      invariant !BoxTouchesSolid(m, pos0, size) ==> !TestBox(m, pos, size)
    {
      var vel;
      pos, vel := MoveBox(m, pos, moves[i].0, size, moves[i].1, moves[i].2);
    }
    TestBoxIsExact(m, pos, size);
  }
}
