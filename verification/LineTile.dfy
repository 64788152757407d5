/** The walk of a segment through the cells of the tile grid (`getpntisn` and `IntersectLineTile`
    in src/game/collision.cpp), in exact coordinates. */
module LineTile {
  import opened Arith
  import opened Grids

  type Vec = v: seq<real> | |v| == 2 witness [0.0, 0.0]
  type Cell = c: seq<int> | |c| == 2 witness [0, 0]
  type Sides = s: seq<bool> | |s| == 2 witness [true, true]

  datatype TileLayer = NoTiles | Tiles(width: nat, height: nat, index: seq<int>)

  predicate ValidLayer(m: TileLayer) {
    m.Tiles? ==> |m.index| == m.width * m.height
  }

  function GetTile(m: TileLayer, c: Cell): int
    requires ValidLayer(m)
  {
    if m.NoTiles? then 0
    else if c[0] < 0 || c[0] >= m.width || c[1] < 0 || c[1] >= m.height then 0
    else
      m.index[Flat(m.width, m.height, c[0], c[1])]
  }

  // ----- What the walk promises ------------------------------------------------------------------

  /** The coordinate at fraction `t` of the segment from `o` along `d`. */
  function At(o: real, d: real, t: real): real {
    o + t * d
  }

  function Point(o: Vec, d: Vec, t: real): Vec {
    [At(o[0], d[0], t), At(o[1], d[1], t)]
  }

  predicate IsWhole(x: real) {
    x == x.Floor as real
  }

  function CellOf(p: Vec): Cell {
    [p[0].Floor, p[1].Floor]
  }

  /** The segment is not just crossing a grid line at `t`; all but finitely many fractions are such. */
  predicate Generic(o: Vec, d: Vec, t: real) {
    && (d[0] != 0.0 ==> !IsWhole(At(o[0], d[0], t)))
    && (d[1] != 0.0 ==> !IsWhole(At(o[1], d[1], t)))
  }

  function Shifted(c: Cell, off: Cell): Cell {
    [c[0] + off[0], c[1] + off[1]]
  }

  /** No fraction before `end` (or at it, if `closed`) lies in a tile of the wanted kind, when the
      tiles are looked up `off` away from where they are. */
  ghost predicate Clear(m: TileLayer, tile: int, o: Vec, d: Vec, off: Cell, end: real, closed: bool)
    requires ValidLayer(m)
  {
    forall t | 0.0 <= t && (t < end || (closed && t == end)) && Generic(o, d, t) ::
      GetTile(m, Shifted(CellOf(Point(o, d, t)), off)) != tile
  }

  /** The closed cell contains the point. */
  predicate Touches(c: Cell, p: Vec) {
    forall i | 0 <= i < 2 :: c[i] as real <= p[i] <= c[i] as real + 1.0
  }

  /** The answer to whether, and where, the segment meets a tile of the wanted kind: without a hit no
      fraction lies in one; at a hit the point lies in one, and no earlier fraction does. */
  ghost predicate Found(m: TileLayer, tile: int, o: Vec, d: Vec, off: Cell, hit: bool, tsc: real)
    requires ValidLayer(m)
  {
    if hit then
      && 0.0 <= tsc <= 1.0
      && Clear(m, tile, o, d, off, tsc, false)
      && exists c: Cell :: GetTile(m, Shifted(c, off)) == tile && Touches(c, Point(o, d, tsc))
    else Clear(m, tile, o, d, off, 1.0, true)
  }

  // ----- One axis --------------------------------------------------------------------------------

  function Ceil(x: real): int {
    -(-x).Floor
  }

  function Abs(x: real): real {
    if x < 0.0 then -x else x
  }

  /** The coordinate lies in cell `c`; on a grid line `inside` says on which side the cell is. */
  predicate On(p: real, c: int, inside: bool) {
    if inside then c as real <= p < c as real + 1.0 else (c as real) < p <= c as real + 1.0
  }

  /** The grid line that bounds cell `c` in the direction of `d`. */
  function Line(d: real, c: int): real {
    if d > 0.0 then c as real + 1.0 else c as real
  }

  /** The fraction of `d` after which the program expects the next grid line. */
  function Reach(p: real, d: real, inside: bool): real
    requires d != 0.0
  {
    var s := ((if d > 0.0 then Ceil(p) else p.Floor) as real - p) / d;
    if s == 0.0 && (d > 0.0) == inside then 1.0 / Abs(d) else s
  }

  lemma DivTimes(a: real, d: real)
    requires d != 0.0
    ensures a / d * d == a
  {
  }

  lemma DivSign(a: real, d: real)
    requires (d > 0.0 && a >= 0.0) || (d < 0.0 && a <= 0.0)
    ensures a / d >= 0.0
  {
  }

  /** That is where the line that bounds the current cell is. */
  lemma ReachIsLine(p: real, d: real, c: int, inside: bool)
    requires d != 0.0 && On(p, c, inside) && (!inside ==> d < 0.0)
    ensures Reach(p, d, inside) >= 0.0 && p + Reach(p, d, inside) * d == Line(d, c)
  {
    var h := (if d > 0.0 then Ceil(p) else p.Floor) as real - p;
    DivTimes(h, d);
    DivSign(h, d);
    DivTimes(1.0, Abs(d));
    if h / d == 0.0 {
      assert h == h / d * d;
    }
  }

  lemma MulMono(a: real, b: real, d: real)
    requires a <= b
    ensures d >= 0.0 ==> a * d <= b * d
    ensures d <= 0.0 ==> b * d <= a * d
  {
    assert (b - a) * d == b * d - a * d;
  }

  predicate NotBeyond(p: real, d: real, line: real) {
    (d > 0.0 ==> p <= line) && (d < 0.0 ==> p >= line)
  }

  /** Going no further than the next line stays on this side of it. */
  lemma BeforeLine(p: real, d: real, c: int, inside: bool, u: real)
    requires On(p, c, inside) && (!inside ==> d < 0.0)
    requires d != 0.0 ==> u <= Reach(p, d, inside)
    ensures NotBeyond(p + u * d, d, Line(d, c))
  {
    if d != 0.0 {
      ReachIsLine(p, d, c, inside);
      MulMono(u, Reach(p, d, inside), d);
    }
  }

  /** Later points of a line lie further in its direction. */
  lemma Further(o: real, d: real, a: real, b: real)
    requires a <= b
    ensures Onward(At(o, d, a), At(o, d, b), d)
  {
    MulMono(a, b, d);
  }

  predicate Onward(p: real, q: real, d: real) {
    (d >= 0.0 ==> p <= q) && (d <= 0.0 ==> q <= p)
  }

  /** Between two crossings the coordinate lies in the cell. */
  lemma AxisCell(d: real, p: real, q: real, e: real, c: int, inside: bool)
    requires On(p, c, inside) && (!inside ==> d < 0.0) && NotBeyond(e, d, Line(d, c))
    requires Onward(p, q, d) && Onward(q, e, d)
    requires d != 0.0 ==> !IsWhole(q)
    ensures q.Floor == c
  {
    if d != 0.0 {
      FloorInside(q, c);
    }
  }

  lemma FloorInside(q: real, c: int)
    requires c as real <= q <= c as real + 1.0 && !IsWhole(q)
    ensures q.Floor == c
  {
    if q == c as real + 1.0 {
      assert q == (c + 1) as real;
    }
  }

  /** The cell of the axis that is not crossed, as the program finds it again. */
  function Recell(f: real, inside: bool): int {
    f.Floor - (if f == f.Floor as real && !inside then 1 else 0)
  }

  // ----- The state of the walk -------------------------------------------------------------------

  /** After fraction `t` of the segment from `o` along `d0`: the point, what is left, and the cell. */
  ghost predicate Walking(o: Vec, d0: Vec, t: real, p: Vec, d: Vec, c: Cell, inside: Sides) {
    && AxisWalk(o[0], d0[0], t, p[0], d[0], c[0], inside[0])
    && AxisWalk(o[1], d0[1], t, p[1], d[1], c[1], inside[1])
  }

  predicate AxisWalk(o: real, d0: real, t: real, p: real, d: real, c: int, inside: bool) {
    && 0.0 <= t <= 1.0
    && p == At(o, d0, t) && d == (1.0 - t) * d0
    && On(p, c, inside) && (!inside ==> d0 < 0.0)
  }

  /** What is left keeps the direction, until nothing is left. */
  lemma RestSign(t: real, d0: real, d: real)
    requires 0.0 <= t <= 1.0 && d == (1.0 - t) * d0
    ensures t < 1.0 ==> (d > 0.0 <==> d0 > 0.0) && (d < 0.0 <==> d0 < 0.0)
    ensures t == 1.0 ==> d == 0.0
  {
    if t < 1.0 {
      if d0 > 0.0 {
        assert (1.0 - t) * d0 > 0.0;
      } else if d0 < 0.0 {
        assert (1.0 - t) * -d0 > 0.0;
      }
    }
  }

  function Grid(o: real, d0: real, c: int): int {
    if d0 > 0.0 then (o + d0).Floor - c
    else if d0 < 0.0 then c + 1 - Ceil(o + d0)
    else 0
  }

  /** The number of grid lines left to cross. */
  function Left(o: Vec, d0: Vec, c: Cell): int {
    Grid(o[0], d0[0], c[0]) + Grid(o[1], d0[1], c[1])
  }

  lemma GridLeft(o: real, d0: real, t: real, p: real, d: real, c: int, inside: bool)
    requires AxisWalk(o, d0, t, p, d, c, inside)
    ensures Grid(o, d0, c) >= 0
  {
    Further(o, d0, t, 1.0);
  }

  function Moved(p: real, d: real, s: real): real {
    p + s * d
  }

  function Rest(d: real, s: real): real {
    d - s * d
  }

  /** The fraction of the whole after `t` and fraction `s` of the rest. */
  function Then(t: real, s: real): real {
    t + s * (1.0 - t)
  }

  lemma Advance(o: real, d0: real, t: real, s: real, p: real, d: real)
    requires p == At(o, d0, t) && d == (1.0 - t) * d0
    ensures Moved(p, d, s) == At(o, d0, Then(t, s))
    ensures Rest(d, s) == (1.0 - Then(t, s)) * d0
  {
    assert s * d == s * (1.0 - t) * d0;
    assert (t + s * (1.0 - t)) * d0 == t * d0 + s * (1.0 - t) * d0;
  }

  lemma MulNonNegative(a: real, b: real)
    requires a >= 0.0 && b >= 0.0
    ensures a * b >= 0.0
  {
  }

  lemma AdvanceRange(t: real, s: real)
    requires 0.0 <= t <= 1.0 && 0.0 <= s <= 1.0
    ensures t <= Then(t, s) <= 1.0
    ensures s == 1.0 ==> Then(t, s) == 1.0
    ensures t == 1.0 ==> Then(t, s) == 1.0
  {
    MulNonNegative(s, 1.0 - t);
    MulNonNegative(1.0 - s, 1.0 - t);
    assert Then(t, s) == 1.0 - (1.0 - s) * (1.0 - t);
  }

  lemma AxisStretch(o: real, d0: real, t: real, p: real, d: real, c: int, inside: bool, s: real, u: real)
    requires AxisWalk(o, d0, t, p, d, c, inside)
    requires 0.0 <= s <= 1.0 && (d != 0.0 ==> s <= Reach(p, d, inside))
    requires t <= u <= Then(t, s) && (d0 != 0.0 ==> !IsWhole(At(o, d0, u)))
    ensures At(o, d0, u).Floor == c
  {
    hide Reach;
    hide Then;
    hide At;
    hide On;
    AdvanceRange(t, s);
    if t < 1.0 {
      EndOfStretch(o, d0, t, p, d, c, inside, s);
      Further(o, d0, t, u);
      Further(o, d0, u, Then(t, s));
      AxisCell(d0, p, At(o, d0, u), At(o, d0, Then(t, s)), c, inside);
    } else {
      OnWhole(p, c, inside, d0);
    }
  }

  lemma EndOfStretch(o: real, d0: real, t: real, p: real, d: real, c: int, inside: bool, s: real)
    requires AxisWalk(o, d0, t, p, d, c, inside) && t < 1.0
    requires 0.0 <= s <= 1.0 && (d != 0.0 ==> s <= Reach(p, d, inside))
    ensures NotBeyond(At(o, d0, Then(t, s)), d0, Line(d0, c))
  {
    RestSign(t, d0, d);
    Advance(o, d0, t, s, p, d);
    BeforeLine(p, d, c, inside, s);
  }

  /** While the rest is followed no further than the next line, the walk is in the cell just tested. */
  lemma StretchIsInCell(o: Vec, d0: Vec, t: real, p: Vec, d: Vec, c: Cell, inside: Sides, s: real, u: real)
    requires Walking(o, d0, t, p, d, c, inside)
    requires 0.0 <= s <= 1.0
    requires d[0] != 0.0 ==> s <= Reach(p[0], d[0], inside[0])
    requires d[1] != 0.0 ==> s <= Reach(p[1], d[1], inside[1])
    requires t <= u <= Then(t, s) && Generic(o, d0, u)
    ensures CellOf(Point(o, d0, u)) == c
  {
    hide Reach;
    hide Then;
    hide At;
    AxisStretch(o[0], d0[0], t, p[0], d[0], c[0], inside[0], s, u);
    AxisStretch(o[1], d0[1], t, p[1], d[1], c[1], inside[1], s, u);
  }

  lemma OnWhole(p: real, c: int, inside: bool, d0: real)
    requires On(p, c, inside) && (!inside ==> d0 < 0.0) && (d0 != 0.0 ==> !IsWhole(p))
    ensures p.Floor == c
  {
  }

  // ----- Crossing a line -------------------------------------------------------------------------

  /** The axis whose line is crossed. */
  lemma CrossAxis(o: real, d0: real, t: real, p: real, d: real, c: int, inside: bool, s: real)
    requires AxisWalk(o, d0, t, p, d, c, inside) && d != 0.0 && s == Reach(p, d, inside) <= 1.0
    ensures
      var t', c' := Then(t, s), c + (if d > 0.0 then 1 else -1);
      && AxisWalk(o, d0, t', Moved(p, d, s), Rest(d, s), c', d > 0.0)
      && 0 <= Grid(o, d0, c') < Grid(o, d0, c)
  {
    ReachIsLine(p, d, c, inside);
    assert Moved(p, d, s) == Line(d, c);
    RestSign(t, d0, d);
    Advance(o, d0, t, s, p, d);
    AdvanceRange(t, s);
    hide Reach, Moved, Rest, Then, At, Grid;
    GridNext(o, d0, c);
    GridLeft(o, d0, Then(t, s), Moved(p, d, s), Rest(d, s), c + (if d > 0.0 then 1 else -1), d > 0.0);
  }

  lemma GridNext(o: real, d0: real, c: int)
    ensures d0 > 0.0 ==> Grid(o, d0, c + 1) == Grid(o, d0, c) - 1
    ensures d0 < 0.0 ==> Grid(o, d0, c - 1) == Grid(o, d0, c) - 1
  {
    hide Ceil;
  }

  /** The other axis. */
  lemma PassAxis(o: real, d0: real, t: real, p: real, d: real, c: int, inside: bool, s: real)
    requires AxisWalk(o, d0, t, p, d, c, inside) && 0.0 <= s <= 1.0
    ensures
      var t', c' := Then(t, s), Recell(Moved(p, d, s), inside);
      && AxisWalk(o, d0, t', Moved(p, d, s), Rest(d, s), c', inside)
      && 0 <= Grid(o, d0, c') <= Grid(o, d0, c)
  {
    Advance(o, d0, t, s, p, d);
    AdvanceRange(t, s);
    Further(o, d0, t, Then(t, s));
    GridLeft(o, d0, Then(t, s), Moved(p, d, s), Rest(d, s), Recell(Moved(p, d, s), inside), inside);
  }

  /** Crossing the next line, on axis `ii`, leads on in the walk with a line less to cross. */
  lemma Cross(o: Vec, d0: Vec, t: real, p: Vec, d: Vec, c: Cell, inside: Sides, ii: int, s: real, c': Cell)
    requires Walking(o, d0, t, p, d, c, inside) && 0 <= ii < 2 && d[ii] != 0.0
    requires 0.0 <= s == Reach(p[ii], d[ii], inside[ii]) <= 1.0
    requires c'[ii] == c[ii] + (if d[ii] > 0.0 then 1 else -1)
    requires c'[1 - ii] == Recell(Moved(p[1 - ii], d[1 - ii], s), inside[1 - ii])
    ensures
      var p' := [Moved(p[0], d[0], s), Moved(p[1], d[1], s)];
      var d' := [Rest(d[0], s), Rest(d[1], s)];
      && Walking(o, d0, Then(t, s), p', d', c', inside[ii := d[ii] > 0.0])
      && 0 <= Left(o, d0, c') < Left(o, d0, c)
  {
    hide Reach;
    hide Then;
    hide At;
    hide On;
    hide Grid;
    hide Recell;
    hide Moved;
    hide Rest;
    if ii == 0 {
      CrossAxis(o[0], d0[0], t, p[0], d[0], c[0], inside[0], s);
      PassAxis(o[1], d0[1], t, p[1], d[1], c[1], inside[1], s);
    } else {
      CrossAxis(o[1], d0[1], t, p[1], d[1], c[1], inside[1], s);
      PassAxis(o[0], d0[0], t, p[0], d[0], c[0], inside[0], s);
    }
  }

  // ----- The program -----------------------------------------------------------------------------

  /** The crossing of the nearest grid line: its axis, the cell behind it, and the fraction of `d` up
      to it; -1 when the segment ends before it. */
  method GetPntIsn(isn: Cell, pv: Vec, dv: Vec, inside: Sides) returns (ii: int, isn': Cell, sc: real)
    requires forall i | 0 <= i < 2 && dv[i] != 0.0 :: Reach(pv[i], dv[i], inside[i]) >= 0.0
    ensures -1 <= ii < 2
    ensures ii == -1 ==> forall i | 0 <= i < 2 && dv[i] != 0.0 :: Reach(pv[i], dv[i], inside[i]) > 1.0
    ensures ii >= 0 ==>
      && dv[ii] != 0.0 && 0.0 <= sc == Reach(pv[ii], dv[ii], inside[ii]) <= 1.0
      && (forall i | 0 <= i < 2 && dv[i] != 0.0 :: sc <= Reach(pv[i], dv[i], inside[i]))
      && isn'[ii] == isn[ii] + (if dv[ii] > 0.0 then 1 else -1)
      && isn'[1 - ii] == Recell(Moved(pv[1 - ii], dv[1 - ii], sc), inside[1 - ii])
    // Of two lines met at once it is the one of axis 0.
    ensures ii == 1 && dv[0] != 0.0 ==> sc < Reach(pv[0], dv[0], inside[0])
  {
    hide Reach;
    hide Recell;
    hide Moved;
    var ms := 2.0;
    ii := -1;
    isn', sc := isn, 0.0;
    for i := 0 to 2
      invariant -1 <= ii < i
      invariant ii == -1 ==> ms == 2.0
      invariant ii >= 0 ==> dv[ii] != 0.0 && ms == Reach(pv[ii], dv[ii], inside[ii])
      invariant ii == 1 && dv[0] != 0.0 ==> ms < Reach(pv[0], dv[0], inside[0])
      invariant forall k | 0 <= k < i && dv[k] != 0.0 :: ms <= Reach(pv[k], dv[k], inside[k])
    {
      if dv[i] == 0.0 {
        continue;
      }
      var s := Reach(pv[i], dv[i], inside[i]);
      if ms > s {
        ii, ms := i, s;
      }
    }
    if ms > 1.0 {
      return -1, isn, 0.0;
    }
    for i := 0 to 2
      invariant isn'[ii] == isn[ii]
      invariant 1 - ii < i ==> isn'[1 - ii] == Recell(Moved(pv[1 - ii], dv[1 - ii], ms), inside[1 - ii])
    {
      if i != ii {
        isn' := isn'[i := Recell(Moved(pv[i], dv[i], ms), inside[i])];
      }
    }
    isn' := isn'[ii := isn'[ii] + (if dv[ii] > 0.0 then 1 else -1)];
    sc := ms;
  }

  lemma ClearStretch(m: TileLayer, tile: int, o: Vec, d0: Vec, off: Cell, t: real,
      p: Vec, d: Vec, c: Cell, inside: Sides, s: real)
    requires ValidLayer(m) && GetTile(m, Shifted(c, off)) != tile
    requires Walking(o, d0, t, p, d, c, inside) && 0.0 <= s <= 1.0
    requires d[0] != 0.0 ==> s <= Reach(p[0], d[0], inside[0])
    requires d[1] != 0.0 ==> s <= Reach(p[1], d[1], inside[1])
    requires Clear(m, tile, o, d0, off, t, false)
    ensures Clear(m, tile, o, d0, off, Then(t, s), true)
  {
    hide Reach;
    hide Then;
    hide At;
    hide Generic;
    hide CellOf;
    hide GetTile;
    hide Shifted;
    forall u | 0.0 <= u <= Then(t, s) && Generic(o, d0, u)
      ensures GetTile(m, Shifted(CellOf(Point(o, d0, u)), off)) != tile
    {
      if u >= t {
        StretchIsInCell(o, d0, t, p, d, c, inside, s, u);
      }
    }
  }

  /** Truncation finds the start's cell exactly for coordinates that are not negative or on a line. */
  lemma TruncIsFloor(x: real)
    ensures Trunc(x) == x.Floor <==> x >= 0.0 || IsWhole(x)
  {
  }

  predicate StartsWell(o: Vec) {
    (o[0] >= 0.0 || IsWhole(o[0])) && (o[1] >= 0.0 || IsWhole(o[1]))
  }

  /** How far the first tile that is tested is from the one that the start lies in. */
  function StartError(o: Vec): (off: Cell)
    ensures StartsWell(o) ==> off == [0, 0]
  {
    TruncIsFloor(o[0]);
    TruncIsFloor(o[1]);
    [Trunc(o[0]) - o[0].Floor, Trunc(o[1]) - o[1].Floor]
  }

  /** The error on an axis is put right when a line of the other axis is crossed. Here none is. */
  predicate Steady(o: Vec, d: Vec) {
    (StartError(o)[0] != 0 ==> d[1] == 0.0) && (StartError(o)[1] != 0 ==> d[0] == 0.0)
  }

  /** Left of the map on a grid line only the row can be wrong, and only as long as nothing can be met. */
  predicate RightStart(o: Vec) {
    StartsWell(o) || (o[0] < 0.0 && IsWhole(o[0]))
  }

  /** The segment runs right and down, and lines of axis 1 are met only where lines of axis 0 are.
      No line of axis 1 is crossed on its own then. */
  ghost predicate Aligned(o: Vec, d: Vec) {
    && d[0] > 0.0 && d[1] > 0.0
    && forall t | 0.0 < t <= 1.0 && IsWhole(At(o[1], d[1], t)) :: IsWhole(At(o[0], d[0], t))
  }

  /** Behind the first line of axis 0 no fraction lies in a tile of the wanted kind, when the tiles are
      looked up as far off on axis 0 as the start was. */
  ghost predicate Passed(m: TileLayer, tile: int, o: Vec, d: Vec, end: real, closed: bool)
    requires ValidLayer(m)
  {
    forall t | 0.0 <= t && (t < end || (closed && t == end)) && Generic(o, d, t) &&
               At(o[0], d[0], t) > o[0].Floor as real + 1.0 ::
      GetTile(m, Shifted(CellOf(Point(o, d, t)), [StartError(o)[0], 0])) != tile
  }

  /** A map of which only the last tile is of kind 7. */
  function OneTile(width: nat, height: nat): (m: TileLayer)
    requires width > 0 && height > 0
    ensures ValidLayer(m)
  {
    Tiles(width, height, seq(width * height, k => if k == width * height - 1 then 7 else 0))
  }

  lemma OneTileAt(width: nat, height: nat, c: Cell)
    requires width > 0 && height > 0
    ensures GetTile(OneTile(width, height), c) == 7 <==> c == [width - 1, height - 1]
  {
    if 0 <= c[0] < width && 0 <= c[1] < height {
      FlatBound(c[0], c[1], width, height);
      FlatInjective(width, c[0], c[1], width - 1, height - 1);
      assert (height - 1) * width + (width - 1) == width * height - 1;
    }
  }

  lemma TruncIsNext(x: real)
    requires x < 0.0 && !IsWhole(x)
    ensures Trunc(x) == x.Floor + 1
  {
  }

  /** A segment that ends before 0 never comes there. */
  lemma StaysBefore(o: real, d: real, t: real)
    requires o < 0.0 && o + d < 0.0 && 0.0 <= t <= 1.0
    ensures At(o, d, t) < 0.0
  {
    assert 0.0 * d == 0.0 && 1.0 * d == d;
    MulMono(0.0, t, d);
    MulMono(t, 1.0, d);
  }

  /** A start before the map on axis `a` and a segment that stays there. */
  predicate BadStart(o: Vec, d: Vec, a: int) {
    && 0 <= a < 2 && o[a] < 0.0 && !IsWhole(o[a]) && d[1 - a] == 0.0
    && if o[1 - a] >= 0.0 then d[a] == -0.5 - o[a] else d[a] == 0.0 && o[0] > -1.0 && o[1] > -1.0
  }

  function LastTile(x: real): int {
    if x < 0.0 then 0 else x.Floor
  }

  /** The end of the segment is looked up in the last tile of the map. */
  lemma BadStartEnd(o: Vec, d: Vec, a: int)
    requires BadStart(o, d, a)
    ensures Generic(o, d, 1.0)
    ensures Shifted(CellOf(Point(o, d, 1.0)), StartError(o)) == [LastTile(o[0]), LastTile(o[1])]
  {
    TruncIsNext(o[a]);
    TruncIsFloor(o[1 - a]);
    assert At(o[1 - a], d[1 - a], 1.0) == o[1 - a];
    assert At(o[a], d[a], 1.0) == if d[a] == 0.0 then o[a] else -0.5;
    if o[1 - a] < 0.0 {
      TruncIsNext(o[1 - a]);
    }
  }

  /** From a start left of or above the map whose coordinate is no whole number there are a map and a
      segment on which no answer that the walk may give is right. */
  lemma BadStartFails(o: Vec) returns (m: TileLayer, d: Vec)
    requires !StartsWell(o) && (o[0] >= 0.0 || o[1] >= 0.0 || (o[0] > -1.0 && o[1] > -1.0))
    ensures ValidLayer(m) && Steady(o, d)
    ensures forall hit, tsc | Found(m, 7, o, d, StartError(o), hit, tsc) :: !Found(m, 7, o, d, [0, 0], hit, tsc)
  {
    TruncIsFloor(o[0]);
    TruncIsFloor(o[1]);
    var a := if o[0] < 0.0 && !IsWhole(o[0]) then 0 else 1;
    var d0 := if o[1 - a] >= 0.0 then -0.5 - o[a] else 0.0;
    d := if a == 0 then [d0, 0.0] else [0.0, d0];
    m := OneTile(LastTile(o[0]) + 1, LastTile(o[1]) + 1);
    BadStartAnswers(o, d, a);
  }

  lemma BadStartAnswers(o: Vec, d: Vec, a: int)
    requires BadStart(o, d, a)
    ensures
      var m := OneTile(LastTile(o[0]) + 1, LastTile(o[1]) + 1);
      forall hit, tsc | Found(m, 7, o, d, StartError(o), hit, tsc) :: !Found(m, 7, o, d, [0, 0], hit, tsc)
  {
    hide StartError, GetTile, OneTile, Generic, CellOf;
    var m := OneTile(LastTile(o[0]) + 1, LastTile(o[1]) + 1);
    BadStartEnd(o, d, a);
    forall c: Cell ensures GetTile(m, c) == 7 <==> c == [LastTile(o[0]), LastTile(o[1])] {
      OneTileAt(LastTile(o[0]) + 1, LastTile(o[1]) + 1, c);
    }
    forall tsc | 0.0 <= tsc <= 1.0 ensures Point(o, d, tsc)[a] < 0.0 {
      StaysBefore(o[a], d[a], tsc);
    }
    assert forall c: Cell :: Shifted(c, [0, 0]) == c;
  }

  // ----- A corner of the grid that keeps the error -----------------------------------------------

  /** From this start a segment passes the corner (0, 0) of the map and ends close behind it. */
  predicate CornerStart(o: Vec, d: Vec, k: real) {
    && o[0] < 0.0 && !IsWhole(o[0]) && -1.0 <= o[1] < 0.0
    && d[0] == k * -o[0] && d[1] == k * -o[1]
    && k > 1.0 && (k - 1.0) * -o[0] < 1.0 && (k - 1.0) * -o[1] < 1.0
  }

  /** Where the segment from `o` to the corner and on is at fraction `t`. */
  lemma CornerAt(o: real, d: real, k: real, t: real)
    requires d == k * -o && o < 0.0 && k > 1.0 && (k - 1.0) * -o < 1.0 && 0.0 <= t <= 1.0
    ensures At(o, d, t) < 1.0 && (t > 0.0 ==> At(o, d, t) > o)
    ensures At(o, d, t) == 0.0 <==> t * k == 1.0
    ensures t == 1.0 ==> At(o, d, t) > 0.0
  {
    hide At;
    CornerWay(o, d, k, t);
    PartOf(t, k);
    CornerBounds(-o, t * k, k);
  }

  lemma PartOf(t: real, k: real)
    requires 0.0 <= t <= 1.0 && k > 0.0
    ensures t * k <= k && (t > 0.0 ==> t * k > 0.0) && (t == 1.0 ==> t * k == k)
  {
    if t < 1.0 {
      Product(1.0 - t, k);
      Distribute(t, 1.0, k);
    }
    if t > 0.0 {
      Product(t, k);
    }
  }

  lemma CornerWay(o: real, d: real, k: real, t: real)
    requires d == k * -o
    ensures At(o, d, t) == (t * k - 1.0) * -o
  {
    assert t * (k * -o) == (t * k) * -o;
    Distribute(1.0, t * k, -o);
  }

  lemma CornerBounds(x: real, w: real, k: real)
    requires x > 0.0 && w <= k && (k - 1.0) * x < 1.0
    ensures (w - 1.0) * x < 1.0 && (w > 0.0 ==> (w - 1.0) * x > -x)
    ensures (w - 1.0) * x == 0.0 <==> w == 1.0
    ensures w > 1.0 ==> (w - 1.0) * x > 0.0
  {
    MulMono(w - 1.0, k - 1.0, x);
    Product(w - 1.0, x);
    Product(w, x);
    Distribute(1.0, w, x);
  }

  lemma Distribute(a: real, b: real, d: real)
    ensures (b - a) * d == b * d - a * d
  {
  }

  lemma Product(a: real, b: real)
    requires b > 0.0
    ensures a > 0.0 <==> a * b > 0.0
    ensures a < 0.0 <==> a * b < 0.0
  {
    if a > 0.0 {
      assert a * b > 0.0;
    } else if a < 0.0 {
      assert -a * b > 0.0;
    }
  }

  lemma CornerIsAligned(o: Vec, d: Vec, k: real)
    requires CornerStart(o, d, k)
    ensures Aligned(o, d)
  {
    Product(k, -o[0]);
    Product(k, -o[1]);
    forall t | 0.0 < t <= 1.0 && IsWhole(At(o[1], d[1], t)) ensures IsWhole(At(o[0], d[0], t)) {
      CornerAt(o[0], d[0], k, t);
      CornerAt(o[1], d[1], k, t);
      hide At;
      assert -1.0 < At(o[1], d[1], t) < 1.0;
      assert At(o[1], d[1], t) == 0.0;
    }
  }

  /** From every start left of the map, off the grid lines, and at most one tile above it, there are a
      map and a segment on which no answer that the walk may give is right. */
  lemma CornerStartFails(o: Vec) returns (m: TileLayer, d: Vec)
    requires o[0] < 0.0 && !IsWhole(o[0]) && -1.0 <= o[1] < 0.0
    ensures ValidLayer(m) && Aligned(o, d)
    ensures forall hit, tsc | !hit ==> Passed(m, 7, o, d, 1.0, true) :: !Found(m, 7, o, d, [0, 0], hit, tsc)
  {
    var k := CornerScale(o);
    d := [k * -o[0], k * -o[1]];
    m := OneTile(2, 1);
    CornerIsAligned(o, d, k);
    CornerAnswers(o, d, k);
  }

  lemma CornerScale(o: Vec) returns (k: real)
    requires o[0] < 0.0 && -1.0 <= o[1] < 0.0
    ensures k > 1.0 && (k - 1.0) * -o[0] < 1.0 && (k - 1.0) * -o[1] < 1.0
  {
    var s := 1.0 / (2.0 - o[0]);
    DivTimes(1.0, 2.0 - o[0]);
    assert s > 0.0 by {
      Product(s, 2.0 - o[0]);
    }
    k := 1.0 + s;
    assert s * (2.0 - o[0]) == s * 2.0 + s * -o[0];
    MulMono(-o[1], 1.0, s);
  }

  lemma CornerAnswers(o: Vec, d: Vec, k: real)
    requires CornerStart(o, d, k)
    ensures forall hit, tsc | !hit ==> Passed(OneTile(2, 1), 7, o, d, 1.0, true) ::
              !Found(OneTile(2, 1), 7, o, d, [0, 0], hit, tsc)
  {
    var m := OneTile(2, 1);
    forall tsc | 0.0 <= tsc <= 1.0 ensures At(o[0], d[0], tsc) < 1.0 {
      CornerAt(o[0], d[0], k, tsc);
    }
    CornerEnd(o, d, k);
    hide At, GetTile, OneTile, StartError, Generic;
    forall c: Cell ensures GetTile(m, c) == 7 <==> c == [1, 0] {
      OneTileAt(2, 1, c);
    }
    assert forall c: Cell :: Shifted(c, [0, 0]) == c;
  }

  lemma CornerEnd(o: Vec, d: Vec, k: real)
    requires CornerStart(o, d, k)
    ensures Generic(o, d, 1.0) && At(o[0], d[0], 1.0) > o[0].Floor as real + 1.0
    ensures Shifted(CellOf(Point(o, d, 1.0)), [StartError(o)[0], 0]) == [1, 0]
  {
    CornerAt(o[0], d[0], k, 1.0);
    CornerAt(o[1], d[1], k, 1.0);
    TruncIsNext(o[0]);
    hide At;
  }

  function Scaled(v: Vec): Vec {
    [v[0] / 32.0, v[1] / 32.0]
  }

  /** The quotient of the lengths of `v` and of `w`, of which `v` is a multiple. */
  function LengthQuotient(v: Vec, w: Vec): real
    requires w != [0.0, 0.0]
  {
    if w[0] != 0.0 then v[0] / w[0] else v[1] / w[1]
  }

  lemma QuotientOfLengths(v: Vec, w: Vec, t: real)
    requires w != [0.0, 0.0] && t >= 0.0 && v[0] == t * w[0] && v[1] == t * w[1]
    ensures LengthQuotient(v, w) == t
    ensures t * t * (w[0] * w[0] + w[1] * w[1]) == v[0] * v[0] + v[1] * v[1]
  {
    assert w[0] != 0.0 || w[1] != 0.0 by {
      assert w == [w[0], w[1]];
    }
    if w[0] != 0.0 {
      DivTimes(v[0], w[0]);
    } else {
      DivTimes(v[1], w[1]);
    }
    SquareOfProduct(t, w[0]);
    SquareOfProduct(t, w[1]);
  }

  lemma SquareOfProduct(t: real, x: real)
    ensures (t * x) * (t * x) == t * t * (x * x)
  {
  }

  /** Whether the segment of `p0` along `dv`, in pixels, meets a tile of the wanted kind, and at which
      fraction of the segment. */
  method IntersectLineTile(m: TileLayer, p0: Vec, dv: Vec, tile: int) returns (hit: bool, tsc: real)
    requires ValidLayer(m)
    ensures RightStart(Scaled(p0)) ==> Found(m, tile, Scaled(p0), Scaled(dv), [0, 0], hit, tsc)
    ensures Steady(Scaled(p0), Scaled(dv)) ==>
      Found(m, tile, Scaled(p0), Scaled(dv), StartError(Scaled(p0)), hit, tsc)
    ensures Aligned(Scaled(p0), Scaled(dv)) && !hit ==> Passed(m, tile, Scaled(p0), Scaled(dv), 1.0, true)
    ensures GetTile(m, [Trunc(Scaled(p0)[0]), Trunc(Scaled(p0)[1])]) == tile ==> hit && tsc == 0.0
  {
    hide Reach;
    hide Recell;
    hide Then;
    hide GetTile;
    hide Walking;
    hide Left;
    hide Kept;
    hide Found;
    hide Passed;
    hide Aligned;
    hide Steady;
    hide RightStart;
    var p, d := Scaled(p0), Scaled(dv);
    var op, od := p, d;
    var tp: Cell := [Trunc(p[0]), Trunc(p[1])];
    ghost var tp0 := tp;
    var inside: Sides := [true, true];
    tsc := 0.0;
    // The tile that the point lies in, whether or not it is the one that is tested.
    ghost var c: Cell := [p[0].Floor, p[1].Floor];
    ghost var t := 0.0;
    StartWalk(op, od, c);
    KeptStart(m, tile, op, od, tp, c);
    while true
      invariant Walking(op, od, t, p, d, c, inside) && Left(op, od, c) >= 0
      invariant Kept(m, tile, op, od, t, tp, c, inside)
      invariant od == [0.0, 0.0] ==> t == 0.0
      invariant tsc == 0.0 && (GetTile(m, tp0) == tile ==> t == 0.0 && tp == tp0)
      decreases Left(op, od, c)
    {
      if GetTile(m, tp) == tile {
        tsc := HitAt(op, od, p, d, t, c, inside);
        KeptHit(m, tile, op, od, t, tp, c, inside);
        return true, tsc;
      }
      ReachNonNegative(op, od, t, p, d, c, inside);
      var ii, tp', sc := GetPntIsn(tp, p, d, inside);
      if ii < 0 {
        KeptEnd(m, tile, op, od, t, p, d, tp, c, inside);
        return false, tsc;
      }
      ghost var c' := c[ii := c[ii] + (if d[ii] > 0.0 then 1 else -1)][1 - ii := tp'[1 - ii]];
      Cross(op, od, t, p, d, c, inside, ii, sc, c');
      MovesOn(op, od, t, p, d, c, inside, ii);
      KeptOn(m, tile, op, od, t, p, d, tp, c, inside, ii, sc, tp', c');
      inside := inside[ii := d[ii] > 0.0];
      t := Then(t, sc);
      tp, c := tp', c';
      p, d := [Moved(p[0], d[0], sc), Moved(p[1], d[1], sc)], [Rest(d[0], sc), Rest(d[1], sc)];
    }
  }

  // ----- What the walk keeps ---------------------------------------------------------------------

  /** The tested tile `tp` is as far from the tile `c` that the point lies in as it may be, and so
      were all before. */
  ghost predicate Kept(m: TileLayer, tile: int, o: Vec, d: Vec, t: real, tp: Cell, c: Cell, inside: Sides)
    requires ValidLayer(m)
  {
    && (Steady(o, d) ==> tp == Shifted(c, StartError(o)) && Clear(m, tile, o, d, StartError(o), t, false))
    && (RightStart(o) ==> AsGood(tp, c) && Clear(m, tile, o, d, [0, 0], t, false))
    && (Aligned(o, d) ==> inside == [true, true] && OffByX(o, tp, c) && Passed(m, tile, o, d, t, false))
  }

  /** One tile stands for the other: it is the same, or both lie left of the map. */
  predicate AsGood(tp: Cell, c: Cell) {
    tp == c || (tp[0] == c[0] && c[0] < 0)
  }

  predicate OffByX(o: Vec, tp: Cell, c: Cell) {
    tp[0] == c[0] + StartError(o)[0] && (c[0] == o[0].Floor || tp[1] == c[1])
  }

  lemma AsGoodTile(m: TileLayer, tp: Cell, c: Cell)
    requires ValidLayer(m) && AsGood(tp, c)
    ensures GetTile(m, tp) == GetTile(m, c)
  {
  }

  lemma NotShifted(c: Cell)
    ensures Shifted(c, [0, 0]) == c
  {
  }

  lemma KeptStart(m: TileLayer, tile: int, o: Vec, d: Vec, tp: Cell, c: Cell)
    requires ValidLayer(m) && c == [o[0].Floor, o[1].Floor] && tp == [Trunc(o[0]), Trunc(o[1])]
    ensures Kept(m, tile, o, d, 0.0, tp, c, [true, true])
  {
    TruncIsFloor(o[0]);
    TruncIsFloor(o[1]);
    hide GetTile, Generic;
  }

  lemma KeptHit(m: TileLayer, tile: int, o: Vec, d: Vec, t: real, tp: Cell, c: Cell, inside: Sides)
    requires ValidLayer(m) && Kept(m, tile, o, d, t, tp, c, inside) && GetTile(m, tp) == tile
    requires 0.0 <= t <= 1.0 && Touches(c, Point(o, d, t))
    ensures RightStart(o) ==> Found(m, tile, o, d, [0, 0], true, t)
    ensures Steady(o, d) ==> Found(m, tile, o, d, StartError(o), true, t)
  {
    hide GetTile, Clear, Passed, Touches, StartError;
    NotShifted(c);
    if RightStart(o) {
      AsGoodTile(m, tp, c);
    }
  }

  lemma KeptEnd(m: TileLayer, tile: int, o: Vec, d0: Vec, t: real, p: Vec, d: Vec, tp: Cell, c: Cell, inside: Sides)
    requires ValidLayer(m) && Kept(m, tile, o, d0, t, tp, c, inside) && GetTile(m, tp) != tile
    requires Walking(o, d0, t, p, d, c, inside)
    requires forall i | 0 <= i < 2 && d[i] != 0.0 :: Reach(p[i], d[i], inside[i]) > 1.0
    ensures RightStart(o) ==> Found(m, tile, o, d0, [0, 0], false, 0.0)
    ensures Steady(o, d0) ==> Found(m, tile, o, d0, StartError(o), false, 0.0)
    ensures Aligned(o, d0) ==> Passed(m, tile, o, d0, 1.0, true)
  {
    ReachNonNegative(o, d0, t, p, d, c, inside);
    AdvanceRange(t, 1.0);
    KeptStretch(m, tile, o, d0, t, p, d, tp, c, inside, 1.0);
    hide Reach, Then, GetTile, Clear, Passed, Steady, RightStart, Aligned, StartError, Kept, Walking;
  }

  /** The stretch up to the next crossing keeps what was known before it. */
  lemma KeptStretch(m: TileLayer, tile: int, o: Vec, d0: Vec, t: real, p: Vec, d: Vec,
      tp: Cell, c: Cell, inside: Sides, s: real)
    requires ValidLayer(m) && Kept(m, tile, o, d0, t, tp, c, inside) && GetTile(m, tp) != tile
    requires Walking(o, d0, t, p, d, c, inside) && 0.0 <= s <= 1.0
    requires forall i | 0 <= i < 2 && d[i] != 0.0 :: s <= Reach(p[i], d[i], inside[i])
    ensures Steady(o, d0) ==> Clear(m, tile, o, d0, StartError(o), Then(t, s), true)
    ensures RightStart(o) ==> Clear(m, tile, o, d0, [0, 0], Then(t, s), true)
    ensures Aligned(o, d0) ==> Passed(m, tile, o, d0, Then(t, s), true)
  {
    hide Reach, Then, GetTile, Clear, Passed, Steady, RightStart, Aligned, StartError, Walking;
    if Steady(o, d0) {
      ClearStretch(m, tile, o, d0, StartError(o), t, p, d, c, inside, s);
    }
    if RightStart(o) {
      AsGoodTile(m, tp, c);
      NotShifted(c);
      ClearStretch(m, tile, o, d0, [0, 0], t, p, d, c, inside, s);
    }
    if Aligned(o, d0) {
      PassStretch(m, tile, o, d0, t, p, d, tp, c, inside, s);
    }
  }

  lemma PassStretch(m: TileLayer, tile: int, o: Vec, d0: Vec, t: real, p: Vec, d: Vec,
      tp: Cell, c: Cell, inside: Sides, s: real)
    requires ValidLayer(m) && OffByX(o, tp, c) && GetTile(m, tp) != tile
    requires Walking(o, d0, t, p, d, c, inside) && 0.0 <= s <= 1.0
    requires forall i | 0 <= i < 2 && d[i] != 0.0 :: s <= Reach(p[i], d[i], inside[i])
    requires Passed(m, tile, o, d0, t, false)
    ensures Passed(m, tile, o, d0, Then(t, s), true)
  {
    hide Reach, Then, At, Generic, GetTile, StartError, Walking;
    forall u | 0.0 <= u <= Then(t, s) && Generic(o, d0, u) && At(o[0], d0[0], u) > o[0].Floor as real + 1.0
      ensures GetTile(m, Shifted(CellOf(Point(o, d0, u)), [StartError(o)[0], 0])) != tile
    {
      if u >= t {
        StretchIsInCell(o, d0, t, p, d, c, inside, s, u);
        assert At(o[0], d0[0], u).Floor == c[0];
        assert tp == Shifted(c, [StartError(o)[0], 0]);
      }
    }
  }

  /** Crossing the line that comes next keeps how far the tested tile is off. */
  lemma KeptOn(m: TileLayer, tile: int, o: Vec, d0: Vec, t: real, p: Vec, d: Vec, tp: Cell, c: Cell, inside: Sides,
      ii: int, s: real, tp': Cell, c': Cell)
    requires ValidLayer(m) && Kept(m, tile, o, d0, t, tp, c, inside) && GetTile(m, tp) != tile
    requires Walking(o, d0, t, p, d, c, inside)
    requires 0 <= ii < 2 && d[ii] != 0.0 && 0.0 <= s == Reach(p[ii], d[ii], inside[ii]) <= 1.0
    requires forall i | 0 <= i < 2 && d[i] != 0.0 :: s <= Reach(p[i], d[i], inside[i])
    requires ii == 1 && d[0] != 0.0 ==> s < Reach(p[0], d[0], inside[0])
    requires tp'[ii] == tp[ii] + (if d[ii] > 0.0 then 1 else -1)
    requires tp'[1 - ii] == Recell(Moved(p[1 - ii], d[1 - ii], s), inside[1 - ii])
    requires c' == c[ii := c[ii] + (if d[ii] > 0.0 then 1 else -1)][1 - ii := tp'[1 - ii]]
    ensures Kept(m, tile, o, d0, Then(t, s), tp', c', inside[ii := d[ii] > 0.0])
  {
    KeptStretch(m, tile, o, d0, t, p, d, tp, c, inside, s);
    hide Reach, Then, Recell, Moved, GetTile, Clear, Passed, Steady, RightStart, Aligned, StartError, Walking;
    if Steady(o, d0) {
      StaysOff(o, d0, t, p, d, c, inside, ii, tp, tp');
      ClearOpen(m, tile, o, d0, StartError(o), Then(t, s));
    }
    if RightStart(o) {
      StaysGood(o, d0, t, p, d, c, inside, ii, s, tp, tp');
      ClearOpen(m, tile, o, d0, [0, 0], Then(t, s));
    }
    if Aligned(o, d0) {
      CrossesX(o, d0, t, p, d, c, inside, ii, s);
      PassedOpen(m, tile, o, d0, Then(t, s));
    }
  }

  lemma PassedOpen(m: TileLayer, tile: int, o: Vec, d: Vec, end: real)
    requires ValidLayer(m) && Passed(m, tile, o, d, end, true)
    ensures Passed(m, tile, o, d, end, false)
  {
  }

  lemma MovedMono(p: real, d: real, a: real, b: real)
    requires a < b
    ensures d > 0.0 ==> Moved(p, d, a) < Moved(p, d, b)
    ensures d < 0.0 ==> Moved(p, d, b) < Moved(p, d, a)
  {
    MovedBy(p, d, a, b);
    Product(d, b - a);
    hide Moved;
  }

  lemma MovedBy(p: real, d: real, a: real, b: real)
    ensures Moved(p, d, b) - Moved(p, d, a) == d * (b - a)
  {
  }

  lemma MovedNone(p: real, d: real)
    ensures Moved(p, d, 0.0) == p
  {
  }

  lemma MovedToLine(p: real, d: real, c: int, inside: bool)
    requires d != 0.0 && On(p, c, inside) && (!inside ==> d < 0.0)
    ensures Reach(p, d, inside) >= 0.0 && Moved(p, d, Reach(p, d, inside)) == Line(d, c)
  {
    ReachIsLine(p, d, c, inside);
    hide Reach;
  }

  /** Short of the next line the coordinate is strictly on this side of it. */
  lemma ShortOfLine(p: real, d: real, c: int, inside: bool, s: real)
    requires On(p, c, inside) && (!inside ==> d < 0.0) && d != 0.0 && 0.0 <= s < Reach(p, d, inside)
    ensures d > 0.0 ==> p <= Moved(p, d, s) < Line(d, c) && (s > 0.0 ==> p < Moved(p, d, s))
    ensures d < 0.0 ==> Line(d, c) < Moved(p, d, s) <= p
  {
    hide Reach, Moved, Line;
    MovedToLine(p, d, c, inside);
    MovedMono(p, d, s, Reach(p, d, inside));
    MovedNone(p, d);
    if s > 0.0 {
      MovedMono(p, d, 0.0, s);
    }
  }

  /** There the cell is found again. */
  lemma RecellSame(p: real, d: real, c: int, inside: bool, s: real)
    requires On(p, c, inside) && (!inside && d != 0.0 ==> d < 0.0) && s >= 0.0
    requires d != 0.0 ==> s < Reach(p, d, inside)
    ensures Recell(Moved(p, d, s), inside) == c
  {
    if d != 0.0 {
      ShortOfLine(p, d, c, inside, s);
      hide Moved, Reach;
    } else {
      assert s * d == 0.0;
    }
  }

  lemma StaysGood(o: Vec, d0: Vec, t: real, p: Vec, d: Vec, c: Cell, inside: Sides, i: int, s: real, tp: Cell, tp': Cell)
    requires Walking(o, d0, t, p, d, c, inside) && 0 <= i < 2 && d[i] != 0.0 && AsGood(tp, c) && s >= 0.0
    requires i == 1 && d[0] != 0.0 ==> s < Reach(p[0], d[0], inside[0])
    requires tp'[i] == tp[i] + (if d[i] > 0.0 then 1 else -1)
    requires tp'[1 - i] == Recell(Moved(p[1 - i], d[1 - i], s), inside[1 - i])
    ensures
      var c' := c[i := c[i] + (if d[i] > 0.0 then 1 else -1)][1 - i := tp'[1 - i]];
      AsGood(tp', c')
  {
    if i == 1 {
      RestSign(t, d0[0], d[0]);
      RecellSame(p[0], d[0], c[0], inside[0], s);
    }
    hide Reach, Recell, Moved, Walking;
  }

  /** On a segment that is aligned the next crossing is never one of axis 1 alone. */
  lemma CrossesX(o: Vec, d0: Vec, t: real, p: Vec, d: Vec, c: Cell, inside: Sides, i: int, s: real)
    requires Walking(o, d0, t, p, d, c, inside) && inside == [true, true] && Aligned(o, d0)
    requires 0 <= i < 2 && d[i] != 0.0 && 0.0 <= s == Reach(p[i], d[i], inside[i]) <= 1.0
    requires i == 1 && d[0] != 0.0 ==> s < Reach(p[0], d[0], inside[0])
    ensures i == 0 && d[0] > 0.0
  {
    hide Reach, Moved, Rest, Then, At, IsWhole;
    RestSign(t, d0[0], d[0]);
    RestSign(t, d0[1], d[1]);
    if i == 1 {
      Advance(o[0], d0[0], t, s, p[0], d[0]);
      Advance(o[1], d0[1], t, s, p[1], d[1]);
      LineIsWhole(p[1], d[1], c[1], s);
      LaterThan(t, s);
      BetweenLines(p[0], d[0], c[0], s);
      assert false;
    }
  }

  lemma LaterThan(t: real, s: real)
    requires 0.0 <= t < 1.0 && 0.0 < s <= 1.0
    ensures 0.0 < Then(t, s) <= 1.0
  {
    Product(s, 1.0 - t);
    AdvanceRange(t, s);
  }

  lemma LineIsWhole(p: real, d: real, c: int, s: real)
    requires On(p, c, true) && d > 0.0 && s == Reach(p, d, true)
    ensures IsWhole(Moved(p, d, s)) && s > 0.0
  {
    hide Reach, Moved;
    MovedToLine(p, d, c, true);
    MovedNone(p, d);
    assert Moved(p, d, s) == (c + 1) as real;
  }

  lemma BetweenLines(p: real, d: real, c: int, s: real)
    requires On(p, c, true) && d > 0.0 && 0.0 < s < Reach(p, d, true)
    ensures !IsWhole(Moved(p, d, s))
  {
    hide Reach, Moved;
    ShortOfLine(p, d, c, true, s);
    NotWhole(Moved(p, d, s), c);
  }

  lemma NotWhole(x: real, c: int)
    requires c as real < x < c as real + 1.0
    ensures !IsWhole(x)
  {
    assert x.Floor == c;
  }

  /** The walk from a point left of the map hits a tile that the point does not touch. */
  method NegativeStartFails() returns (hit: bool, tsc: real)
    ensures hit && tsc == 0.0
    ensures forall c: Cell | Touches(c, Scaled([-16.0, 16.0])) :: GetTile(OneTile(1, 1), c) != 7
  {
    hide GetTile, OneTile, Steady, RightStart, Found, Aligned, Passed, Scaled;
    NegativeStart();
    hit, tsc := IntersectLineTile(OneTile(1, 1), [-16.0, 16.0], [0.0, 0.0], 7);
  }

  lemma NegativeStart()
    ensures
      var o := Scaled([-16.0, 16.0]);
      && GetTile(OneTile(1, 1), [Trunc(o[0]), Trunc(o[1])]) == 7
      && forall c: Cell | Touches(c, o) :: GetTile(OneTile(1, 1), c) != 7
  {
    assert Scaled([-16.0, 16.0]) == [-0.5, 0.5] && Trunc(-0.5) == 0 && Trunc(0.5) == 0;
    hide GetTile, OneTile, Scaled;
    OneTileAt(1, 1, [0, 0]);
    forall c: Cell | Touches(c, [-0.5, 0.5]) ensures GetTile(OneTile(1, 1), c) != 7 {
      OneTileAt(1, 1, c);
      assert c[0] as real <= -0.5;
    }
  }

  /** What is left of the segment on an axis is a part of the whole. */
  lemma MovesOn(o: Vec, d0: Vec, t: real, p: Vec, d: Vec, c: Cell, inside: Sides, i: int)
    requires Walking(o, d0, t, p, d, c, inside) && 0 <= i < 2 && d[i] != 0.0
    ensures d0[i] != 0.0
  {
  }

  /** Where nothing puts the error of the start right, the tested tile stays as far off as it was. */
  lemma StaysOff(o: Vec, d0: Vec, t: real, p: Vec, d: Vec, c: Cell, inside: Sides, i: int, tp: Cell, tp': Cell)
    requires Walking(o, d0, t, p, d, c, inside) && 0 <= i < 2 && d[i] != 0.0
    requires Steady(o, d0) && tp == Shifted(c, StartError(o))
    requires tp'[i] == tp[i] + (if d[i] > 0.0 then 1 else -1)
    ensures
      var c' := c[i := c[i] + (if d[i] > 0.0 then 1 else -1)][1 - i := tp'[1 - i]];
      tp' == Shifted(c', StartError(o))
  {
    hide StartError;
    MovesOn(o, d0, t, p, d, c, inside, i);
  }

  /** The fraction that is reported for a hit at the point `p`. */
  method HitAt(op: Vec, od: Vec, p: Vec, d: Vec, ghost t: real, ghost c: Cell, ghost inside: Sides) returns (tsc: real)
    requires Walking(op, od, t, p, d, c, inside) && (od == [0.0, 0.0] ==> t == 0.0)
    ensures tsc == t && 0.0 <= t <= 1.0 && Touches(c, Point(op, od, tsc))
  {
    tsc := 0.0;
    if od != [0.0, 0.0] {
      QuotientOfLengths([p[0] - op[0], p[1] - op[1]], od, t);
      tsc := LengthQuotient([p[0] - op[0], p[1] - op[1]], od);
    }
  }

  lemma StartWalk(o: Vec, d: Vec, c: Cell)
    requires c[0] == o[0].Floor && c[1] == o[1].Floor
    ensures Walking(o, d, 0.0, o, d, c, [true, true]) && Left(o, d, c) >= 0
  {
    GridLeft(o[0], d[0], 0.0, o[0], d[0], c[0], true);
    GridLeft(o[1], d[1], 0.0, o[1], d[1], c[1], true);
  }

  lemma ClearOpen(m: TileLayer, tile: int, o: Vec, d: Vec, off: Cell, end: real)
    requires ValidLayer(m) && Clear(m, tile, o, d, off, end, true)
    ensures Clear(m, tile, o, d, off, end, false)
  {
  }

  lemma ReachNonNegative(o: Vec, d0: Vec, t: real, p: Vec, d: Vec, c: Cell, inside: Sides)
    requires Walking(o, d0, t, p, d, c, inside)
    ensures forall i | 0 <= i < 2 && d[i] != 0.0 :: Reach(p[i], d[i], inside[i]) >= 0.0
    ensures 0.0 <= t <= 1.0
  {
    forall i | 0 <= i < 2 && d[i] != 0.0 ensures Reach(p[i], d[i], inside[i]) >= 0.0 {
      AxisReach(o[i], d0[i], t, p[i], d[i], c[i], inside[i]);
    }
  }

  lemma AxisReach(o: real, d0: real, t: real, p: real, d: real, c: int, inside: bool)
    requires AxisWalk(o, d0, t, p, d, c, inside) && d != 0.0
    ensures Reach(p, d, inside) >= 0.0
  {
    RestSign(t, d0, d);
    ReachIsLine(p, d, c, inside);
  }

  // ----- The answer in pixels --------------------------------------------------------------------

  /** The point, in pixels, at fraction `t` of the segment. */
  function PixelAt(p0: Vec, dv: Vec, t: real): Vec {
    [Along(p0[0], dv[0], t), Along(p0[1], dv[1], t)]
  }

  function Along(o: real, d: real, t: real): real {
    o + t * d
  }

  /** The square of 32 by 32 pixels of the tile in column `cx` of row `cy`, with its borders. */
  predicate InSquare(p: Vec, cx: int, cy: int) {
    32.0 * cx as real <= p[0] <= 32.0 * (cx + 1) as real && 32.0 * cy as real <= p[1] <= 32.0 * (cy + 1) as real
  }

  /** Strictly inside of it on every axis along which the segment runs. */
  predicate WellInSquare(p: Vec, dv: Vec, cx: int, cy: int) {
    && InSquare(p, cx, cy)
    && p[0] < 32.0 * (cx + 1) as real && p[1] < 32.0 * (cy + 1) as real
    && (dv[0] != 0.0 ==> 32.0 * cx as real < p[0]) && (dv[1] != 0.0 ==> 32.0 * cy as real < p[1])
  }

  /** The tile there has number `tile`; outside of the map all have number 0. */
  predicate HasNumber(m: TileLayer, cx: int, cy: int, tile: int)
    requires ValidLayer(m)
  {
    if m.Tiles? && 0 <= cx < m.width && 0 <= cy < m.height then m.index[Flat(m.width, m.height, cx, cy)] == tile
    else tile == 0
  }

  lemma ScaleBack(o: real, d: real, t: real, c: int)
    ensures
      var x, p := At(o / 32.0, d / 32.0, t), Along(o, d, t);
      && (c as real <= x <==> 32.0 * c as real <= p) && (c as real < x <==> 32.0 * c as real < p)
      && (x < c as real <==> p < 32.0 * c as real) && (x <= c as real <==> p <= 32.0 * c as real)
  {
    assert t * (d / 32.0) == (t * d) / 32.0;
    assert At(o / 32.0, d / 32.0, t) == Along(o, d, t) / 32.0;
    hide At, Along;
  }

  lemma SquareIsCell(p0: Vec, dv: Vec, t: real, cx: int, cy: int)
    ensures InSquare(PixelAt(p0, dv, t), cx, cy) <==> Touches([cx, cy], Point(Scaled(p0), Scaled(dv), t))
  {
    ScaleBack(p0[0], dv[0], t, cx);
    ScaleBack(p0[0], dv[0], t, cx + 1);
    ScaleBack(p0[1], dv[1], t, cy);
    ScaleBack(p0[1], dv[1], t, cy + 1);
    TouchesIs(Point(Scaled(p0), Scaled(dv), t), cx, cy);
    hide At, Along, Touches;
  }

  lemma WellInCell(p0: Vec, dv: Vec, t: real, cx: int, cy: int)
    requires WellInSquare(PixelAt(p0, dv, t), dv, cx, cy)
    ensures CellOf(Point(Scaled(p0), Scaled(dv), t)) == [cx, cy] && Generic(Scaled(p0), Scaled(dv), t)
  {
    WellOnAxis(p0[0], dv[0], t, cx);
    WellOnAxis(p0[1], dv[1], t, cy);
    hide At, Along, IsWhole;
  }

  lemma WellOnAxis(o: real, d: real, t: real, c: int)
    requires 32.0 * c as real <= Along(o, d, t) < 32.0 * (c + 1) as real
    requires d != 0.0 ==> 32.0 * c as real < Along(o, d, t)
    ensures At(o / 32.0, d / 32.0, t).Floor == c && (d / 32.0 != 0.0 ==> !IsWhole(At(o / 32.0, d / 32.0, t)))
  {
    ScaleBack(o, d, t, c);
    ScaleBack(o, d, t, c + 1);
    hide At, Along;
    assert At(o / 32.0, d / 32.0, t).Floor == c;
  }

  lemma TouchesIs(q: Vec, cx: int, cy: int)
    ensures Touches([cx, cy], q) <==>
      cx as real <= q[0] <= (cx + 1) as real && cy as real <= q[1] <= (cy + 1) as real
  {
    var c: Cell := [cx, cy];
    assert c[0] == cx && c[1] == cy;
  }

  /** A right answer in pixels and tile numbers: no square of a matching tile is passed before the hit,
      or at all without one, and the point of the hit lies in such a square. */
  lemma FoundInPixels(m: TileLayer, tile: int, p0: Vec, dv: Vec, hit: bool, tsc: real)
    requires ValidLayer(m) && Found(m, tile, Scaled(p0), Scaled(dv), [0, 0], hit, tsc)
    ensures forall t, cx, cy | 0.0 <= t <= 1.0 && (hit ==> t < tsc) && WellInSquare(PixelAt(p0, dv, t), dv, cx, cy) ::
              !HasNumber(m, cx, cy, tile)
    ensures hit ==> 0.0 <= tsc <= 1.0
    ensures hit ==> exists cx, cy :: HasNumber(m, cx, cy, tile) && InSquare(PixelAt(p0, dv, tsc), cx, cy)
  {
    forall t, cx, cy | 0.0 <= t <= 1.0 && (hit ==> t < tsc) && WellInSquare(PixelAt(p0, dv, t), dv, cx, cy)
      ensures !HasNumber(m, cx, cy, tile)
    {
      WellInCell(p0, dv, t, cx, cy);
      NumberIs(m, cx, cy, tile);
      NotShifted([cx, cy]);
      hide WellInSquare, HasNumber, GetTile, Point, PixelAt, Generic, CellOf, Shifted;
    }
    if hit {
      var c: Cell :| GetTile(m, Shifted(c, [0, 0])) == tile && Touches(c, Point(Scaled(p0), Scaled(dv), tsc));
      NotShifted(c);
      assert c == [c[0], c[1]];
      SquareIsCell(p0, dv, tsc, c[0], c[1]);
      NumberIs(m, c[0], c[1], tile);
    }
  }

  lemma NumberIs(m: TileLayer, cx: int, cy: int, tile: int)
    requires ValidLayer(m)
    ensures HasNumber(m, cx, cy, tile) <==> GetTile(m, [cx, cy]) == tile
  {
  }
}
