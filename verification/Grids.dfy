/** Rectangular grids stored row by row. */
module Grids {
  import opened Arith

  datatype Pos = Pos(x: int, y: int)

  /** Two cells of a grid of width `w` have different places. */
  lemma FlatInjective(w: nat, x: int, y: int, x': int, y': int)
    requires 0 <= x < w && 0 <= x' < w
    ensures y * w + x == y' * w + x' ==> x == x' && y == y'
  {
    assert (y - y') * w == y * w - y' * w;
    MulApart(y - y', w);
  }

  lemma FlatBound(x: int, y: int, w: nat, h: nat)
    requires 0 <= x < w && 0 <= y < h
    ensures 0 <= y * w + x < w * h
  {
    assert (h - 1 - y) * w >= 0;
    assert (h - 1 - y) * w == h * w - w - y * w;
  }

  /** The place of a cell in a grid that is stored row by row. */
  function Flat(w: nat, h: nat, x: int, y: int): (i: nat)
    requires 0 <= x < w && 0 <= y < h
    ensures i == y * w + x && i < w * h
  {
    FlatBound(x, y, w, h);
    y * w + x
  }

  ghost function Row(w: nat, y: int): set<Pos> {
    set x | 0 <= x < w :: Pos(x, y)
  }

  ghost function Cells(w: nat, h: nat): set<Pos> {
    set x, y | 0 <= x < w && 0 <= y < h :: Pos(x, y)
  }

  lemma {:induction false} RowSize(w: nat, y: int)
    ensures |Row(w, y)| == w
  {
    if w > 0 {
      RowSize(w - 1, y);
      assert Row(w, y) == Row(w - 1, y) + {Pos(w - 1, y)};
    }
  }

  lemma CellsSplit(w: nat, h: nat)
    ensures Cells(w, h + 1) == Cells(w, h) + Row(w, h) && Cells(w, h) !! Row(w, h)
  {
    forall p | p in Cells(w, h + 1) ensures p in Cells(w, h) + Row(w, h) {
      assert p == Pos(p.x, p.y);
    }
  }

  lemma {:induction false} CellsSize(w: nat, h: nat)
    ensures |Cells(w, h)| == w * h
  {
    if h > 0 {
      CellsSize(w, h - 1);
      RowSize(w, h - 1);
      CellsSplit(w, h - 1);
      assert w * h == w * (h - 1) + w;
    }
  }

  /** A set of cells is no larger than the grid. */
  lemma CellsBound(w: nat, h: nat, cells: set<Pos>)
    requires cells <= Cells(w, h)
    ensures |cells| <= w * h
  {
    CellsSize(w, h);
    assert Cells(w, h) == cells + (Cells(w, h) - cells);
  }
}
