/** The merging of pixels into few quads of src/tools/map_create_pixelart.cpp. */
module PixelArt {
  import opened Arith
  import opened Bytes
  import opened Grids

  datatype Option<T> = None | Some(value: T)

  // ----- Images ----------------------------------------------------------------------------------

  datatype Pixel = Pixel(r: byte, g: byte, b: byte, a: byte)

  /** Pixels of three or four bytes; three bytes leave a pixel opaque. */
  datatype ImageData = Image(width: nat, height: nat, bpp: nat, data: seq<byte>)
  type Image = i: ImageData | (i.bpp == 3 || i.bpp == 4) && |i.data| == i.width * i.height * i.bpp
    witness Image(0, 0, 4, [])

  function Clamp(x: int, lo: int, hi: int): int {
    if x < lo then lo else if hi < x then hi else x
  }

  lemma OffsetBound(x: nat, y: nat, w: nat, h: nat, bpp: nat)
    requires x < w && y < h
    ensures x * bpp + w * bpp * y + bpp <= w * h * bpp
  {
    FlatBound(x, y, w, h);
    Scale(y * w + x + 1, w * h, bpp);
    OffsetIs(x, y, w, bpp);
  }

  lemma Scale(a: int, b: int, c: nat)
    requires a <= b
    ensures a * c <= b * c
  {
    assert (b - a) * c >= 0;
  }

  lemma OffsetIs(x: int, y: int, w: int, bpp: int)
    ensures x * bpp + w * bpp * y + bpp == (y * w + x + 1) * bpp
  {
    assert w * bpp * y == y * w * bpp;
  }

  /** Where the bytes of a pixel begin. */
  function PixelOffset(x: nat, y: nat, w: nat, h: nat, bpp: nat): (at: nat)
    requires x < w && y < h
    ensures at + bpp <= w * h * bpp
  {
    OffsetBound(x, y, w, h, bpp);
    assert w * bpp * y >= 0;
    x * bpp + w * bpp * y
  }

  function GetPixelClamped(img: Image, x: int, y: int): Pixel
    requires img.width > 0 && img.height > 0
  {
    var cx, cy := Clamp(x, 0, img.width - 1), Clamp(y, 0, img.height - 1);
    var at := PixelOffset(cx, cy, img.width, img.height, img.bpp);
    var opacity: byte := if img.bpp == 4 then img.data[at + 3] else 255;
    Pixel(img.data[at], img.data[at + 1], img.data[at + 2], opacity)
  }

  /** Which byte is which: the pixels lie row by row, each with red, green, blue and, of four bytes,
      opacity; places outside the image show the pixel at its edge. */
  lemma PixelBytes(img: Image, x: int, y: int)
    requires img.width > 0 && img.height > 0
    ensures
      var cx := if x < 0 then 0 else if x >= img.width then img.width - 1 else x;
      var cy := if y < 0 then 0 else if y >= img.height then img.height - 1 else y;
      var at := PixelOffset(cx, cy, img.width, img.height, img.bpp);
      && at == img.bpp * (cy * img.width + cx)
      && GetPixelClamped(img, x, y) ==
         Pixel(img.data[at], img.data[at + 1], img.data[at + 2], if img.bpp == 4 then img.data[at + 3] else 255)
  {
    var cx := if x < 0 then 0 else if x >= img.width then img.width - 1 else x;
    var cy := if y < 0 then 0 else if y >= img.height then img.height - 1 else y;
    OffsetByRows(cx, cy, img.width, img.height, img.bpp);
    hide PixelOffset;
  }

  lemma OffsetByRows(x: nat, y: nat, w: nat, h: nat, bpp: nat)
    requires x < w && y < h
    ensures PixelOffset(x, y, w, h, bpp) == bpp * (y * w + x)
  {
    OffsetIs(x, y, w, bpp);
    assert (y * w + x + 1) * bpp == bpp * (y * w + x) + bpp;
  }

  // ----- The sampled picture ---------------------------------------------------------------------

  /** The pixel at which cell `i` of an axis starts. */
  function Px(p: nat, i: int): int {
    i * p
  }

  lemma PxNext(p: nat, i: int, j: int)
    ensures Px(p, i + j) == Px(p, i) + Px(p, j) && Px(p, 0) == 0 && Px(p, 1) == p
  {
  }

  lemma PxOrder(p: nat, a: int, b: int)
    requires p > 0
    ensures Px(p, a) <= Px(p, b) <==> a <= b
  {
    assert (b - a) * p == b * p - a * p;
    MulApart(b - a, p);
  }

  lemma PxDivide(p: nat, a: nat)
    requires p > 0
    ensures Px(p, a) / p == a
  {
    PxOrder(p, 0, a);
    DivModUnique(Px(p, a), p, a, 0);
  }

  lemma Multiples(w: nat, p: nat, i: nat)
    requires p > 0 && w % p == 0
    ensures i < w / p <==> Px(p, i) < w
    ensures i < w / p ==> Px(p, i + 1) <= w
  {
    var q := w / p;
    assert w == Px(p, q);
    hide Px;
    PxOrder(p, q, i);
    PxOrder(p, i + 1, q);
  }

  /** The image is cut into squares of `p` pixels. */
  predicate Sampled(img: Image, p: nat) {
    p > 0 && img.width % p == 0 && img.height % p == 0
  }

  predicate InGrid(img: Image, p: nat, c: Pos)
    requires p > 0
  {
    0 <= c.x < img.width / p && 0 <= c.y < img.height / p
  }

  /** The colour of a square, read at its corner; none if it is transparent. */
  function Sample(img: Image, p: nat, c: Pos): Option<Pixel>
    requires Sampled(img, p) && InGrid(img, p, c)
  {
    assert img.width > 0 && img.height > 0;
    var pixel := GetPixelClamped(img, Px(p, c.x), Px(p, c.y));
    if pixel.a == 0 then None else Some(pixel)
  }

  // ----- Quads -----------------------------------------------------------------------------------

  /** A quad in fixed point coordinates, 1024 to the unit. */
  datatype Quad = Quad(left: int, top: int, right: int, bottom: int, color: Pixel)

  /** The quad has the point of the fixed point plane; a side belongs to what lies right of or below it. */
  predicate Covers(q: Quad, at: Pos) {
    q.left <= at.x < q.right && q.top <= at.y < q.bottom
  }

  /** What is seen at a point when the quads are painted in order. */
  function Paint(quads: seq<Quad>, at: Pos): Option<Pixel> {
    if quads == [] then None
    else if Covers(quads[|quads| - 1], at) then Some(quads[|quads| - 1].color)
    else Paint(quads[..|quads| - 1], at)
  }

  /** The cell whose square on the canvas, `size` units wide, has the point. */
  function CellAt(start: Pos, size: int, at: Pos): Pos
    requires size > 0
  {
    Pos((at.x - 1024 * start.x) / (1024 * size), (at.y - 1024 * start.y) / (1024 * size))
  }

  /** The picture that the image asks for: at every point the sample of its cell. */
  function PictureAt(img: Image, p: nat, start: Pos, size: int, at: Pos): Option<Pixel>
    requires Sampled(img, p) && size > 0
  {
    var c := CellAt(start, size, at);
    if InGrid(img, p, c) then Sample(img, p, c) else None
  }

  /** A rectangle of cells with its colour. */
  datatype Rect = Rect(x: int, y: int, w: int, h: int, color: Pixel)

  predicate InRect(r: Rect, c: Pos) {
    r.x <= c.x < r.x + r.w && r.y <= c.y < r.y + r.h
  }

  function QuadOf(r: Rect, start: Pos, size: int): (q: Quad)
    ensures q.color == r.color
  {
    Quad(1024 * (start.x + size * r.x), 1024 * (start.y + size * r.y),
         1024 * (start.x + size * (r.x + r.w)), 1024 * (start.y + size * (r.y + r.h)), r.color)
  }

  lemma FloorAtLeast(a: int, n: nat, k: int)
    requires n > 0
    ensures k <= a / n <==> n * k <= a
  {
    var q, m := a / n, a % n;
    assert a == q * n + m;
    assert (k - q) * n == n * k - q * n;
    MulApart(k - q, n);
  }

  /** A side of a quad and the cell that starts there. */
  lemma SideIsCell(start: int, size: int, k: int, x: int)
    requires size > 0
    ensures 1024 * (start + size * k) <= x <==> k <= (x - 1024 * start) / (1024 * size)
  {
    FloorAtLeast(x - 1024 * start, 1024 * size, k);
    assert (1024 * size) * k == 1024 * (size * k);
  }

  lemma CoversIsInRect(r: Rect, start: Pos, size: int, at: Pos)
    requires size > 0
    ensures Covers(QuadOf(r, start, size), at) <==> InRect(r, CellAt(start, size, at))
  {
    SideIsCell(start.x, size, r.x, at.x);
    SideIsCell(start.x, size, r.x + r.w, at.x);
    SideIsCell(start.y, size, r.y, at.y);
    SideIsCell(start.y, size, r.y + r.h, at.y);
  }

  function F2fx(v: real): int {
    if v < 0.0 then -(-v * 1024.0).Floor else (v * 1024.0).Floor
  }

  /** A quad around a centre. */
  function CreateNewQuad(posX: real, posY: real, width: int, height: int, color: Pixel): Quad {
    var x, y, w, h := F2fx(posX), F2fx(posY), F2fx(width as real / 2.0), F2fx(height as real / 2.0);
    Quad(x - w, y - h, x + w, y + h, color)
  }

  lemma FixedPointExact(v: real, k: int)
    requires v * 1024.0 == k as real
    ensures F2fx(v) == k
  {
    if v < 0.0 {
      assert -v * 1024.0 == (-k) as real;
    }
  }

  /** The centre of `w` squares that start at square `i`, as the program computes it. */
  function Centre(start: int, x: int, p: nat, w: int, size: int): real
    requires p > 0
  {
    start as real + (x as real / p as real + w as real / 2.0) * size as real
  }

  lemma AxisExact(start: int, i: int, p: nat, w: int, size: int)
    requires p > 0
    ensures F2fx(Centre(start, Px(p, i), p, w, size)) - F2fx((size * w) as real / 2.0) == 1024 * (start + size * i)
    ensures F2fx(Centre(start, Px(p, i), p, w, size)) + F2fx((size * w) as real / 2.0) == 1024 * (start + size * (i + w))
  {
    assert Px(p, i) as real / p as real == i as real;
    var half := (size * w) as real / 2.0;
    FixedPointExact(half, 512 * (size * w));
    var c := Centre(start, Px(p, i), p, w, size);
    assert (i as real + w as real / 2.0) * size as real == (size * i) as real + half;
    FixedPointExact(c, 1024 * start + 1024 * (size * i) + 512 * (size * w));
    assert size * (i + w) == size * i + size * w;
  }

  lemma QuadExact(r: Rect, start: Pos, p: nat, size: int)
    requires p > 0
    ensures CreateNewQuad(Centre(start.x, Px(p, r.x), p, r.w, size), Centre(start.y, Px(p, r.y), p, r.h, size),
      size * r.w, size * r.h, r.color) == QuadOf(r, start, size)
  {
    hide F2fx;
    hide Centre;
    AxisExact(start.x, r.x, p, r.w, size);
    AxisExact(start.y, r.y, p, r.h, size);
  }

  // ----- Visited pixels --------------------------------------------------------------------------

  function Idx(img: Image, x: int, y: int): (i: nat)
    requires 0 <= x < img.width && 0 <= y < img.height
    ensures i < img.width * img.height
  {
    FlatBound(x, y, img.width, img.height);
    y * img.width + x
  }

  predicate Visited(img: Image, visited: seq<bool>, x: int, y: int)
    requires |visited| == img.width * img.height && 0 <= x < img.width && 0 <= y < img.height
  {
    visited[Idx(img, x, y)]
  }

  lemma VisitedUpdate(img: Image, visited: seq<bool>, x: int, y: int)
    requires |visited| == img.width * img.height && 0 <= x < img.width && 0 <= y < img.height
    ensures forall x', y' | 0 <= x' < img.width && 0 <= y' < img.height ::
      Visited(img, visited[Idx(img, x, y) := true], x', y') == (Visited(img, visited, x', y') || (x' == x && y' == y))
  {
    forall x', y' | 0 <= x' < img.width && 0 <= y' < img.height
      ensures Visited(img, visited[Idx(img, x, y) := true], x', y') == (Visited(img, visited, x', y') || (x' == x && y' == y))
    {
      FlatInjective(img.width, x, y, x', y');
    }
  }

  /** `after` has in addition to `before` the pixels of the rectangle. */
  ghost predicate Marked(img: Image, before: seq<bool>, after: seq<bool>, x0: int, y0: int, x1: int, y1: int)
    requires |before| == |after| == img.width * img.height
  {
    forall x, y | 0 <= x < img.width && 0 <= y < img.height ::
      Visited(img, after, x, y) == (Visited(img, before, x, y) || (x0 <= x < x1 && y0 <= y < y1))
  }

  lemma MarkNone(img: Image, visited: seq<bool>, x0: int, y0: int, x1: int, y1: int)
    requires |visited| == img.width * img.height && (x1 <= x0 || y1 <= y0)
    ensures Marked(img, visited, visited, x0, y0, x1, y1)
  {
  }

  lemma MarkPixel(img: Image, row: seq<bool>, visited: seq<bool>, x0: int, x: int, y: int)
    requires |row| == |visited| == img.width * img.height && 0 <= x0 <= x < img.width && 0 <= y < img.height
    requires Marked(img, row, visited, x0, y, x, y + 1)
    ensures Marked(img, row, visited[Idx(img, x, y) := true], x0, y, x + 1, y + 1)
  {
    hide Visited, Idx;
    var visited' := visited[Idx(img, x, y) := true];
    VisitedUpdate(img, visited, x, y);
    forall x', y' | 0 <= x' < img.width && 0 <= y' < img.height
      ensures Visited(img, visited', x', y') == (Visited(img, row, x', y') || (x0 <= x' < x + 1 && y <= y' < y + 1))
    {
      assert Visited(img, visited', x', y') == (Visited(img, visited, x', y') || (x' == x && y' == y));
      assert Visited(img, visited, x', y') == (Visited(img, row, x', y') || (x0 <= x' < x && y <= y' < y + 1));
    }
  }

  lemma MarkRow(img: Image, before: seq<bool>, row: seq<bool>, after: seq<bool>, x0: int, x1: int, y0: int, y: int)
    requires |before| == |row| == |after| == img.width * img.height && y0 <= y
    requires Marked(img, before, row, x0, y0, x1, y) && Marked(img, row, after, x0, y, x1, y + 1)
    ensures Marked(img, before, after, x0, y0, x1, y + 1)
  {
    hide Visited;
  }

  method SetVisitedPixels(img: Image, posX: int, posY: int, width: int, height: int, visited: array<bool>)
    requires visited.Length == img.width * img.height
    requires 0 <= posX && 0 <= width && posX + width <= img.width
    requires 0 <= posY && 0 <= height && posY + height <= img.height
    modifies visited
    ensures Marked(img, old(visited[..]), visited[..], posX, posY, posX + width, posY + height)
  {
    hide Marked;
    ghost var before := visited[..];
    MarkNone(img, before, posX, posY, posX + width, posY);
    for y := posY to posY + height
      invariant Marked(img, before, visited[..], posX, posY, posX + width, y)
    {
      ghost var row := visited[..];
      MarkNone(img, row, posX, y, posX, y + 1);
      for x := posX to posX + width
        invariant Marked(img, row, visited[..], posX, y, x, y + 1)
      {
        ghost var vis := visited[..];
        MarkPixel(img, row, vis, posX, x, y);
        visited[Idx(img, x, y)] := true;
        assert visited[..] == vis[Idx(img, x, y) := true];
      }
      MarkRow(img, before, row, visited[..], posX, posX + width, posY, y);
    }
  }

  predicate IsPixelOptimizable(img: Image, x: int, y: int, pixel: Pixel, visited: seq<bool>)
    requires |visited| == img.width * img.height && x >= 0 && y >= 0
  {
    x < img.width && y < img.height && !Visited(img, visited, x, y)
    && GetPixelClamped(img, x, y).a != 0 && GetPixelClamped(img, x, y) == pixel
  }

  /** The cell can be part of a rectangle of the colour. */
  predicate CellFree(img: Image, p: nat, pixel: Pixel, visited: seq<bool>, c: Pos)
    requires Sampled(img, p) && |visited| == img.width * img.height
  {
    InGrid(img, p, c) && Px(p, c.x) >= 0 && Px(p, c.y) >= 0 && IsPixelOptimizable(img, Px(p, c.x), Px(p, c.y), pixel, visited)
  }

  lemma FreeIsInGrid(img: Image, p: nat, pixel: Pixel, visited: seq<bool>, c: Pos)
    requires Sampled(img, p) && |visited| == img.width * img.height && c.x >= 0 && c.y >= 0
    ensures Px(p, c.x) >= 0 && Px(p, c.y) >= 0
    ensures IsPixelOptimizable(img, Px(p, c.x), Px(p, c.y), pixel, visited) ==> CellFree(img, p, pixel, visited, c)
    ensures InGrid(img, p, c) ==> Px(p, c.x + 1) <= img.width && Px(p, c.y + 1) <= img.height
  {
    hide Px;
    PxOrder(p, 0, c.x);
    PxOrder(p, 0, c.y);
    PxNext(p, 0, 0);
    Multiples(img.width, p, c.x);
    Multiples(img.height, p, c.y);
  }

  /** All cells of a rectangle are free. */
  ghost predicate AllFree(img: Image, p: nat, visited: seq<bool>, r: Rect)
    requires Sampled(img, p) && |visited| == img.width * img.height
  {
    forall c | InRect(r, c) :: CellFree(img, p, r.color, visited, c)
  }

  /** Some column of the rectangle cannot go on below it. */
  ghost predicate BlockedBelow(img: Image, p: nat, visited: seq<bool>, r: Rect)
    requires Sampled(img, p) && |visited| == img.width * img.height
  {
    exists c: Pos :: c.y == r.y + r.h && r.x <= c.x < r.x + r.w && !CellFree(img, p, r.color, visited, c)
  }

  /** The rectangle is as wide as its first row is free, and then as high as its lowest column. */
  ghost predicate Grown(img: Image, p: nat, visited: seq<bool>, r: Rect)
    requires Sampled(img, p) && |visited| == img.width * img.height
  {
    && AllFree(img, p, visited, r)
    && !CellFree(img, p, r.color, visited, Pos(r.x + r.w, r.y))
    && BlockedBelow(img, p, visited, r)
  }

  lemma GrownAtMost(img: Image, p: nat, visited: seq<bool>, r: Rect, r': Rect)
    requires Sampled(img, p) && |visited| == img.width * img.height
    requires r.w >= 1 && r.h >= 1 && r'.w >= 1 && r'.h >= 1
    requires r.x == r'.x && r.y == r'.y && r.color == r'.color
    requires Grown(img, p, visited, r) && AllFree(img, p, visited, r')
    ensures r'.w <= r.w && (r'.w == r.w ==> r'.h <= r.h)
  {
    hide CellFree;
    assert r.w < r'.w ==> InRect(r', Pos(r.x + r.w, r.y));
    var c: Pos :| c.y == r.y + r.h && r.x <= c.x < r.x + r.w && !CellFree(img, p, r.color, visited, c);
    assert r'.w == r.w && r.h < r'.h ==> InRect(r', c);
  }

  /** Its corner and its colour determine it. */
  lemma GrownIsUnique(img: Image, p: nat, visited: seq<bool>, r: Rect, r': Rect)
    requires Sampled(img, p) && |visited| == img.width * img.height
    requires r.w >= 1 && r.h >= 1 && r'.w >= 1 && r'.h >= 1
    requires r.x == r'.x && r.y == r'.y && r.color == r'.color
    requires Grown(img, p, visited, r) && Grown(img, p, visited, r')
    ensures r == r'
  {
    GrownAtMost(img, p, visited, r, r');
    GrownAtMost(img, p, visited, r', r);
    hide Grown;
  }

  lemma NotOptimizable(img: Image, p: nat, pixel: Pixel, visited: seq<bool>, c: Pos)
    requires Sampled(img, p) && |visited| == img.width * img.height && Px(p, c.x) >= 0 && Px(p, c.y) >= 0
    requires !IsPixelOptimizable(img, Px(p, c.x), Px(p, c.y), pixel, visited)
    ensures !CellFree(img, p, pixel, visited, c)
  {
    hide IsPixelOptimizable, Px;
  }

  /** The height, in pixels, of the free column below a free cell, as far as `limit` (none if 0). */
  method ColumnHeight(img: Image, p: nat, pixel: Pixel, ghost top: Pos, x: int, y: int, limit: int, ghost rows: int,
      visited: array<bool>) returns (h: int, ghost n: int)
    requires Sampled(img, p) && visited.Length == img.width * img.height
    requires top.x >= 0 && top.y >= 0 && x == Px(p, top.x) >= 0 && y == Px(p, top.y) >= 0
    requires limit == Px(p, rows) && rows >= 0
    requires IsPixelOptimizable(img, x, y, pixel, visited[..])
    ensures h == Px(p, n) && n >= 1 && (rows > 0 ==> n <= rows)
    ensures AllFree(img, p, visited[..], Rect(top.x, top.y, 1, n, pixel))
    ensures rows == 0 || n < rows ==> !CellFree(img, p, pixel, visited[..], Pos(top.x, top.y + n))
  {
    hide IsPixelOptimizable;
    hide AllFree;
    hide CellFree;
    hide Px;
    ghost var vis := visited[..];
    h, n := 0, 0;
    PxNext(p, 0, 0);
    PxOrder(p, rows, 0);
    EmptyIsFree(img, p, vis, Rect(top.x, top.y, 1, 0, pixel));
    while IsPixelOptimizable(img, x, y + h, pixel, visited[..]) && (limit == 0 || h < limit)
      invariant h == Px(p, n) >= 0 && n >= 0 && (rows > 0 ==> n <= rows)
      invariant n == 0 ==> IsPixelOptimizable(img, x, y, pixel, vis)
      invariant visited[..] == vis
      invariant AllFree(img, p, vis, Rect(top.x, top.y, 1, n, pixel))
      decreases img.height - y - h
    {
      PxNext(p, top.y, n);
      PxNext(p, n, 1);
      PxOrder(p, rows, n);
      OptimizableInside(img, x, y + h, pixel, vis);
      AddRow(img, p, vis, Rect(top.x, top.y, 1, n, pixel));
      h := h + p;
      n := n + 1;
    }
    PxNext(p, top.y, n);
    if rows == 0 || n < rows {
      PxOrder(p, rows, n);
      NotOptimizable(img, p, pixel, vis, Pos(top.x, top.y + n));
    }
  }

  lemma OptimizableInside(img: Image, x: int, y: int, pixel: Pixel, visited: seq<bool>)
    requires |visited| == img.width * img.height && x >= 0 && y >= 0
    requires IsPixelOptimizable(img, x, y, pixel, visited)
    ensures x < img.width && y < img.height
  {
  }

  lemma EmptyIsFree(img: Image, p: nat, visited: seq<bool>, r: Rect)
    requires Sampled(img, p) && |visited| == img.width * img.height && (r.w <= 0 || r.h <= 0)
    ensures AllFree(img, p, visited, r)
  {
  }

  /** One more cell below a column. */
  lemma AddRow(img: Image, p: nat, visited: seq<bool>, r: Rect)
    requires Sampled(img, p) && |visited| == img.width * img.height
    requires AllFree(img, p, visited, r) && r.w == 1 && r.h >= 0 && r.x >= 0 && r.y >= 0
    requires Px(p, r.x) >= 0 && Px(p, r.y + r.h) >= 0
    requires IsPixelOptimizable(img, Px(p, r.x), Px(p, r.y + r.h), r.color, visited)
    ensures AllFree(img, p, visited, r.(h := r.h + 1))
  {
    hide IsPixelOptimizable;
    hide Px;
    FreeIsInGrid(img, p, r.color, visited, Pos(r.x, r.y + r.h));
    forall c | InRect(r.(h := r.h + 1), c) ensures CellFree(img, p, r.color, visited, c) {
      if c.y == r.y + r.h {
        assert c == Pos(r.x, r.y + r.h);
      } else {
        assert InRect(r, c);
      }
    }
  }

  /** One more column, and no more rows than it has. */
  lemma AddColumn(img: Image, p: nat, visited: seq<bool>, r: Rect, n: int, rows: int)
    requires Sampled(img, p) && |visited| == img.width * img.height
    requires AllFree(img, p, visited, r)
    requires AllFree(img, p, visited, Rect(r.x + r.w, r.y, 1, n, r.color))
    requires r.w >= 0 && rows <= n && (r.w > 0 ==> rows <= r.h)
    ensures AllFree(img, p, visited, Rect(r.x, r.y, r.w + 1, rows, r.color))
  {
    hide CellFree;
    forall c | InRect(Rect(r.x, r.y, r.w + 1, rows, r.color), c) ensures CellFree(img, p, r.color, visited, c) {
      assert InRect(r, c) || InRect(Rect(r.x + r.w, r.y, 1, n, r.color), c);
    }
  }

  /** Grows a rectangle of one colour from a free cell: column by column, no column higher than the
      ones before. The counters are pixels, `optimizedWidth` and `optimizedHeight` the result. */
  method GrowRect(img: Image, p: nat, pixel: Pixel, ghost start: Pos, posX: int, posY: int, visited: array<bool>)
    returns (optimizedWidth: int, optimizedHeight: int, ghost cols: int, ghost rows: int)
    requires Sampled(img, p) && visited.Length == img.width * img.height
    requires start.x >= 0 && start.y >= 0 && posX == Px(p, start.x) >= 0 && posY == Px(p, start.y) >= 0
    requires IsPixelOptimizable(img, posX, posY, pixel, visited[..])
    ensures cols >= 1 && rows >= 1 && optimizedWidth == Px(p, cols) && optimizedHeight == Px(p, rows)
    ensures Grown(img, p, visited[..], Rect(start.x, start.y, cols, rows, pixel))
  {
    hide IsPixelOptimizable;
    hide AllFree;
    hide CellFree;
    hide BlockedBelow;
    hide Px;
    var w, h := 0, 0;
    optimizedWidth, optimizedHeight := 0, 0;
    cols, rows := 0, 0;
    ghost var vis := visited[..];
    PxNext(p, 0, 0);
    EmptyIsFree(img, p, vis, Rect(start.x, start.y, 0, 0, pixel));
    while IsPixelOptimizable(img, posX + w, posY + h, pixel, visited[..])
      invariant visited[..] == vis
      invariant h == 0 && w == Px(p, cols) >= 0 && optimizedHeight == Px(p, rows) && optimizedWidth == w
      invariant cols >= 0 && rows >= 0 && (cols == 0 <==> rows == 0)
      invariant cols == 0 ==> IsPixelOptimizable(img, posX, posY, pixel, vis)
      invariant AllFree(img, p, vis, Rect(start.x, start.y, cols, rows, pixel))
      invariant cols > 0 ==> BlockedBelow(img, p, vis, Rect(start.x, start.y, cols, rows, pixel))
      decreases img.width - posX - w
    {
      PxNext(p, start.x, cols);
      PxNext(p, cols, 1);
      OptimizableInside(img, posX + w, posY, pixel, vis);
      ghost var n;
      h, n := ColumnHeight(img, p, pixel, Pos(start.x + cols, start.y), posX + w, posY, optimizedHeight, rows, visited);
      PxOrder(p, rows, n);
      PxOrder(p, rows, 0);
      AddColumn(img, p, vis, Rect(start.x, start.y, cols, rows, pixel), n, if rows == 0 || n < rows then n else rows);
      BlockedOn(img, p, vis, Rect(start.x, start.y, cols, rows, pixel), n);
      if optimizedHeight == 0 || h < optimizedHeight {
        optimizedHeight := h;
        rows := n;
      }
      h := 0;
      w := w + p;
      cols := cols + 1;
      optimizedWidth := w;
    }
    PxNext(p, start.x, cols);
    NotOptimizable(img, p, pixel, vis, Pos(start.x + cols, start.y));
  }

  lemma BlockedOn(img: Image, p: nat, visited: seq<bool>, r: Rect, n: int)
    requires Sampled(img, p) && |visited| == img.width * img.height && r.w >= 0
    requires r.w > 0 ==> BlockedBelow(img, p, visited, r)
    requires r.h == 0 || n < r.h ==> !CellFree(img, p, r.color, visited, Pos(r.x + r.w, r.y + n))
    requires r.w == 0 <==> r.h == 0
    ensures BlockedBelow(img, p, visited, r.(w := r.w + 1, h := if r.h == 0 || n < r.h then n else r.h))
  {
    hide CellFree;
  }

  method GetOptimizedQuadSize(img: Image, p: nat, pixel: Pixel, ghost start: Pos, posX: int, posY: int, visited: array<bool>)
    returns (width: int, height: int)
    requires Sampled(img, p) && visited.Length == img.width * img.height
    requires start.x >= 0 && start.y >= 0 && posX == Px(p, start.x) >= 0 && posY == Px(p, start.y) >= 0
    requires IsPixelOptimizable(img, posX, posY, pixel, visited[..])
    modifies visited
    ensures width >= 1 && height >= 1
    ensures Grown(img, p, old(visited[..]), Rect(start.x, start.y, width, height, pixel))
    ensures Marked(img, old(visited[..]), visited[..], posX, posY, Px(p, start.x + width), Px(p, start.y + height))
  {
    hide IsPixelOptimizable;
    hide AllFree;
    hide BlockedBelow;
    hide CellFree;
    hide Px;
    var optimizedWidth, optimizedHeight;
    ghost var cols, rows;
    ghost var vis := visited[..];
    optimizedWidth, optimizedHeight, cols, rows := GrowRect(img, p, pixel, start, posX, posY, visited);
    LastCellInside(img, p, vis, Rect(start.x, start.y, cols, rows, pixel));
    SetVisitedPixels(img, posX, posY, optimizedWidth, optimizedHeight, visited);
    width := optimizedWidth / p;
    height := optimizedHeight / p;
  }

  lemma LastCellInside(img: Image, p: nat, visited: seq<bool>, r: Rect)
    requires Sampled(img, p) && |visited| == img.width * img.height && r.x >= 0 && r.y >= 0
    requires r.w >= 1 && r.h >= 1 && AllFree(img, p, visited, r)
    ensures Px(p, r.x) + Px(p, r.w) == Px(p, r.x + r.w) <= img.width
    ensures Px(p, r.y) + Px(p, r.h) == Px(p, r.y + r.h) <= img.height
    ensures Px(p, r.w) / p == r.w && Px(p, r.h) / p == r.h && Px(p, r.w) >= 0 && Px(p, r.h) >= 0
  {
    hide Px;
    hide IsPixelOptimizable;
    var last := Pos(r.x + r.w - 1, r.y + r.h - 1);
    assert InRect(r, last);
    FreeIsInGrid(img, p, r.color, visited, last);
    PxNext(p, r.x, r.w);
    PxNext(p, r.y, r.h);
    PxDivide(p, r.w);
    PxDivide(p, r.h);
    PxOrder(p, 0, r.w);
    PxOrder(p, 0, r.h);
  }

  // ----- The quads of an image -------------------------------------------------------------------

  /** A rectangle inside the picture whose cells all show its colour. */
  ghost predicate Good(img: Image, p: nat, r: Rect)
    requires Sampled(img, p)
  {
    && r.w >= 1 && r.h >= 1
    && forall c | InRect(r, c) :: InGrid(img, p, c) && Sample(img, p, c) == Some(r.color)
  }

  ghost predicate CoveredBy(rects: seq<Rect>, c: Pos) {
    exists k :: 0 <= k < |rects| && InRect(rects[k], c)
  }

  ghost predicate Disjoint(rects: seq<Rect>) {
    forall k, l, c | 0 <= k < l < |rects| :: !(InRect(rects[k], c) && InRect(rects[l], c))
  }

  /** Cell `c` comes before cell `d` when the picture is scanned row by row. */
  predicate Before(c: Pos, d: Pos) {
    c.y < d.y || (c.y == d.y && c.x < d.x)
  }

  /** What holds when the scan has come to cell `at`. */
  ghost predicate Scanned(img: Image, p: nat, optimize: bool, visited: seq<bool>, rects: seq<Rect>, at: Pos)
    requires Sampled(img, p) && |visited| == img.width * img.height
  {
    && Disjoint(rects)
    && (forall k | 0 <= k < |rects| :: Good(img, p, rects[k]) && Before(Pos(rects[k].x, rects[k].y), at))
    && (forall c | InGrid(img, p, c) && Before(c, at) && Sample(img, p, c).Some? :: CoveredBy(rects, c))
    && (forall c | InGrid(img, p, c) :: Seen(img, p, visited, c) == (optimize && CoveredBy(rects, c)))
    && (!optimize ==> forall k | 0 <= k < |rects| :: rects[k].w == 1 && rects[k].h == 1)
  }

  lemma SampleInside(img: Image, p: nat, c: Pos)
    requires Sampled(img, p) && InGrid(img, p, c)
    ensures 0 <= Px(p, c.x) < img.width && 0 <= Px(p, c.y) < img.height
  {
    PxOrder(p, 0, c.x);
    PxOrder(p, 0, c.y);
    Multiples(img.width, p, c.x);
    Multiples(img.height, p, c.y);
  }

  predicate Seen(img: Image, p: nat, visited: seq<bool>, c: Pos)
    requires Sampled(img, p) && |visited| == img.width * img.height && InGrid(img, p, c)
  {
    SampleInside(img, p, c);
    Visited(img, visited, Px(p, c.x), Px(p, c.y))
  }

  lemma FreeIsGood(img: Image, p: nat, visited: seq<bool>, r: Rect)
    requires Sampled(img, p) && |visited| == img.width * img.height
    requires r.w >= 1 && r.h >= 1 && AllFree(img, p, visited, r)
    ensures Good(img, p, r)
  {
    hide GetPixelClamped;
    hide Px;
    hide Visited;
    forall c | InRect(r, c) ensures InGrid(img, p, c) && Sample(img, p, c) == Some(r.color) {
      assert CellFree(img, p, r.color, visited, c);
    }
  }

  lemma FreeIsUnseen(img: Image, p: nat, visited: seq<bool>, r: Rect, c: Pos)
    requires Sampled(img, p) && |visited| == img.width * img.height
    requires AllFree(img, p, visited, r) && InRect(r, c)
    ensures InGrid(img, p, c) && !Seen(img, p, visited, c)
  {
    hide GetPixelClamped;
    hide Px;
    hide Visited;
    assert CellFree(img, p, r.color, visited, c);
  }

  lemma MarkedIsSeen(img: Image, p: nat, visited: seq<bool>, visited': seq<bool>, r: Rect, c: Pos)
    requires Sampled(img, p) && |visited| == |visited'| == img.width * img.height && InGrid(img, p, c)
    requires Marked(img, visited, visited', Px(p, r.x), Px(p, r.y), Px(p, r.x + r.w), Px(p, r.y + r.h))
    ensures Seen(img, p, visited', c) == (Seen(img, p, visited, c) || InRect(r, c))
  {
    hide Px;
    hide Visited;
    PxOrder(p, r.x, c.x);
    PxOrder(p, r.x + r.w, c.x);
    PxOrder(p, r.y, c.y);
    PxOrder(p, r.y + r.h, c.y);
    SampleInside(img, p, c);
  }

  lemma CoveredByMore(rects: seq<Rect>, r: Rect, c: Pos)
    ensures CoveredBy(rects + [r], c) <==> CoveredBy(rects, c) || InRect(r, c)
  {
    if CoveredBy(rects, c) {
      var k :| 0 <= k < |rects| && InRect(rects[k], c);
      assert (rects + [r])[k] == rects[k];
    }
    if InRect(r, c) {
      assert (rects + [r])[|rects|] == r;
    }
  }

  /** The next rectangle, of free cells that no earlier one has. */
  lemma AddRect(img: Image, p: nat, optimize: bool, visited: seq<bool>, rects: seq<Rect>, at: Pos,
      r: Rect, visited': seq<bool>)
    requires Sampled(img, p) && |visited| == |visited'| == img.width * img.height
    requires Scanned(img, p, optimize, visited, rects, at) && InGrid(img, p, at)
    requires Pos(r.x, r.y) == at && Good(img, p, r) && (!optimize ==> r.w == 1 && r.h == 1)
    requires forall c | InRect(r, c) :: !CoveredBy(rects, c)
    requires forall c | InGrid(img, p, c) :: Seen(img, p, visited', c) == (Seen(img, p, visited, c) || (optimize && InRect(r, c)))
    ensures Scanned(img, p, optimize, visited', rects + [r], Pos(at.x + 1, at.y))
  {
    hide Seen;
    hide Sample;
    hide Sampled;
    forall c ensures CoveredBy(rects + [r], c) <==> CoveredBy(rects, c) || InRect(r, c) {
      CoveredByMore(rects, r, c);
    }
    assert Disjoint(rects + [r]) by {
      forall k, l, c | 0 <= k < l < |rects + [r]| ensures !(InRect((rects + [r])[k], c) && InRect((rects + [r])[l], c)) {
        if l == |rects| {
          assert InRect(rects[k], c) ==> CoveredBy(rects, c);
        }
      }
    }
    assert InRect(r, at);
  }

  lemma SkipCell(img: Image, p: nat, optimize: bool, visited: seq<bool>, rects: seq<Rect>, at: Pos)
    requires Sampled(img, p) && |visited| == img.width * img.height
    requires Scanned(img, p, optimize, visited, rects, at) && InGrid(img, p, at)
    requires Seen(img, p, visited, at) || Sample(img, p, at).None?
    ensures Scanned(img, p, optimize, visited, rects, Pos(at.x + 1, at.y))
  {
    hide Seen;
    hide Sample;
    hide Good;
    hide Disjoint;
    hide CoveredBy;
  }

  lemma NextRow(img: Image, p: nat, optimize: bool, visited: seq<bool>, rects: seq<Rect>, y: int)
    requires Sampled(img, p) && |visited| == img.width * img.height
    requires Scanned(img, p, optimize, visited, rects, Pos(img.width / p, y))
    ensures Scanned(img, p, optimize, visited, rects, Pos(0, y + 1))
  {
    hide Seen;
    hide Sample;
    hide Good;
    hide Disjoint;
    hide CoveredBy;
  }

  /** Without merging, a cell that was not scanned is not covered. */
  lemma SinglesAreBefore(img: Image, p: nat, visited: seq<bool>, rects: seq<Rect>, at: Pos)
    requires Sampled(img, p) && |visited| == img.width * img.height
    requires Scanned(img, p, false, visited, rects, at)
    ensures !CoveredBy(rects, at)
  {
    hide Seen;
    hide Sample;
    forall k | 0 <= k < |rects| ensures !InRect(rects[k], at) {
      assert Before(Pos(rects[k].x, rects[k].y), at);
    }
  }

  function Quads(rects: seq<Rect>, start: Pos, size: int): (r: seq<Quad>)
    ensures |r| == |rects| && forall k | 0 <= k < |rects| :: r[k] == QuadOf(rects[k], start, size)
  {
    seq(|rects|, k requires 0 <= k < |rects| => QuadOf(rects[k], start, size))
  }

  /** Of disjoint rectangles, painting shows at a point the one that has its cell. */
  lemma {:induction false} PaintShowsRect(rects: seq<Rect>, start: Pos, size: int, at: Pos)
    requires size > 0 && Disjoint(rects)
    ensures !CoveredBy(rects, CellAt(start, size, at)) ==> Paint(Quads(rects, start, size), at) == None
    ensures forall k | 0 <= k < |rects| && InRect(rects[k], CellAt(start, size, at)) ::
      Paint(Quads(rects, start, size), at) == Some(rects[k].color)
  {
    hide QuadOf;
    hide Covers;
    hide CellAt;
    if rects != [] {
      var n, c := |rects| - 1, CellAt(start, size, at);
      CoversIsInRect(rects[n], start, size, at);
      assert Quads(rects, start, size)[..n] == Quads(rects[..n], start, size);
      PaintShowsRect(rects[..n], start, size, at);
      if InRect(rects[n], c) {
        forall k | 0 <= k < |rects| && InRect(rects[k], c) ensures k == n {
        }
      } else {
        forall k | 0 <= k < |rects| && InRect(rects[k], c)
          ensures Paint(Quads(rects, start, size), at) == Some(rects[k].color)
        {
          assert InRect(rects[..n][k], c);
        }
        assert rects == rects[..n] + [rects[n]];
        CoveredByMore(rects[..n], rects[n], c);
      }
    }
  }

  /** At every point the quads paint what the image asks for, and no two quads have a point in common. */
  ghost predicate Shows(img: Image, p: nat, quads: seq<Quad>, start: Pos, size: int)
    requires Sampled(img, p) && size > 0
  {
    && (forall at: Pos :: Paint(quads, at) == PictureAt(img, p, start, size, at))
    && (forall k, l, at: Pos | 0 <= k < l < |quads| :: !(Covers(quads[k], at) && Covers(quads[l], at)))
  }

  lemma ScannedAllShows(img: Image, p: nat, optimize: bool, visited: seq<bool>, rects: seq<Rect>, start: Pos, size: int)
    requires Sampled(img, p) && |visited| == img.width * img.height && size > 0
    requires Scanned(img, p, optimize, visited, rects, Pos(0, img.height / p))
    ensures Shows(img, p, Quads(rects, start, size), start, size)
  {
    hide Seen;
    hide Sample;
    hide QuadOf;
    hide Covers;
    hide Paint;
    hide CellAt;
    forall at: Pos ensures Paint(Quads(rects, start, size), at) == PictureAt(img, p, start, size, at) {
      var c := CellAt(start, size, at);
      PaintShowsRect(rects, start, size, at);
      if CoveredBy(rects, c) {
        var k :| 0 <= k < |rects| && InRect(rects[k], c);
        assert Good(img, p, rects[k]);
      }
    }
    forall k, l, at: Pos | 0 <= k < l < |rects|
      ensures !(Covers(Quads(rects, start, size)[k], at) && Covers(Quads(rects, start, size)[l], at))
    {
      CoversIsInRect(rects[k], start, size, at);
      CoversIsInRect(rects[l], start, size, at);
    }
  }

  /** Quads painted later are seen where they are, and the earlier ones elsewhere. */
  lemma {:induction false} PaintOver(below: seq<Quad>, above: seq<Quad>, at: Pos)
    ensures Paint(below + above, at) == if Paint(above, at).Some? then Paint(above, at) else Paint(below, at)
  {
    if above == [] {
      assert below + above == below;
    } else {
      PaintOver(below, above[..|above| - 1], at);
      assert (below + above)[..|below + above| - 1] == below + above[..|above| - 1];
    }
  }

  // ----- Sides that are no multiple of the pixel size --------------------------------------------

  function Place(width: int, x: int, y: int): int {
    x + y * width
  }

  /** The places in memory that the program marks as visited for a rectangle of pixels. */
  function MarkedPlaces(width: int, posX: int, posY: int, w: int, h: int): set<int> {
    set x, y | posX <= x < posX + w && posY <= y < posY + h :: Place(width, x, y)
  }

  function WithMarks(n: nat, marks: set<int>): seq<bool> {
    seq(n, i => i in marks)
  }

  /** An image three pixels wide, sampled every two, in four colours. Merging grows the second square
      over the right edge; its marks come out in the next row and hide the third sample, and those of
      the fourth square lie behind the memory. */
  lemma OddSidesFail(img: Image)
    requires img.width == 3 && img.height == 4
    requires forall x, y | 0 <= x < 3 && 0 <= y < 4 :: GetPixelClamped(img, x, y).a != 0
    requires GetPixelClamped(img, 2, 0) != GetPixelClamped(img, 2, 2)
    ensures
      var pixel := GetPixelClamped(img, 2, 0);
      var before := WithMarks(12, MarkedPlaces(3, 0, 0, 2, 2));
      var after := WithMarks(12, MarkedPlaces(3, 0, 0, 2, 2) + MarkedPlaces(3, 2, 0, 2, 2));
      // The second square is found at (2, 0) and has two by two pixels ...
      && IsPixelOptimizable(img, 2, 0, pixel, before)
      && !IsPixelOptimizable(img, 2, 2, pixel, before) && !IsPixelOptimizable(img, 4, 0, pixel, before)
      // ... and then the visible third sample counts as visited, and so no square shows it,
      && !Visited(img, before, 0, 2) && Visited(img, after, 0, 2) && GetPixelClamped(img, 0, 2).a != 0
      // while the fourth is not visited yet, and its last mark is behind the memory.
      && !Visited(img, after, 2, 2) && |after| == 12 && 12 in MarkedPlaces(3, 2, 2, 2, 2)
  {
    hide GetPixelClamped;
    assert Place(3, 3, 1) == 6 && Place(3, 3, 3) == 12;
    assert Place(3, 3, 1) in MarkedPlaces(3, 2, 0, 2, 2) && Place(3, 3, 3) in MarkedPlaces(3, 2, 2, 2, 2);
    assert Idx(img, 2, 0) == 2 && Idx(img, 0, 2) == 6 && Idx(img, 2, 2) == 8;
  }

  // ----- How many quads there are ----------------------------------------------------------------

  ghost function Corners(rects: seq<Rect>): set<Pos> {
    set k | 0 <= k < |rects| :: Pos(rects[k].x, rects[k].y)
  }

  lemma {:induction false} AsManyCorners(rects: seq<Rect>)
    requires Disjoint(rects) && forall k | 0 <= k < |rects| :: rects[k].w >= 1 && rects[k].h >= 1
    ensures |Corners(rects)| == |rects|
  {
    if rects != [] {
      var n := |rects| - 1;
      var corner := Pos(rects[n].x, rects[n].y);
      AsManyCorners(rects[..n]);
      assert InRect(rects[n], corner);
      assert corner !in Corners(rects[..n]) by {
        forall k | 0 <= k < n ensures Pos(rects[k].x, rects[k].y) != corner {
          assert InRect(rects[k], Pos(rects[k].x, rects[k].y));
        }
      }
      assert Corners(rects) == Corners(rects[..n]) + {corner} by {
        forall c | c in Corners(rects) ensures c in Corners(rects[..n]) + {corner} {
          var k :| 0 <= k < |rects| && c == Pos(rects[k].x, rects[k].y);
          assert k < n ==> rects[..n][k] == rects[k];
        }
      }
    }
  }

  /** The cells that are not transparent. */
  ghost function Visible(img: Image, p: nat): set<Pos>
    requires Sampled(img, p)
  {
    set c | c in Cells(img.width / p, img.height / p) && InGrid(img, p, c) && Sample(img, p, c).Some?
  }

  lemma CornerIsVisible(img: Image, p: nat, r: Rect)
    requires Sampled(img, p) && Good(img, p, r)
    ensures Pos(r.x, r.y) in Visible(img, p)
  {
    hide Sample;
    var c := Pos(r.x, r.y);
    assert InRect(r, c);
    assert c in Cells(img.width / p, img.height / p);
  }

  /** There are no more quads than visible cells, and for squares of one cell just as many. */
  lemma AsManyAsVisible(img: Image, p: nat, optimize: bool, visited: seq<bool>, rects: seq<Rect>)
    requires Sampled(img, p) && |visited| == img.width * img.height
    requires Scanned(img, p, optimize, visited, rects, Pos(0, img.height / p))
    ensures |rects| <= |Visible(img, p)|
    ensures !optimize ==> |rects| == |Visible(img, p)|
  {
    hide Sample;
    hide Seen;
    AsManyCorners(rects);
    hide Disjoint;
    forall c | c in Corners(rects) ensures c in Visible(img, p) {
      var k :| 0 <= k < |rects| && c == Pos(rects[k].x, rects[k].y);
      CornerIsVisible(img, p, rects[k]);
    }
    SubsetSize(Corners(rects), Visible(img, p));
    if !optimize {
      forall c | c in Visible(img, p) ensures c in Corners(rects) {
        assert CoveredBy(rects, c);
        var k :| 0 <= k < |rects| && InRect(rects[k], c);
        assert c == Pos(rects[k].x, rects[k].y);
      }
      assert Corners(rects) == Visible(img, p);
    }
  }

  lemma SubsetSize(a: set<Pos>, b: set<Pos>)
    requires a <= b
    ensures |a| <= |b|
  {
    assert b == a + (b - a);
  }

  /** The memory that the caller reserves for new quads is enough. */
  lemma QuadsFit(img: Image, p: nat, rects: seq<Rect>)
    requires Sampled(img, p) && Disjoint(rects) && forall k | 0 <= k < |rects| :: Good(img, p, rects[k])
    ensures |rects| <= img.width * img.height / p
  {
    hide Sample;
    var nx, ny := img.width / p, img.height / p;
    AsManyCorners(rects);
    forall c | c in Corners(rects) ensures c in Cells(nx, ny) {
      var k :| 0 <= k < |rects| && c == Pos(rects[k].x, rects[k].y);
      assert InRect(rects[k], c);
    }
    CellsBound(nx, ny, Corners(rects));
    AreaInCells(img.width, img.height, p);
  }

  lemma AreaInCells(w: nat, h: nat, p: nat)
    requires p > 0 && w % p == 0 && h % p == 0
    ensures (w / p) * (h / p) <= w * h / p
  {
    var nx, ny := w / p, h / p;
    AreaOfCells(p, nx, ny, w, h);
    PxDivide(p, nx * h);
  }

  lemma AreaOfCells(p: nat, nx: nat, ny: nat, w: nat, h: nat)
    requires p > 0 && w == nx * p && h == ny * p
    ensures w * h == Px(p, nx * h) && nx * ny <= nx * h
  {
    assert (p - 1) * ny >= 0;
    assert nx * (h - ny) >= 0;
  }

  // ----- The program -----------------------------------------------------------------------------

  /** Turns a visited-free, visible cell into a quad; merged with others if `optimize`. */
  method InsertQuad(img: Image, p: nat, start: Pos, size: int, optimize: bool, pixel: Pixel, x: int, y: int,
      visited: array<bool>, ghost at: Pos, ghost rects: seq<Rect>) returns (quad: Quad, ghost r: Rect)
    requires Sampled(img, p) && visited.Length == img.width * img.height && InGrid(img, p, at)
    requires x == Px(p, at.x) && y == Px(p, at.y) && size > 0
    requires Sample(img, p, at) == Some(pixel) && !Seen(img, p, visited[..], at)
    requires Scanned(img, p, optimize, visited[..], rects, at)
    modifies visited
    ensures quad == QuadOf(r, start, size)
    ensures Scanned(img, p, optimize, visited[..], rects + [r], Pos(at.x + 1, at.y))
  {
    hide Scanned;
    hide AllFree;
    hide Px;
    hide Marked;
    hide QuadOf;
    hide CreateNewQuad;
    ghost var vis := visited[..];
    SampleInside(img, p, at);
    var width, height := 1, 1;
    if optimize {
      width, height := GetOptimizedQuadSize(img, p, pixel, at, x, y, visited);
      r := Rect(at.x, at.y, width, height, pixel);
      AddMerged(img, p, vis, rects, at, r, visited[..]);
    } else {
      r := Rect(at.x, at.y, 1, 1, pixel);
      AddSingle(img, p, vis, rects, at, r);
    }
    var posX := Centre(start.x, x, p, width, size);
    var posY := Centre(start.y, y, p, height, size);
    quad := CreateNewQuad(posX, posY, size * width, size * height, pixel);
    QuadExact(r, start, p, size);
  }

  lemma AddMerged(img: Image, p: nat, visited: seq<bool>, rects: seq<Rect>, at: Pos, r: Rect, visited': seq<bool>)
    requires Sampled(img, p) && |visited| == |visited'| == img.width * img.height && InGrid(img, p, at)
    requires Scanned(img, p, true, visited, rects, at) && Pos(r.x, r.y) == at && r.w >= 1 && r.h >= 1
    requires AllFree(img, p, visited, r)
    requires Marked(img, visited, visited', Px(p, r.x), Px(p, r.y), Px(p, r.x + r.w), Px(p, r.y + r.h))
    ensures Scanned(img, p, true, visited', rects + [r], Pos(at.x + 1, at.y))
  {
    hide AllFree;
    hide Marked;
    hide Seen;
    hide Good;
    hide CoveredBy;
    hide Disjoint;
    FreeIsGood(img, p, visited, r);
    forall c | InRect(r, c) ensures !CoveredBy(rects, c) {
      FreeIsUnseen(img, p, visited, r, c);
    }
    forall c | InGrid(img, p, c) ensures Seen(img, p, visited', c) == (Seen(img, p, visited, c) || InRect(r, c)) {
      MarkedIsSeen(img, p, visited, visited', r, c);
    }
    AddRect(img, p, true, visited, rects, at, r, visited');
  }

  lemma AddSingle(img: Image, p: nat, visited: seq<bool>, rects: seq<Rect>, at: Pos, r: Rect)
    requires Sampled(img, p) && |visited| == img.width * img.height && InGrid(img, p, at)
    requires Scanned(img, p, false, visited, rects, at)
    requires r.x == at.x && r.y == at.y && r.w == 1 && r.h == 1 && Sample(img, p, at) == Some(r.color)
    ensures Scanned(img, p, false, visited, rects + [r], Pos(at.x + 1, at.y))
  {
    hide Seen;
    hide Sample;
    hide Scanned;
    hide CoveredBy;
    SinglesAreBefore(img, p, visited, rects, at);
    forall c | InRect(r, c) ensures c == at {
    }
    AddRect(img, p, false, visited, rects, at, r, visited);
  }

  /** Appends the quads of an image. Merged or not, they show the sampled picture over what was
      there; merging never takes more quads than the visible cells that it would take without. */
  method InsertPixelArtQuads(pQuads: seq<Quad>, img: Image, start: Pos, p: nat, size: int, optimize: bool)
    returns (quads: seq<Quad>, count: nat)
    requires Sampled(img, p) && size > 0
    ensures |quads| == |pQuads| + count && quads[..|pQuads|] == pQuads
    ensures Shows(img, p, quads[|pQuads|..], start, size)
    ensures count <= |Visible(img, p)| && (!optimize ==> count == |Visible(img, p)|)
    ensures count <= img.width * img.height / p
  {
    hide Scanned;
    hide Shows;
    hide Quads;
    hide Seen;
    hide Px;
    hide Good;
    hide Disjoint;
    hide Visible;
    quads := pQuads;
    ghost var rects: seq<Rect> := [];
    var visited := new bool[img.width * img.height](_ => false);
    ghost var j := 0;
    var y := 0;
    PxNext(p, 0, 0);
    ScanStart(img, p, optimize, visited[..]);
    while y < img.height
      invariant y == Px(p, j) >= 0 && 0 <= j <= img.height / p
      invariant Scanned(img, p, optimize, visited[..], rects, Pos(0, j))
      invariant quads == pQuads + Quads(rects, start, size)
      decreases img.height - y
    {
      Multiples(img.height, p, j);
      ghost var i := 0;
      var x := 0;
      while x < img.width
        invariant x == Px(p, i) >= 0 && 0 <= i <= img.width / p
        invariant Scanned(img, p, optimize, visited[..], rects, Pos(i, j))
        invariant quads == pQuads + Quads(rects, start, size)
        decreases img.width - x
      {
        Multiples(img.width, p, i);
        ghost var at := Pos(i, j);
        SeenHere(img, p, visited[..], at, x, y);
        var pixel := GetPixelClamped(img, x, y);
        if visited[Idx(img, x, y)] || pixel.a == 0 {
          SkipCell(img, p, optimize, visited[..], rects, at);
        } else {
          var quad;
          ghost var r;
          quad, r := InsertQuad(img, p, start, size, optimize, pixel, x, y, visited, at, rects);
          MoreQuads(rects, r, start, size);
          quads := quads + [quad];
          rects := rects + [r];
        }
        PxNext(p, i, 1);
        x := x + p;
        i := i + 1;
      }
      Multiples(img.width, p, i);
      NextRow(img, p, optimize, visited[..], rects, j);
      PxNext(p, j, 1);
      y := y + p;
      j := j + 1;
    }
    Multiples(img.height, p, j);
    ScannedAllShows(img, p, optimize, visited[..], rects, start, size);
    ScannedFits(img, p, optimize, visited[..], rects, Pos(0, j));
    AsManyAsVisible(img, p, optimize, visited[..], rects);
    count := |quads| - |pQuads|;
    assert quads[|pQuads|..] == Quads(rects, start, size);
  }

  lemma ScanStart(img: Image, p: nat, optimize: bool, visited: seq<bool>)
    requires Sampled(img, p) && |visited| == img.width * img.height
    requires forall i | 0 <= i < |visited| :: !visited[i]
    ensures Scanned(img, p, optimize, visited, [], Pos(0, 0))
  {
    hide Px;
  }

  lemma SeenHere(img: Image, p: nat, visited: seq<bool>, at: Pos, x: int, y: int)
    requires Sampled(img, p) && |visited| == img.width * img.height && InGrid(img, p, at)
    requires x == Px(p, at.x) && y == Px(p, at.y)
    ensures 0 <= x < img.width && 0 <= y < img.height
    ensures Seen(img, p, visited, at) == visited[Idx(img, x, y)]
    ensures Sample(img, p, at) == if GetPixelClamped(img, x, y).a == 0 then None else Some(GetPixelClamped(img, x, y))
  {
    hide Px;
    SampleInside(img, p, at);
  }

  lemma MoreQuads(rects: seq<Rect>, r: Rect, start: Pos, size: int)
    ensures Quads(rects + [r], start, size) == Quads(rects, start, size) + [QuadOf(r, start, size)]
  {
  }

  lemma ScannedFits(img: Image, p: nat, optimize: bool, visited: seq<bool>, rects: seq<Rect>, at: Pos)
    requires Sampled(img, p) && |visited| == img.width * img.height
    requires Scanned(img, p, optimize, visited, rects, at)
    ensures |rects| <= img.width * img.height / p
  {
    hide Seen;
    hide Good;
    hide Disjoint;
    QuadsFit(img, p, rects);
  }

  /** On any quads that were there before, two outputs that show the image paint the same picture
      at every point: that of the image, and what was there before where it is transparent. */
  lemma SamePicture(img: Image, p: nat, below: seq<Quad>, quads: seq<Quad>, quads': seq<Quad>,
      start: Pos, size: int, at: Pos)
    requires Sampled(img, p) && size > 0
    requires Shows(img, p, quads, start, size) && Shows(img, p, quads', start, size)
    ensures Paint(below + quads, at) == Paint(below + quads', at)
    ensures Paint(below + quads, at) ==
      if PictureAt(img, p, start, size, at).Some? then PictureAt(img, p, start, size, at) else Paint(below, at)
  {
    hide Paint, PictureAt;
    PaintOver(below, quads, at);
    PaintOver(below, quads', at);
  }

  /** The picture in terms of the bytes of the image: at a point the quads paint the bytes of the pixel
      that starts the point's square; nothing if its opacity is 0, and nothing outside the image. */
  lemma PictureByBytes(img: Image, p: nat, quads: seq<Quad>, start: Pos, size: int, at: Pos)
    requires Sampled(img, p) && size > 0 && Shows(img, p, quads, start, size)
    ensures
      var x, y := p * ((at.x - 1024 * start.x) / (1024 * size)), p * ((at.y - 1024 * start.y) / (1024 * size));
      if 0 <= x < img.width && 0 <= y < img.height then
        var o := PixelOffset(x, y, img.width, img.height, img.bpp);
        && o == img.bpp * (y * img.width + x)
        && Paint(quads, at) ==
           if img.bpp == 4 && img.data[o + 3] == 0 then None
           else Some(Pixel(img.data[o], img.data[o + 1], img.data[o + 2], if img.bpp == 4 then img.data[o + 3] else 255))
      else Paint(quads, at) == None
  {
    var c := CellAt(start, size, at);
    CellInside(img, p, c);
    if InGrid(img, p, c) {
      PixelBytes(img, Px(p, c.x), Px(p, c.y));
    }
    hide Paint, GetPixelClamped, PixelOffset;
  }

  lemma CellInside(img: Image, p: nat, c: Pos)
    requires Sampled(img, p)
    ensures InGrid(img, p, c) <==> 0 <= p * c.x < img.width && 0 <= p * c.y < img.height
    ensures Px(p, c.x) == p * c.x && Px(p, c.y) == p * c.y
  {
    PxOrder(p, 0, c.x);
    PxOrder(p, 0, c.y);
    if c.x >= 0 {
      Multiples(img.width, p, c.x);
    }
    if c.y >= 0 {
      Multiples(img.height, p, c.y);
    }
  }
}
