/** The area of a combined render and each tile's window in its pixmap
    (`Rectangle`, and the area and offset arithmetic of `doRender`). */
module RenderArea {
  const INT_MAX := 0x7fff_ffff
  const INT_MIN := -0x8000_0000

  datatype Rectangle = Rectangle(x1: int, y1: int, x2: int, y2: int)
  {
    /** Position and extent; an extent that would overflow an int is dropped. */
    static function At(x: int, y: int, width: int, height: int): Rectangle {
      Rectangle(x, y, if x + width <= INT_MAX then x + width else x, if y + height <= INT_MAX then y + height else y)
    }

    function Extend(r: Rectangle): Rectangle {
      Rectangle(if r.x1 < x1 then r.x1 else x1, if r.y1 < y1 then r.y1 else y1,
                if r.x2 > x2 then r.x2 else x2, if r.y2 > y2 then r.y2 else y2)
    }

    function Width(): int {
      if x2 - x1 > INT_MIN then x2 - x1 else INT_MIN
    }

    function Height(): int {
      if y2 - y1 > INT_MIN then y2 - y1 else INT_MIN
    }

    predicate Contains(o: Rectangle) {
      x2 >= o.x2 && y2 >= o.y2 && y1 <= o.y1 && x1 <= o.x1
    }
  }

  datatype TilePos = TilePos(x: int, y: int)

  /** No coordinate leaves the range of an int. */
  predicate InRange(tiles: seq<TilePos>, tw: int, th: int) {
    forall i :: 0 <= i < |tiles| ==>
      INT_MIN <= tiles[i].x && tiles[i].x + tw <= INT_MAX && INT_MIN <= tiles[i].y && tiles[i].y + th <= INT_MAX
  }

  function TileRect(t: TilePos, tw: int, th: int): Rectangle {
    Rectangle.At(t.x, t.y, tw, th)
  }

  /** The smallest rectangle around the first n tiles: it contains each of them
      and each side touches one. */
  ghost predicate Bounds(area: Rectangle, tiles: seq<TilePos>, tw: int, th: int) {
    && (forall i :: 0 <= i < |tiles| ==> area.Contains(TileRect(tiles[i], tw, th)))
    && Touched(tiles, t => TileRect(t, tw, th).x1, area.x1)
    && Touched(tiles, t => TileRect(t, tw, th).y1, area.y1)
    && Touched(tiles, t => TileRect(t, tw, th).x2, area.x2)
    && Touched(tiles, t => TileRect(t, tw, th).y2, area.y2)
  }

  ghost predicate Touched(tiles: seq<TilePos>, side: TilePos -> int, v: int) {
    exists i :: 0 <= i < |tiles| && side(tiles[i]) == v
  }

  lemma TouchedGrows(tiles: seq<TilePos>, n: nat, side: TilePos -> int, v: int)
    requires n < |tiles| && (Touched(tiles[..n], side, v) || side(tiles[n]) == v)
    ensures Touched(tiles[..n + 1], side, v)
  {
    if Touched(tiles[..n], side, v) {
      var i :| 0 <= i < n && side(tiles[..n][i]) == v;
      assert tiles[..n + 1][i] == tiles[..n][i];
    } else {
      assert tiles[..n + 1][n] == tiles[n];
    }
  }

  method ComputeArea(tiles: seq<TilePos>, tw: int, th: int) returns (area: Rectangle, recs: seq<Rectangle>)
    requires |tiles| > 0
    ensures Bounds(area, tiles, tw, th)
    ensures |recs| == |tiles| && forall i :: 0 <= i < |tiles| ==> recs[i] == TileRect(tiles[i], tw, th)
  {
    area, recs := Rectangle(INT_MAX, INT_MAX, INT_MIN, INT_MIN), [];
    for n := 0 to |tiles|
      invariant n > 0 ==> Bounds(area, tiles[..n], tw, th)
      invariant |recs| == n && forall i :: 0 <= i < n ==> recs[i] == TileRect(tiles[i], tw, th)
    {
      var rectangle := Rectangle.At(tiles[n].x, tiles[n].y, tw, th);
      ghost var before := area;
      if recs == [] {
        area := rectangle;
      } else {
        area := area.Extend(rectangle);
        BoundsGrow(before, tiles, n, tw, th);
      }
      assert tiles[..n + 1][n] == tiles[n];
      recs := recs + [rectangle];
    }
    assert tiles[..|tiles|] == tiles;
  }

  lemma BoundsGrow(area: Rectangle, tiles: seq<TilePos>, n: nat, tw: int, th: int)
    requires n < |tiles| && Bounds(area, tiles[..n], tw, th)
    ensures Bounds(area.Extend(TileRect(tiles[n], tw, th)), tiles[..n + 1], tw, th)
  {
    hide Touched, TileRect;
    var a := area.Extend(TileRect(tiles[n], tw, th));
    TouchedGrows(tiles, n, t => TileRect(t, tw, th).x1, a.x1);
    TouchedGrows(tiles, n, t => TileRect(t, tw, th).y1, a.y1);
    TouchedGrows(tiles, n, t => TileRect(t, tw, th).x2, a.x2);
    TouchedGrows(tiles, n, t => TileRect(t, tw, th).y2, a.y2);
    var u := tiles[..n + 1];
    forall i | 0 <= i <= n
      ensures a.Contains(TileRect(u[i], tw, th))
    {
      if i < n {
        assert u[i] == tiles[..n][i];
      }
    }
  }

  // ----- Windows -----

  /** A tile's place on one axis, in pixels: whole tiles from the area's edge. */
  function Position(left: int, areaLeft: int, tile: int): int
    requires tile > 0
  {
    (left - areaLeft) / tile
  }

  function TilesBy(areaWidth: int, tile: int): int
    requires tile > 0
  {
    areaWidth / tile
  }

  lemma {:induction false} Scaled(a: int, b: int, p: nat)
    requires a <= b
    ensures a * p <= b * p
    decreases b - a
  {
    if a < b {
      Scaled(a, b - 1, p);
      assert b * p == (b - 1) * p + p;
    }
  }

  lemma {:induction false} DivMonotone(a: int, b: int, t: int)
    requires t > 0 && a <= b
    ensures a / t <= b / t
  {
    var q, r := a / t, b / t;
    assert a == q * t + a % t && b == r * t + b % t;
    if q > r {
      Scaled(r + 1, q, t);
    }
  }

  lemma DivNext(a: int, t: int)
    requires t > 0
    ensures (a + t) / t >= a / t + 1
  {
    var q, r := a / t, (a + t) / t;
    assert a == q * t + a % t && a + t == r * t + (a + t) % t;
    if r < q + 1 {
      Scaled(r, q, t);
    }
  }

  /** On one axis: the window of a tile inside the area is inside the pixmap,
      aligned to the grid or not. */
  lemma WindowInside(left: int, areaLeft: int, areaRight: int, tile: int, pixels: nat)
    requires tile > 0 && areaLeft <= left && left + tile <= areaRight
    ensures var offset := Position(left, areaLeft, tile) * pixels;
      0 <= offset && offset + pixels <= TilesBy(areaRight - areaLeft, tile) * pixels
  {
    var pos, cols := Position(left, areaLeft, tile), TilesBy(areaRight - areaLeft, tile);
    DivMonotone(0, left - areaLeft, tile);
    DivNext(left - areaLeft, tile);
    DivMonotone(left - areaLeft + tile, areaRight - areaLeft, tile);
    Scaled(0, pos, pixels);
    Scaled(pos + 1, cols, pixels);
    assert (pos + 1) * pixels == pos * pixels + pixels;
  }

  /** Every tile of a render has its window inside the pixmap. */
  lemma WindowsInside(tiles: seq<TilePos>, tw: int, th: int, area: Rectangle, pw: nat, ph: nat, i: nat)
    requires tw > 0 && th > 0 && InRange(tiles, tw, th) && Bounds(area, tiles, tw, th) && i < |tiles|
    requires area.x2 - area.x1 <= INT_MAX && area.y2 - area.y1 <= INT_MAX
    ensures var x, y := Position(tiles[i].x, area.x1, tw) * pw, Position(tiles[i].y, area.y1, th) * ph;
      && 0 <= x && x + pw <= TilesBy(area.Width(), tw) * pw
      && 0 <= y && y + ph <= TilesBy(area.Height(), th) * ph
  {
    assert area.Contains(TileRect(tiles[i], tw, th));
    WindowInside(tiles[i].x, area.x1, area.x2, tw, pw);
    WindowInside(tiles[i].y, area.y1, area.y2, th, ph);
  }

  predicate Overlap(a: int, b: int, len: nat) {
    a < b + len && b < a + len
  }

  /** On one axis, windows overlap exactly when the tiles share a position. */
  lemma SameCell(p: int, q: int, pixels: nat)
    requires pixels > 0
    ensures Overlap(p * pixels, q * pixels, pixels) <==> p == q
  {
    if p < q {
      Scaled(p + 1, q, pixels);
      assert (p + 1) * pixels == p * pixels + pixels;
    } else if q < p {
      Scaled(q + 1, p, pixels);
      assert (q + 1) * pixels == q * pixels + pixels;
    }
  }

  /** Grid-aligned tiles at different places get different positions. */
  lemma AlignedApart(a: int, b: int, areaLeft: int, tile: int)
    requires tile > 0 && a != b
    requires (a - areaLeft) % tile == 0 && (b - areaLeft) % tile == 0
    ensures Position(a, areaLeft, tile) != Position(b, areaLeft, tile)
  {
    assert a - areaLeft == Position(a, areaLeft, tile) * tile;
    assert b - areaLeft == Position(b, areaLeft, tile) * tile;
  }

  ghost predicate Share(s: TilePos, t: TilePos, area: Rectangle, tw: int, th: int, pw: nat, ph: nat)
    requires tw > 0 && th > 0
  {
    && Overlap(Position(s.x, area.x1, tw) * pw, Position(t.x, area.x1, tw) * pw, pw)
    && Overlap(Position(s.y, area.y1, th) * ph, Position(t.y, area.y1, th) * ph, ph)
  }

  /** Two tiles share pixels exactly when they fall into the same grid cell; on
      the grid that means they are the same tile. */
  lemma WindowsShareIff(s: TilePos, t: TilePos, area: Rectangle, tw: int, th: int, pw: nat, ph: nat)
    requires tw > 0 && th > 0 && pw > 0 && ph > 0
    ensures Share(s, t, area, tw, th, pw, ph) <==>
      && Position(s.x, area.x1, tw) == Position(t.x, area.x1, tw)
      && Position(s.y, area.y1, th) == Position(t.y, area.y1, th)
    ensures (s.x - area.x1) % tw == (t.x - area.x1) % tw == (s.y - area.y1) % th == (t.y - area.y1) % th == 0 ==>
      (Share(s, t, area, tw, th, pw, ph) <==> s == t)
  {
    SameCell(Position(s.x, area.x1, tw), Position(t.x, area.x1, tw), pw);
    SameCell(Position(s.y, area.y1, th), Position(t.y, area.y1, th), ph);
    if (s.x - area.x1) % tw == (t.x - area.x1) % tw == (s.y - area.y1) % th == (t.y - area.y1) % th == 0 {
      if s.x != t.x {
        AlignedApart(s.x, t.x, area.x1, tw);
      }
      if s.y != t.y {
        AlignedApart(s.y, t.y, area.y1, th);
      }
    }
  }

  /** Off the grid, different tiles can be given the same pixels. */
  lemma OffGridTilesCollide()
    ensures var tiles := [TilePos(0, 0), TilePos(1, 0)];
      var area := Rectangle(0, 0, 3, 2);
      Bounds(area, tiles, 2, 2) && tiles[0] != tiles[1] && Share(tiles[0], tiles[1], area, 2, 2, 256, 256)
  {
    var tiles := [TilePos(0, 0), TilePos(1, 0)];
    assert TileRect(tiles[0], 2, 2) == Rectangle(0, 0, 2, 2);
    assert TileRect(tiles[1], 2, 2) == Rectangle(1, 0, 3, 2);
  }

  // ----- To scale -----

  /** A rectangle within the range of an int has the extent it was made with; an
      extent beyond it is dropped, axis by axis. */
  lemma RectangleExtent(x: int, y: int, width: int, height: int)
    requires width > 0 && height > 0
    ensures var r := Rectangle.At(x, y, width, height);
      && r.x1 == x && r.y1 == y
      && r.Width() == (if x + width <= 0x7fff_ffff then width else 0)
      && r.Height() == (if y + height <= 0x7fff_ffff then height else 0)
  {
  }

  /** Multiplied out, a division by the tile leaves the part that is no whole tile. */
  lemma WholeTiles(a: int, tile: int)
    requires tile > 0
    ensures a / tile * tile <= a < a / tile * tile + tile
    ensures a / tile * tile == a <==> a % tile == 0
  {
    assert a == a / tile * tile + a % tile;
  }

  lemma ScaledSame(a: int, b: int, p: nat)
    requires p > 0
    ensures a * p == b * p <==> a == b
  {
    if a < b {
      Scaled(a + 1, b, p);
      assert (a + 1) * p == a * p + p;
    } else if b < a {
      Scaled(b + 1, a, p);
      assert (b + 1) * p == b * p + p;
    }
  }

  /** On one axis, `tile` units are `pixels` pixels: the window of a tile is the tile
      itself at that scale exactly when it lies on the grid of the area's edge. */
  lemma WindowToScaleIff(left: int, areaLeft: int, tile: int, pixels: nat)
    requires tile > 0 && pixels > 0
    ensures Position(left, areaLeft, tile) * pixels * tile == (left - areaLeft) * pixels
      <==> (left - areaLeft) % tile == 0
  {
    var pos := Position(left, areaLeft, tile);
    WholeTiles(left - areaLeft, tile);
    assert pos * pixels * tile == pos * tile * pixels;
    ScaledSame(pos * tile, left - areaLeft, pixels);
  }

  /** The pixmap is the area at that scale exactly when the area is whole tiles wide. */
  lemma AreaToScaleIff(width: int, tile: int, pixels: nat)
    requires tile > 0 && pixels > 0
    ensures TilesBy(width, tile) * pixels * tile == width * pixels <==> width % tile == 0
  {
    var n := TilesBy(width, tile);
    WholeTiles(width, tile);
    assert n * pixels * tile == n * tile * pixels;
    ScaledSame(n * tile, width, pixels);
  }

  predicate OnOneGrid(s: TilePos, t: TilePos, tw: int, th: int)
    requires tw > 0 && th > 0
  {
    (s.x - t.x) % tw == 0 && (s.y - t.y) % th == 0
  }

  ghost predicate OnGrid(tiles: seq<TilePos>, tw: int, th: int)
    requires tw > 0 && th > 0
  {
    forall i, j :: 0 <= i < |tiles| && 0 <= j < |tiles| ==> OnOneGrid(tiles[i], tiles[j], tw, th)
  }

  lemma OneTileMore(a: int, tile: int)
    requires tile > 0 && a % tile == 0
    ensures (a + tile) % tile == 0
  {
    var q, r := a / tile, (a + tile) / tile;
    WholeTiles(a, tile);
    WholeTiles(a + tile, tile);
    DivNext(a, tile);
    Scaled(q + 1, r, tile);
    assert (q + 1) * tile == q * tile + tile;
  }

  /** One axis, with the area from the left tile's edge to the right edge of the last. */
  lemma AxisToScale(left: int, first: int, last: int, tile: int, pixels: nat)
    requires tile > 0 && pixels > 0 && (last - first) % tile == 0 && (left - first) % tile == 0
    ensures TilesBy(last + tile - first, tile) * pixels * tile == (last + tile - first) * pixels
    ensures Position(left, first, tile) * pixels * tile == (left - first) * pixels
  {
    OneTileMore(last - first, tile);
    assert last - first + tile == last + tile - first;
    AreaToScaleIff(last + tile - first, tile, pixels);
    WindowToScaleIff(left, first, tile, pixels);
  }

  /** The outermost tiles. */
  lemma Outermost(tiles: seq<TilePos>, tw: int, th: int, area: Rectangle) returns (a: nat, b: nat, c: nat, d: nat)
    requires tw > 0 && th > 0 && InRange(tiles, tw, th) && Bounds(area, tiles, tw, th)
    ensures a < |tiles| && b < |tiles| && c < |tiles| && d < |tiles|
    ensures area == Rectangle(tiles[a].x, tiles[c].y, tiles[b].x + tw, tiles[d].y + th)
    ensures area.Width() == tiles[b].x + tw - tiles[a].x && area.Height() == tiles[d].y + th - tiles[c].y
  {
    a :| 0 <= a < |tiles| && TileRect(tiles[a], tw, th).x1 == area.x1;
    b :| 0 <= b < |tiles| && TileRect(tiles[b], tw, th).x2 == area.x2;
    c :| 0 <= c < |tiles| && TileRect(tiles[c], tw, th).y1 == area.y1;
    d :| 0 <= d < |tiles| && TileRect(tiles[d], tw, th).y2 == area.y2;
    assert area.Contains(TileRect(tiles[a], tw, th)) && area.Contains(TileRect(tiles[c], tw, th));
  }

  /** For tiles on a grid the pixmap is the whole area at the scale of a tile, and
      every window is its tile at that scale. */
  lemma RenderedToScale(tiles: seq<TilePos>, tw: int, th: int, area: Rectangle, pw: nat, ph: nat, i: nat)
    requires tw > 0 && th > 0 && pw > 0 && ph > 0 && InRange(tiles, tw, th) && OnGrid(tiles, tw, th)
    requires Bounds(area, tiles, tw, th) && i < |tiles|
    ensures TilesBy(area.Width(), tw) * pw * tw == area.Width() * pw
    ensures TilesBy(area.Height(), th) * ph * th == area.Height() * ph
    ensures Position(tiles[i].x, area.x1, tw) * pw * tw == (tiles[i].x - area.x1) * pw
    ensures Position(tiles[i].y, area.y1, th) * ph * th == (tiles[i].y - area.y1) * ph
  {
    var a, b, c, d := Outermost(tiles, tw, th, area);
    GridAxes(tiles, tw, th, i, a, b, c, d);
    hide *;
    AxisToScale(tiles[i].x, tiles[a].x, tiles[b].x, tw, pw);
    AxisToScale(tiles[i].y, tiles[c].y, tiles[d].y, th, ph);
  }

  lemma GridAxes(tiles: seq<TilePos>, tw: int, th: int, i: nat, a: nat, b: nat, c: nat, d: nat)
    requires tw > 0 && th > 0 && OnGrid(tiles, tw, th)
    requires i < |tiles| && a < |tiles| && b < |tiles| && c < |tiles| && d < |tiles|
    ensures (tiles[b].x - tiles[a].x) % tw == 0 && (tiles[i].x - tiles[a].x) % tw == 0
    ensures (tiles[d].y - tiles[c].y) % th == 0 && (tiles[i].y - tiles[c].y) % th == 0
  {
    assert OnOneGrid(tiles[b], tiles[a], tw, th) && OnOneGrid(tiles[i], tiles[a], tw, th);
    assert OnOneGrid(tiles[d], tiles[c], tw, th) && OnOneGrid(tiles[i], tiles[c], tw, th);
  }
}
