/** The `drivers::framebuffer` driver: a byte buffer described by its pixel
    size, row stride, pixel format and an inclusive-corner rectangle, with
    single-pixel and rectangle fills. The buffer is absent until `init`. */
module DriverFramebuffer {
  import opened Common
  import opened Geometry
  import opened Colors
  import opened PixelWrites

  datatype Framebuffer = Framebuffer(bpp: nat, stride: nat, format: PixelFormat, rect: Rect, buf: Option<seq<u8>>)

  /** `Framebuffer::empty`: no buffer, and the one-pixel rectangle of
      `Rect::new(0, 0, 1, 1)`. */
  const EMPTY: Framebuffer := Framebuffer(0, 0, Rgb, Rect(Point(0, 0), Point(0, 0)), None)

  lemma EmptyIsOnePixel()
    ensures NewInclusive(0, 0, 1, 1) == Ok(EMPTY.rect)
    ensures Width(EMPTY.rect) == 0 && Height(EMPTY.rect) == 0 && EMPTY.buf.None?
  {
  }

  /** `Framebuffer::width` / `Framebuffer::height`: those of the rectangle. */
  function FbWidth(fb: Framebuffer): nat
    requires Ordered(fb.rect)
  {
    Width(fb.rect)
  }

  function FbHeight(fb: Framebuffer): nat
    requires Ordered(fb.rect)
  {
    Height(fb.rect)
  }

  /** `fill_pixel`: nothing happens without a buffer or outside the
      rectangle; otherwise exactly the `bpp` bytes at the point's offset
      receive the colour's bytes, and a pixel past the end of the buffer
      panics. */
  function FillPixel(fb: Framebuffer, p: Point, c: Color): (r: Outcome<Framebuffer>)
    ensures fb.buf.None? || !Contains(fb.rect, p) ==> r == Ok(fb)
    ensures r.Ok? ==> r.value.(buf := fb.buf) == fb && r.value.buf.Some? == fb.buf.Some?
    ensures fb.buf.Some? && Contains(fb.rect, p) ==>
              (r.Ok? <==> Offset(fb.stride, fb.bpp, p.x, p.y) + fb.bpp <= |fb.buf.value| && PixelBytes(c, fb.format, fb.bpp).Ok?)
    ensures r.Ok? && fb.buf.Some? && Contains(fb.rect, p) ==>
              var o := Offset(fb.stride, fb.bpp, p.x, p.y);
              && |r.value.buf.value| == |fb.buf.value|
              && (forall j :: 0 <= j < fb.bpp ==> r.value.buf.value[o + j] == PixelBytes(c, fb.format, fb.bpp).value[j])
              && (forall k :: 0 <= k < |fb.buf.value| && !(o <= k < o + fb.bpp) ==> r.value.buf.value[k] == fb.buf.value[k])
  {
    if fb.buf.None? || !Contains(fb.rect, p) then Ok(fb)
    else
      var o := Offset(fb.stride, fb.bpp, p.x, p.y);
      if o + fb.bpp > |fb.buf.value| then Panic(SLICE_END_OUT_OF_RANGE)
      else
        match PixelBytes(c, fb.format, fb.bpp)
        case Panic(m) => Panic(m)
        case Ok(px) => Ok(fb.(buf := Some(Splice(fb.buf.value, o, px))))
  }

  /** One row of `cols` points starting at (x0, y). */
  function RowPoints(x0: nat, y: nat, cols: nat): (ps: seq<Point>)
    ensures |ps| == cols && forall c :: 0 <= c < cols ==> ps[c] == Point(x0 + c, y)
  {
    seq(cols, c requires 0 <= c < cols => Point(x0 + c, y))
  }

  /** The points `fill_region` visits, in its loop order: `rows` rows of
      `cols` points from (x0, y0). */
  function RegionPoints(x0: nat, y0: nat, cols: nat, rows: nat): seq<Point>
  {
    if rows == 0 then [] else RegionPoints(x0, y0, cols, rows - 1) + RowPoints(x0, y0 + rows - 1, cols)
  }

  /** The loops visit `rows * cols` points, and they are exactly the points
      of the `cols` by `rows` box at (x0, y0). */
  lemma {:induction false} RegionPointsBox(x0: nat, y0: nat, cols: nat, rows: nat)
    ensures |RegionPoints(x0, y0, cols, rows)| == rows * cols
    ensures forall p :: p in RegionPoints(x0, y0, cols, rows) <==> x0 <= p.x < x0 + cols && y0 <= p.y < y0 + rows
  {
    if rows > 0 {
      RegionPointsBox(x0, y0, cols, rows - 1);
      var line := RowPoints(x0, y0 + rows - 1, cols);
      assert (rows - 1) * cols + cols == rows * cols;
      forall p: Point | x0 <= p.x < x0 + cols && p.y == y0 + rows - 1
        ensures p in line
      {
        assert line[p.x - x0] == p;
      }
    }
  }

  /** Stores of the same bytes to each of the points. */
  function Stores(stride: nat, points: seq<Point>, px: seq<u8>): (ws: seq<PixelWrite>)
    ensures |ws| == |points| && Sized(ws, |px|)
    ensures forall i :: 0 <= i < |ws| ==> ws[i] == PixelWrite(PixelIndex(stride, points[i].x, points[i].y), px)
  {
    seq(|points|, i requires 0 <= i < |points| => PixelWrite(PixelIndex(stride, points[i].x, points[i].y), px))
  }

  /** `fill_region`: nothing happens without a buffer or when the region
      misses the framebuffer's rectangle. Otherwise the colour's bytes go to
      `height()` rows of `width()` points of the intersection from its min
      corner, so with the inclusive corner its last row and column are left
      alone. */
  function FillRegion(fb: Framebuffer, rect: Rect, c: Color): (r: Outcome<Framebuffer>)
    ensures fb.buf.None? || Intersection(fb.rect, rect).None? ==> r == Ok(fb)
    ensures r.Ok? ==> r.value.(buf := fb.buf) == fb && r.value.buf.Some? == fb.buf.Some?
    ensures r.Ok? && fb.buf.Some? ==> |r.value.buf.value| == |fb.buf.value|
  {
    if fb.buf.None? then Ok(fb)
    else
      match Intersection(fb.rect, rect)
      case None => Ok(fb)
      case Some(i) =>
        match PixelBytes(c, fb.format, fb.bpp)
        case Panic(m) => Panic(m)
        case Ok(px) =>
          match StoreAll(fb.buf.value, Stores(fb.stride, RegionPoints(i.min.x, i.min.y, Width(i), Height(i)), px), fb.bpp)
          case Panic(m) => Panic(m)
          case Ok(b) => Ok(fb.(buf := Some(b)))
  }

  /** After `fill_region`, a byte whose pixel is one of the visited points
      holds its place in the colour's bytes, and every other byte is as
      before. */
  lemma FillRegionPaints(fb: Framebuffer, rect: Rect, c: Color, k: nat)
    requires fb.buf.Some? && Intersection(fb.rect, rect).Some? && fb.bpp > 0 && k < |fb.buf.value|
    requires FillRegion(fb, rect, c).Ok?
    ensures var i := Intersection(fb.rect, rect).value;
            var px := PixelBytes(c, fb.format, fb.bpp).value;
            var points := RegionPoints(i.min.x, i.min.y, Width(i), Height(i));
            FillRegion(fb, rect, c).value.buf.value[k]
              == if Quot(k, fb.bpp) in Pixels(Stores(fb.stride, points, px)) then px[Rem(k, fb.bpp)] else fb.buf.value[k]
  {
    var i := Intersection(fb.rect, rect).value;
    var px := PixelBytes(c, fb.format, fb.bpp).value;
    var ws := Stores(fb.stride, RegionPoints(i.min.x, i.min.y, Width(i), Height(i)), px);
    UniformStores(fb.buf.value, ws, fb.bpp, px, k);
    StoreAllByte(fb.buf.value, ws, fb.bpp, k);
  }

  /** Where a point of the box sits among the visited points. */
  lemma RegionPointAt(x0: nat, y0: nat, cols: nat, rows: nat, p: Point) returns (n: nat)
    requires x0 <= p.x < x0 + cols && y0 <= p.y < y0 + rows
    ensures n < |RegionPoints(x0, y0, cols, rows)| && RegionPoints(x0, y0, cols, rows)[n] == p
  {
    RegionPointsBox(x0, y0, cols, rows);
    n :| 0 <= n < |RegionPoints(x0, y0, cols, rows)| && RegionPoints(x0, y0, cols, rows)[n] == p;
  }

  /** A successful `fill_region` over an intersection is the stores of the
      colour's bytes to the visited points. */
  lemma FillRegionStores(fb: Framebuffer, rect: Rect, c: Color)
    requires fb.buf.Some? && Intersection(fb.rect, rect).Some? && FillRegion(fb, rect, c).Ok?
    ensures var i := Intersection(fb.rect, rect).value;
            var px := PixelBytes(c, fb.format, fb.bpp).value;
            var ws := Stores(fb.stride, RegionPoints(i.min.x, i.min.y, Width(i), Height(i)), px);
            && PixelBytes(c, fb.format, fb.bpp).Ok? && |px| == fb.bpp
            && Fits(ws, fb.bpp, |fb.buf.value|)
            && FillRegion(fb, rect, c).value.buf == Some(StoreAll(fb.buf.value, ws, fb.bpp).value)
  {
  }

  /** A point of the region (short of its last row and column) gets the
      colour's bytes: byte `j` of its pixel, at `k`, is byte `j` of them. */
  lemma FillRegionPaintsPoint(fb: Framebuffer, rect: Rect, c: Color, p: Point, j: nat) returns (k: nat)
    requires fb.buf.Some? && Intersection(fb.rect, rect).Some? && FillRegion(fb, rect, c).Ok?
    requires var i := Intersection(fb.rect, rect).value;
             i.min.x <= p.x < i.max.x && i.min.y <= p.y < i.max.y
    requires j < fb.bpp
    ensures k == Offset(fb.stride, fb.bpp, p.x, p.y) + j && k < |fb.buf.value|
    ensures FillRegion(fb, rect, c).value.buf.value[k] == PixelBytes(c, fb.format, fb.bpp).value[j]
  {
    var i := Intersection(fb.rect, rect).value;
    var px := PixelBytes(c, fb.format, fb.bpp).value;
    var points := RegionPoints(i.min.x, i.min.y, Width(i), Height(i));
    var ws := Stores(fb.stride, points, px);
    FillRegionStores(fb, rect, c);
    var n := RegionPointAt(i.min.x, i.min.y, Width(i), Height(i), p);
    assert ws[n].pixel == PixelIndex(fb.stride, p.x, p.y);
    k := FitsAt(ws, fb.bpp, |fb.buf.value|, n, j);
    OffsetOfPixel(fb.stride, fb.bpp, p.x, p.y, ws[n].pixel);
    QuotRemUnique(k, fb.bpp, ws[n].pixel, j);
    assert Pixels(ws)[n] == Quot(k, fb.bpp);
    FillRegionPaints(fb, rect, c, k);
  }

  /** The slice copies of `fill_region`'s loops, one point after another:
      the same bytes at each point's offset, stopping at the first point
      whose bytes run past the end. */
  function Visit(buf: seq<u8>, stride: nat, points: seq<Point>, px: seq<u8>): (r: Outcome<seq<u8>>)
    ensures r.Panic? ==> r.message == SLICE_END_OUT_OF_RANGE
    decreases |points|
  {
    if points == [] then Ok(buf)
    else
      var p := points[|points| - 1];
      match Visit(buf, stride, points[..|points| - 1], px)
      case Panic(m) => Panic(m)
      case Ok(b) =>
        var o := Offset(stride, |px|, p.x, p.y);
        if o + |px| > |b| then Panic(SLICE_END_OUT_OF_RANGE) else Ok(Splice(b, o, px))
  }

  /** Visiting the points is storing the colour's bytes at each of them. */
  lemma {:induction false} VisitIsStoreAll(buf: seq<u8>, stride: nat, points: seq<Point>, px: seq<u8>)
    ensures Visit(buf, stride, points, px) == StoreAll(buf, Stores(stride, points, px), |px|)
    decreases |points|
  {
    if points != [] {
      var init := points[..|points| - 1];
      VisitIsStoreAll(buf, stride, init, px);
      var ws := Stores(stride, points, px);
      assert ws[..|ws| - 1] == Stores(stride, init, px);
    }
  }

  /** Once a prefix of the points panics, so do all of them. */
  lemma {:induction false} VisitPanicPersists(buf: seq<u8>, stride: nat, prefix: seq<Point>, all: seq<Point>, px: seq<u8>)
    requires prefix <= all && Visit(buf, stride, prefix, px).Panic?
    ensures Visit(buf, stride, all, px) == Panic(SLICE_END_OUT_OF_RANGE)
    decreases |all|
  {
    if all != prefix {
      assert prefix <= all[..|all| - 1];
      VisitPanicPersists(buf, stride, prefix, all[..|all| - 1], px);
    }
  }

  /** Visiting one more point copies the bytes there, if they fit. */
  lemma VisitStep(buf: seq<u8>, stride: nat, points: seq<Point>, p: Point, px: seq<u8>, b: seq<u8>, more: seq<Point>, o: nat)
    requires Visit(buf, stride, points, px) == Ok(b) && more == points + [p]
    requires o == Offset(stride, |px|, p.x, p.y)
    ensures Visit(buf, stride, more, px) == if o + |px| > |b| then Panic(SLICE_END_OUT_OF_RANGE) else Ok(Splice(b, o, px))
  {
    assert more[..|points|] == points;
  }

  /** A row grows by its next point. */
  lemma RowPointsSnoc(x0: nat, y: nat, n: nat)
    ensures RowPoints(x0, y, n + 1) == RowPoints(x0, y, n) + [Point(x0 + n, y)]
  {
  }

  /** One turn of the inner loop: the pixel `x` places right of the row's
      start begins `x * bpp` bytes after it, and copying there visits the
      row's next point. */
  lemma RowStep(buf0: seq<u8>, stride: nat, px: seq<u8>, done: seq<Point>, x0: nat, y: nat, offset: nat, x: nat, b: seq<u8>)
    requires offset == Offset(stride, |px|, x0, y)
    requires Visit(buf0, stride, done + RowPoints(x0, y, x), px) == Ok(b)
    ensures var start := offset + Times(x, |px|);
            Visit(buf0, stride, done + RowPoints(x0, y, x + 1), px)
              == if start + |px| > |b| then Panic(SLICE_END_OUT_OF_RANGE) else Ok(Splice(b, start, px))
  {
    var points := done + RowPoints(x0, y, x);
    var more := done + RowPoints(x0, y, x + 1);
    var p := Point(x0 + x, y);
    RowPointsSnoc(x0, y, x);
    assert more == points + [p];
    OffsetColumns(stride, |px|, x0, x, y);
    VisitStep(buf0, stride, points, p, px, b, more, offset + Times(x, |px|));
  }

  /** A pixel that does not fit ends the whole row in a panic. */
  lemma RowPanics(buf0: seq<u8>, stride: nat, px: seq<u8>, done: seq<Point>, x0: nat, y: nat, x: nat, cols: nat)
    requires x < cols && Visit(buf0, stride, done + RowPoints(x0, y, x + 1), px).Panic?
    ensures Visit(buf0, stride, done + RowPoints(x0, y, cols), px) == Panic(SLICE_END_OUT_OF_RANGE)
  {
    assert RowPoints(x0, y, x + 1) == RowPoints(x0, y, cols)[..x + 1];
    assert done + RowPoints(x0, y, x + 1) == (done + RowPoints(x0, y, cols))[..|done| + x + 1];
    VisitPanicPersists(buf0, stride, done + RowPoints(x0, y, x + 1), done + RowPoints(x0, y, cols), px);
  }

  /** The inner loop of `fill_region`: one row of `cols` pixels from
      (x0, y), whose first byte is at `offset`, copied one after another. */
  method FillRow(ghost buf0: seq<u8>, ghost stride: nat, px: seq<u8>, ghost done: seq<Point>, ghost x0: nat, ghost y: nat, cols: nat, offset: nat, buffer: seq<u8>)
    returns (r: Outcome<seq<u8>>)
    requires offset == Offset(stride, |px|, x0, y)
    requires Visit(buf0, stride, done, px) == Ok(buffer)
    ensures r == Visit(buf0, stride, done + RowPoints(x0, y, cols), px)
  {
    var b := buffer;
    var x := 0;
    assert done + RowPoints(x0, y, 0) == done;
    while x < cols
      invariant 0 <= x <= cols
      invariant Visit(buf0, stride, done + RowPoints(x0, y, x), px) == Ok(b)
    {
      var pxStart := offset + Times(x, |px|);
      RowStep(buf0, stride, px, done, x0, y, offset, x, b);
      if pxStart + |px| > |b| {
        RowPanics(buf0, stride, px, done, x0, y, x, cols);
        return Panic(SLICE_END_OUT_OF_RANGE);
      }
      b := Splice(b, pxStart, px);
      x := x + 1;
    }
    return Ok(b);
  }

  /** One turn of the outer loop: the row just filled extends the visited
      points, and a row that panics makes the whole fill panic. */
  lemma RowsStep(buf0: seq<u8>, stride: nat, px: seq<u8>, x0: nat, y0: nat, cols: nat, rows: nat, row: nat, y: nat, next: Outcome<seq<u8>>)
    requires row < rows && y == y0 + row
    requires next == Visit(buf0, stride, RegionPoints(x0, y0, cols, row) + RowPoints(x0, y, cols), px)
    ensures next == Visit(buf0, stride, RegionPoints(x0, y0, cols, row + 1), px)
    ensures next.Panic? ==> StoreAll(buf0, Stores(stride, RegionPoints(x0, y0, cols, rows), px), |px|) == Panic(SLICE_END_OUT_OF_RANGE)
  {
    assert RegionPoints(x0, y0, cols, row + 1) == RegionPoints(x0, y0, cols, row) + RowPoints(x0, y, cols);
    if next.Panic? {
      RegionPrefix(x0, y0, cols, row + 1, rows);
      VisitPanicPersists(buf0, stride, RegionPoints(x0, y0, cols, row + 1), RegionPoints(x0, y0, cols, rows), px);
      VisitIsStoreAll(buf0, stride, RegionPoints(x0, y0, cols, rows), px);
    }
  }

  /** `fill_region` over a non-empty intersection with a supported colour
      is the outcome of its stores. */
  lemma FillRegionOfStores(fb: Framebuffer, rect: Rect, c: Color)
    requires fb.buf.Some? && Intersection(fb.rect, rect).Some? && PixelBytes(c, fb.format, fb.bpp).Ok?
    ensures var i := Intersection(fb.rect, rect).value;
            var px := PixelBytes(c, fb.format, fb.bpp).value;
            var r := StoreAll(fb.buf.value, Stores(fb.stride, RegionPoints(i.min.x, i.min.y, Width(i), Height(i)), px), |px|);
            FillRegion(fb, rect, c) == if r.Panic? then Panic(SLICE_END_OUT_OF_RANGE) else Ok(fb.(buf := Some(r.value)))
  {
  }

  /** `fill_region` as the source writes it: nested loops over rows and
      columns, a running row offset advanced by `stride * bpp`, and a slice
      copy per pixel. */
  method FillRegionLoop(fb: Framebuffer, rect: Rect, c: Color) returns (r: Outcome<Framebuffer>)
    ensures r == FillRegion(fb, rect, c)
  {
    if fb.buf.None? {
      return Ok(fb);
    }
    var inter := Intersection(fb.rect, rect);
    if inter.None? {
      return Ok(fb);
    }
    var i := inter.value;
    var bytes := PixelBytes(c, fb.format, fb.bpp);
    if bytes.Panic? {
      return Panic(bytes.message);
    }
    var px := bytes.value;
    var buf0 := fb.buf.value;
    var cols, rows := Width(i), Height(i);
    FillRegionOfStores(fb, rect, c);
    var offset := Offset(fb.stride, fb.bpp, i.min.x, i.min.y);
    var buffer := buf0;
    var row := 0;
    ghost var y := i.min.y;
    while row < rows
      invariant 0 <= row <= rows && y == i.min.y + row
      invariant offset == Offset(fb.stride, |px|, i.min.x, y)
      invariant Visit(buf0, fb.stride, RegionPoints(i.min.x, i.min.y, cols, row), px) == Ok(buffer)
    {
      var next := FillRow(buf0, fb.stride, px, RegionPoints(i.min.x, i.min.y, cols, row), i.min.x, y, cols, offset, buffer);
      RowsStep(buf0, fb.stride, px, i.min.x, i.min.y, cols, rows, row, y, next);
      if next.Panic? {
        return Panic(SLICE_END_OUT_OF_RANGE);
      }
      buffer := next.value;
      OffsetRows(fb.stride, |px|, i.min.x, y);
      offset := offset + Times(fb.stride, fb.bpp);
      row, y := row + 1, y + 1;
    }
    VisitIsStoreAll(buf0, fb.stride, RegionPoints(i.min.x, i.min.y, cols, rows), px);
    return Ok(fb.(buf := Some(buffer)));
  }

  lemma {:induction false} RegionPrefix(x0: nat, y0: nat, cols: nat, rows: nat, more: nat)
    requires rows <= more
    ensures RegionPoints(x0, y0, cols, rows) <= RegionPoints(x0, y0, cols, more)
    decreases more - rows
  {
    if rows < more {
      RegionPrefix(x0, y0, cols, rows, more - 1);
    }
  }

  /** `fill`: `fill_region` over the framebuffer's own rectangle. */
  function Fill(fb: Framebuffer, c: Color): (r: Outcome<Framebuffer>)
    ensures fb.buf.None? ==> r == Ok(fb)
    ensures r.Ok? ==> r.value.(buf := fb.buf) == fb && r.value.buf.Some? == fb.buf.Some?
    ensures r.Ok? && fb.buf.Some? ==> |r.value.buf.value| == |fb.buf.value|
  {
    FillRegion(fb, fb.rect, c)
  }

  /** A completed `fill` paints every pixel of the screen except those of
      its last column and last row. */
  lemma FillPaintsInterior(fb: Framebuffer, c: Color, p: Point, j: nat) returns (k: nat)
    requires Ordered(fb.rect) && fb.buf.Some? && Fill(fb, c).Ok?
    requires fb.rect.min.x <= p.x < fb.rect.max.x && fb.rect.min.y <= p.y < fb.rect.max.y
    requires j < fb.bpp
    ensures k == Offset(fb.stride, fb.bpp, p.x, p.y) + j && k < |fb.buf.value|
    ensures Fill(fb, c).value.buf.value[k] == PixelBytes(c, fb.format, fb.bpp).value[j]
  {
    IntersectionSelf(fb.rect);
    k := FillRegionPaintsPoint(fb, fb.rect, c, p, j);
  }

  /** `init`: the rectangle `Rect::new(0, 0, width, height)` (which panics on
      an empty screen), the pixel geometry of `info`, the new buffer, and a
      fill with black. */
  function Init(fb: Framebuffer, info: FrameBufferInfo, buf: seq<u8>): (r: Outcome<Framebuffer>)
    ensures info.width == 0 || info.height == 0 ==> r.Panic?
    ensures r.Ok? ==> Ordered(r.value.rect) && r.value.rect.min == Point(0, 0)
    ensures r.Ok? ==> FbWidth(r.value) == info.width - 1 && FbHeight(r.value) == info.height - 1
    ensures r.Ok? ==> r.value.bpp == info.bytesPerPixel && r.value.stride == info.stride && r.value.format == info.pixelFormat
    ensures r.Ok? ==> r.value.buf.Some? && |r.value.buf.value| == |buf|
  {
    match NewInclusive(0, 0, info.width, info.height)
    case Panic(m) => Panic(m)
    case Ok(rect) =>
      var blank := Framebuffer(info.bytesPerPixel, info.stride, info.pixelFormat, rect, Some(buf));
      Fill(blank, BLACK)
  }

  /** A column right of the box, inside the row, is never visited. */
  lemma ColumnNotVisited(stride: nat, x0: nat, y0: nat, cols: nat, rows: nat, px: seq<u8>, x: nat, y: nat)
    requires x0 + cols <= x < stride
    ensures PixelIndex(stride, x, y) !in Pixels(Stores(stride, RegionPoints(x0, y0, cols, rows), px))
  {
    var points := RegionPoints(x0, y0, cols, rows);
    var ws := Stores(stride, points, px);
    if PixelIndex(stride, x, y) in Pixels(ws) {
      var m :| 0 <= m < |ws| && Pixels(ws)[m] == PixelIndex(stride, x, y);
      RegionPointsBox(x0, y0, cols, rows);
      assert points[m] in points;
      PixelIndexInjective(stride, x, y, points[m].x, points[m].y);
      assert false;
    }
  }

  /** With rows at least as long as the intersection reaches
      (`stride > max.x`), no byte of the intersection's last column is
      written. */
  lemma FillRegionSkipsLastColumn(fb: Framebuffer, rect: Rect, c: Color, y: nat, j: nat, k: nat)
    requires fb.buf.Some? && Intersection(fb.rect, rect).Some? && FillRegion(fb, rect, c).Ok?
    requires fb.stride > Intersection(fb.rect, rect).value.max.x && j < fb.bpp
    requires k == Offset(fb.stride, fb.bpp, Intersection(fb.rect, rect).value.max.x, y) + j && k < |fb.buf.value|
    ensures FillRegion(fb, rect, c).value.buf.value[k] == fb.buf.value[k]
  {
    var i := Intersection(fb.rect, rect).value;
    var px := PixelBytes(c, fb.format, fb.bpp).value;
    var n := PixelIndex(fb.stride, i.max.x, y);
    OffsetOfPixel(fb.stride, fb.bpp, i.max.x, y, n);
    QuotRemUnique(k, fb.bpp, n, j);
    ColumnNotVisited(fb.stride, i.min.x, i.min.y, Width(i), Height(i), px, i.max.x, y);
    FillRegionPaints(fb, rect, c, k);
  }

  lemma IntersectionSelf(r: Rect)
    requires Ordered(r)
    ensures Intersection(r, r) == Some(r)
  {
  }

  /** The framebuffer `init` makes before its black fill. */
  function Blank(info: FrameBufferInfo, buf: seq<u8>): Framebuffer
    requires info.width > 0 && info.height > 0
  {
    Framebuffer(info.bytesPerPixel, info.stride, info.pixelFormat, NewInclusive(0, 0, info.width, info.height).value, Some(buf))
  }

  /** When `init` succeeds: the screen is not empty, the pixel format and
      depth have black bytes, and every slice the black fill copies (one per
      pixel of the width() by height() box at the origin) ends inside the
      buffer. */
  lemma InitOkIff(fb: Framebuffer, info: FrameBufferInfo, buf: seq<u8>)
    ensures Init(fb, info, buf).Ok? <==>
              && info.width > 0 && info.height > 0
              && !info.pixelFormat.Unknown? && info.bytesPerPixel <= 4
              && Fits(Stores(info.stride, RegionPoints(0, 0, info.width - 1, info.height - 1),
                             PixelBytes(BLACK, info.pixelFormat, info.bytesPerPixel).value),
                      info.bytesPerPixel, |buf|)
  {
    if info.width > 0 && info.height > 0 {
      var blank := Blank(info, buf);
      IntersectionSelf(blank.rect);
      assert Init(fb, info, buf) == FillRegion(blank, blank.rect, BLACK);
      if PixelBytes(BLACK, info.pixelFormat, info.bytesPerPixel).Ok? {
        FillRegionOfStores(blank, blank.rect, BLACK);
      }
    }
  }

  /** The black fill of `init` stops one short: every byte of a pixel left
      of the last column and above the last row becomes zero, but on a
      screen whose rows are at least as long as it is wide, the pixels of
      the last column keep their old bytes. */
  lemma InitBlanksAllButLastColumn(fb: Framebuffer, info: FrameBufferInfo, buf: seq<u8>, p: Point, j: nat) returns (k: nat)
    requires Init(fb, info, buf).Ok? && j < info.bytesPerPixel
    requires p.x < info.width - 1 && p.y < info.height - 1
    ensures k == Offset(info.stride, info.bytesPerPixel, p.x, p.y) + j && k < |buf|
    ensures Init(fb, info, buf).value.buf.value[k] == 0
  {
    var blank := Blank(info, buf);
    assert Init(fb, info, buf) == FillRegion(blank, blank.rect, BLACK);
    IntersectionSelf(blank.rect);
    k := FillRegionPaintsPoint(blank, blank.rect, BLACK, p, j);
    BlackPixelBytes(info.pixelFormat, info.bytesPerPixel, j);
  }

  lemma InitSkipsLastColumn(fb: Framebuffer, info: FrameBufferInfo, buf: seq<u8>, y: nat, j: nat, k: nat)
    requires Init(fb, info, buf).Ok?
    requires info.stride >= info.width && j < info.bytesPerPixel
    requires k == Offset(info.stride, info.bytesPerPixel, info.width - 1, y) + j && k < |buf|
    ensures Init(fb, info, buf).value.buf.value[k] == buf[k]
  {
    var blank := Blank(info, buf);
    assert Init(fb, info, buf) == FillRegion(blank, blank.rect, BLACK);
    IntersectionSelf(blank.rect);
    FillRegionSkipsLastColumn(blank, blank.rect, BLACK, y, j, k);
  }
}
