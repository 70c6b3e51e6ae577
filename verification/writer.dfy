/** The text console of `kernel::framebuffer`: a cursor counted in character
    cells over a linear byte buffer, and for each character a cell of
    pixels drawn one at a time in a foreground or background colour from a
    one-bit-per-pixel font. The font module (`fonts`) is not part of this
    model, so its cell size and its bitmap are inputs. */
module TextWriter {
  import opened Common
  import Colors
  import opened RgbColors
  import opened PixelWrites
  import Geometry

  /** `CHARACTER_WIDTH`, `CHARACTER_HEIGHT` and `FONT_BASIC`: one byte per
      glyph row, its most significant bit for the pixel right of the gap
      column. */
  datatype Font = Font(width: nat, height: nat, glyphs: seq<seq<bv8>>)

  /** The cell size divides the screen size in `new`; Rust rejects a
      division by a zero constant, so both are at least one. */
  predicate CellSized(font: Font) {
    font.width >= 1 && font.height >= 1
  }

  /** The writer: screen, buffer, colours, the screen size in cells, and
      the cursor in cells. */
  datatype Writer = Writer(info: Colors.FrameBufferInfo, buf: seq<u8>, bg: RgbColor, fg: RgbColor,
                           maxX: nat, maxY: nat, x: nat, y: nat)

  /** `Writer::new`: white on black at the top-left cell, and as many whole
      cells as fit across and down. */
  function New(info: Colors.FrameBufferInfo, buf: seq<u8>, font: Font): (w: Writer)
    requires CellSized(font)
    ensures w.info == info && w.buf == buf && w.bg == BLACK && w.fg == WHITE && w.x == 0 && w.y == 0
    ensures w.maxX * font.width <= info.width < w.maxX * font.width + font.width
    ensures w.maxY * font.height <= info.height < w.maxY * font.height + font.height
  {
    Writer(info, buf, BLACK, WHITE, info.width / font.width, info.height / font.height, 0, 0)
  }

  /** Whole cells fill at most the screen. `new` sets this up and nothing
      changes the sizes afterwards. */
  predicate Grid(w: Writer, font: Font) {
    w.maxX * font.width <= w.info.width && w.maxY * font.height <= w.info.height
  }

  /** `contains`: inclusive on the right and bottom edges, so the column
      `width` and the row `height` count as inside. */
  predicate Contains(w: Writer, x: nat, y: nat) {
    x <= w.info.width && y <= w.info.height
  }

  /** `clean`: a zeroed buffer and the cursor at the origin. */
  function Clean(w: Writer): (r: Writer)
    ensures r == w.(buf := r.buf, x := 0, y := 0) && |r.buf| == |w.buf|
    ensures forall k :: 0 <= k < |r.buf| ==> r.buf[k] == 0
  {
    w.(buf := Zeroes(|w.buf|), x := 0, y := 0)
  }

  /** Cleaning twice is cleaning once. */
  lemma CleanIdempotent(w: Writer)
    ensures Clean(Clean(w)) == Clean(w)
  {
  }

  const PIXEL_FORMAT_UNIMPLEMENTED: string := "pixel format unimplemented"

  /** The bytes `draw` copies into one pixel: the first `bpp` bytes of
      `rgb_bytes` or `bgr_bytes`, or `bpp` copies of the grey on a grey
      screen. More than four bytes of RGB or BGR overrun the four-byte
      array, and any other format is `unimplemented!`. */
  function DrawBytes(c: RgbColor, format: Colors.PixelFormat, bpp: nat): (r: Outcome<seq<u8>>)
    ensures r.Ok? <==> format.U8? || ((format.Rgb? || format.Bgr?) && bpp <= 4)
    ensures r.Ok? ==> |r.value| == bpp
    ensures r.Ok? && format.U8? ==> forall i :: 0 <= i < bpp ==> r.value[i] == Gray(c)
    ensures r.Ok? && format.Rgb? ==> r.value <= RgbBytes(c)
    ensures r.Ok? && format.Bgr? ==> r.value <= BgrBytes(c)
    ensures r.Panic? && !format.Unknown? ==> r.message == SLICE_END_OUT_OF_RANGE
  {
    match format
    case Rgb => if bpp > 4 then Panic(SLICE_END_OUT_OF_RANGE) else Ok(RgbBytes(c)[..bpp])
    case Bgr => if bpp > 4 then Panic(SLICE_END_OUT_OF_RANGE) else Ok(BgrBytes(c)[..bpp])
    case U8 => Ok(seq(bpp, _ => Gray(c)))
    case Unknown(_, _, _) => Panic(PIXEL_FORMAT_UNIMPLEMENTED)
  }

  /** On RGB and BGR screens the writer's pixels are the drivers' pixels of
      the same colour with a zero channel byte. On a grey screen of four
      bytes per pixel they differ in the last byte: the writer fills it
      with the grey, the drivers write zero there. */
  lemma DrawBytesAgainstDrivers(value: u32, bpp: nat)
    requires bpp <= 4
    ensures var argb := Colors.New(value % 0x100_0000);
            && DrawBytes(RgbColors.New(value), Colors.Rgb, bpp) == Colors.PixelBytes(argb, Colors.Rgb, bpp)
            && DrawBytes(RgbColors.New(value), Colors.Bgr, bpp) == Colors.PixelBytes(argb, Colors.Bgr, bpp)
            && (bpp == 4 && Gray(RgbColors.New(value)) != 0 ==>
                  DrawBytes(RgbColors.New(value), Colors.U8, bpp).value[3] != Colors.PixelBytes(argb, Colors.U8, bpp).value[3])
  {
    AgreesWithArgb(value);
  }

  /** `draw`: nothing outside `contains`; otherwise the slice of the
      pixel's bytes is taken, which panics past the end of the buffer, and
      the colour's bytes are copied into it. */
  function Draw(w: Writer, x: nat, y: nat, c: RgbColor): (r: Outcome<Writer>)
    ensures !Contains(w, x, y) ==> r == Ok(w)
    ensures Contains(w, x, y) ==>
              var bpp := w.info.bytesPerPixel;
              && (r.Ok? <==> Offset(w.info.stride, bpp, x, y) + bpp <= |w.buf| && DrawBytes(c, w.info.pixelFormat, bpp).Ok?)
              && (Offset(w.info.stride, bpp, x, y) + bpp > |w.buf| ==> r == Panic(SLICE_END_OUT_OF_RANGE))
    ensures r.Ok? ==> r.value == w.(buf := r.value.buf) && |r.value.buf| == |w.buf|
    ensures r.Ok? && Contains(w, x, y) ==>
              var bpp := w.info.bytesPerPixel;
              var start := Offset(w.info.stride, bpp, x, y);
              forall k :: 0 <= k < |w.buf| ==>
                r.value.buf[k] == if start <= k < start + bpp then DrawBytes(c, w.info.pixelFormat, bpp).value[k - start] else w.buf[k]
  {
    if !Contains(w, x, y) then Ok(w)
    else
      var bpp := w.info.bytesPerPixel;
      var start := Offset(w.info.stride, bpp, x, y);
      if start + bpp > |w.buf| then Panic(SLICE_END_OUT_OF_RANGE)
      else
        match DrawBytes(c, w.info.pixelFormat, bpp)
        case Panic(m) => Panic(m)
        case Ok(bytes) =>
          var buf := Splice(w.buf, start, bytes);
          assert forall k :: start <= k < start + bpp ==> buf[k] == buf[start + (k - start)];
          Ok(w.(buf := buf))
  }

  /** Drawing the same pixel twice in the same colour is drawing it once. */
  lemma DrawIdempotent(w: Writer, x: nat, y: nat, c: RgbColor)
    requires Draw(w, x, y, c).Ok?
    ensures Draw(Draw(w, x, y, c).value, x, y, c) == Draw(w, x, y, c)
  {
    var once := Draw(w, x, y, c).value;
    var twice := Draw(once, x, y, c).value;
    assert twice.buf == once.buf;
  }

  /** Because `contains` admits the column `width`, on a screen whose rows
      are exactly as long as it is wide a pixel drawn there lands on the
      first pixel of the next row. */
  lemma DrawPastRightEdge(w: Writer, y: nat)
    requires w.info.stride == w.info.width && y <= w.info.height
    ensures Contains(w, w.info.width, y)
    ensures Offset(w.info.stride, w.info.bytesPerPixel, w.info.width, y)
              == Offset(w.info.stride, w.info.bytesPerPixel, 0, y + 1)
  {
    NextRow(w.info.stride, 0, y);
  }

  /** Because `contains` admits the corner (`width`, `height`), drawing
      there on a buffer that holds exactly the screen's rows panics
      instead of doing nothing. */
  lemma DrawAtCornerPanics(w: Writer, c: RgbColor)
    requires w.info.bytesPerPixel > 0
    requires |w.buf| == w.info.height * w.info.stride * w.info.bytesPerPixel
    ensures Draw(w, w.info.width, w.info.height, c) == Panic(SLICE_END_OUT_OF_RANGE)
  {
    var stride, bpp := w.info.stride, w.info.bytesPerPixel;
    var rows := Times(w.info.height, stride);
    TimesMonotone(rows, PixelIndex(stride, w.info.width, w.info.height), bpp);
    TimesIsProduct(w.info.height, stride);
    TimesIsProduct(rows, bpp);
  }

  const SHIFT_RIGHT_OVERFLOW: string := "attempt to shift right with overflow"

  /** The single-bit masks of a byte: `MASKS[j]` is bit `j`, counting
      from the least significant. */
  const MASKS: seq<bv8> := [0x01, 0x02, 0x04, 0x08, 0x10, 0x20, 0x40, 0x80]

  /** Bit `j` of a byte, counting from the least significant. */
  predicate Bit(b: bv8, j: nat)
    requires j < 8
  {
    b & MASKS[j] != 0
  }

  /** The mask `get_bit` builds, `0x80 >> i`, is bit `7 - i`. */
  lemma ShiftedMask(i: nat)
    requires i < 8
    ensures (0x80 as bv8) >> i == MASKS[7 - i]
    ensures forall j :: 0 <= j < 8 && j != 7 - i ==> MASKS[7 - i] & MASKS[j] == 0
  {
  }

  /** `get_bit`: `char_font & (0x80 >> i)`, which `ShiftedMask` shows is
      the byte masked to bit `7 - i`, non-zero exactly when that bit is
      set. Shifting a `u8` by eight or more overflows. */
  function GetBit(b: bv8, i: nat): (r: Outcome<bv8>)
    ensures r.Ok? <==> i < 8
    ensures r.Ok? ==> (r.value != 0 <==> Bit(b, 7 - i))
    ensures r.Ok? ==> r.value & MASKS[7 - i] == r.value
    ensures r.Panic? ==> r.message == SHIFT_RIGHT_OVERFLOW
  {
    if i >= 8 then Panic(SHIFT_RIGHT_OVERFLOW)
    else Ok(b & MASKS[7 - i])
  }

  /** The colour of the pixel `ox` columns right of and `oy` rows below a
      cell's corner: the first column is the gap between characters and
      always background; column `ox` past it shows bit `ox - 1` of the
      glyph's row, most significant first. The row is looked up before
      the bit is taken. */
  function CellColor(w: Writer, font: Font, ch: char, ox: nat, oy: nat): (r: Outcome<RgbColor>)
    ensures ox == 0 ==> r == Ok(w.bg)
    ensures ox >= 1 ==>
              (r.Ok? <==> ch as int < |font.glyphs| && oy < |font.glyphs[ch as int]| && ox <= 8)
    ensures r.Ok? && ox >= 1 ==> (r.value == if Bit(font.glyphs[ch as int][oy], 8 - ox) then w.fg else w.bg)
  {
    if ox >= 1 then
      var index := ox - 1;
      if ch as int >= |font.glyphs| || oy >= |font.glyphs[ch as int]| then Panic(INDEX_OUT_OF_BOUNDS)
      else
        match GetBit(font.glyphs[ch as int][oy], index)
        case Panic(m) => Panic(m)
        case Ok(bit) => Ok(if bit != 0 then w.fg else w.bg)
    else Ok(w.bg)
  }

  /** A glyph row of `0b1000_0001` lights the first and the last of the
      eight font columns, cell columns 1 and 8. */
  lemma CellColorExample(w: Writer, font: Font, ch: char, oy: nat)
    requires ch as int < |font.glyphs| && oy < |font.glyphs[ch as int]|
    requires font.glyphs[ch as int][oy] == 0x81 && w.fg != w.bg
    ensures forall ox :: 1 <= ox <= 8 ==> (CellColor(w, font, ch, ox, oy) == Ok(w.fg) <==> ox == 1 || ox == 8)
  {
    forall ox | 1 <= ox <= 8
      ensures CellColor(w, font, ch, ox, oy) == Ok(w.fg) <==> ox == 1 || ox == 8
    {
      assert Bit(0x81, 8 - ox) <==> ox == 1 || ox == 8;
    }
  }

  /** A pixel of a cell, as offsets from the cell's top-left corner. */
  datatype Cell = Cell(ox: nat, oy: nat)

  /** The first `n` pixels of row `oy` of a cell, left to right. */
  function Row(n: nat, oy: nat): (cs: seq<Cell>)
    ensures |cs| == n && forall i :: 0 <= i < n ==> cs[i] == Cell(i, oy)
  {
    seq(n, i requires 0 <= i => Cell(i, oy))
  }

  /** The first `rows` rows of `cols` pixels, top to bottom. */
  function Cells(cols: nat, rows: nat): (cs: seq<Cell>)
    ensures |cs| == Times(rows, cols)
    ensures forall i :: 0 <= i < |cs| ==> cs[i].ox < cols && cs[i].oy < rows
  {
    if rows == 0 then [] else Cells(cols, rows - 1) + Row(cols, rows - 1)
  }

  /** Every pixel of the box is among the cells. */
  lemma {:induction false} CellsCover(cols: nat, rows: nat, a: nat, b: nat) returns (i: nat)
    requires a < cols && b < rows
    ensures i < |Cells(cols, rows)| && Cells(cols, rows)[i] == Cell(a, b)
    decreases rows
  {
    if b == rows - 1 {
      i := |Cells(cols, rows - 1)| + a;
    } else {
      i := CellsCover(cols, rows - 1, a, b);
    }
  }

  /** How many offsets `print_char` visits along one axis from `start`: a
      whole cell, or up to the screen's edge when the cell starts on the
      screen and the edge comes first. */
  function Span(start: nat, limit: nat, size: nat): (n: nat)
    ensures n <= size
    ensures start < limit ==> start + n <= limit
  {
    if start < limit then Geometry.Min(size, limit - start) else size
  }

  /** One pixel of `print_char`: drawn in its colour when `contains`
      admits it, skipped otherwise. */
  function PrintCell(w: Writer, font: Font, ch: char, sx: nat, sy: nat, cell: Cell): (r: Outcome<Writer>)
    ensures r.Ok? ==> r.value == w.(buf := r.value.buf) && |r.value.buf| == |w.buf|
  {
    if !Contains(w, sx + cell.ox, sy + cell.oy) then Ok(w)
    else
      match CellColor(w, font, ch, cell.ox, cell.oy)
      case Panic(m) => Panic(m)
      case Ok(c) => Draw(w, sx + cell.ox, sy + cell.oy, c)
  }

  /** The pixels of a cell drawn in order; a panic stops the drawing. */
  function PrintCells(w: Writer, font: Font, ch: char, sx: nat, sy: nat, cells: seq<Cell>): (r: Outcome<Writer>)
    ensures r.Ok? ==> r.value == w.(buf := r.value.buf) && |r.value.buf| == |w.buf|
    decreases |cells|
  {
    if cells == [] then Ok(w)
    else
      match PrintCells(w, font, ch, sx, sy, cells[..|cells| - 1])
      case Panic(m) => Panic(m)
      case Ok(v) => PrintCell(v, font, ch, sx, sy, cells[|cells| - 1])
  }

  /** The first pixel of cell `n` along an axis of cells `size` pixels
      long: `column * font.width` or `line * font.height`, */
  function Corner(n: nat, size: nat): nat {
    n * size
  }

  /** `print_char(ch, column, line)` as a plain description: the pixels of
      the cell at (`column`, `line`), row by row, each row stopping at the
      cell's width or at the screen's right edge and the rows stopping at
      the cell's height or at the bottom edge. */
  function PrintGlyph(w: Writer, font: Font, ch: char, column: nat, line: nat): (r: Outcome<Writer>)
    ensures r.Ok? ==> r.value == w.(buf := r.value.buf) && |r.value.buf| == |w.buf|
  {
    var sx, sy := Corner(column, font.width), Corner(line, font.height);
    PrintCells(w, font, ch, sx, sy, Cells(Span(sx, w.info.width, font.width), Span(sy, w.info.height, font.height)))
  }

  /** Once a panic occurs, drawing more pixels keeps it. */
  lemma {:induction false} PanicPersists(w: Writer, font: Font, ch: char, sx: nat, sy: nat, done: seq<Cell>, rest: seq<Cell>)
    requires PrintCells(w, font, ch, sx, sy, done).Panic?
    ensures PrintCells(w, font, ch, sx, sy, done + rest) == PrintCells(w, font, ch, sx, sy, done)
    decreases |rest|
  {
    if rest != [] {
      var init := rest[..|rest| - 1];
      assert (done + rest)[..|done + rest| - 1] == done + init;
      PanicPersists(w, font, ch, sx, sy, done, init);
    } else {
      assert done + rest == done;
    }
  }

  /** Drawing one more pixel after `done`. */
  lemma PrintSnoc(w: Writer, font: Font, ch: char, sx: nat, sy: nat, done: seq<Cell>, cell: Cell)
    ensures PrintCells(w, font, ch, sx, sy, done + [cell])
              == match PrintCells(w, font, ch, sx, sy, done)
                 case Panic(m) => Panic(m)
                 case Ok(v) => PrintCell(v, font, ch, sx, sy, cell)
  {
    assert (done + [cell])[..|done + [cell]| - 1] == done;
  }

  /** The rows finished plus part of the next are where the whole box
      starts. */
  lemma CellsPrefix(cols: nat, rows: nat, ox: nat, oy: nat) returns (rest: seq<Cell>)
    requires ox <= cols && oy < rows
    ensures Cells(cols, oy) + Row(ox, oy) + rest == Cells(cols, rows)
    decreases rows
  {
    if oy == rows - 1 {
      rest := Row(cols, oy)[ox..];
      assert Row(ox, oy) + rest == Row(cols, oy);
    } else {
      var more := CellsPrefix(cols, rows - 1, ox, oy);
      rest := more + Row(cols, rows - 1);
    }
  }

  /** One more pixel of the row in progress, when it completes. */
  lemma PrintStep(w: Writer, font: Font, ch: char, sx: nat, sy: nat, cols: nat, ox: nat, oy: nat, cur: Writer)
    requires PrintCells(w, font, ch, sx, sy, Cells(cols, oy) + Row(ox, oy)) == Ok(cur)
    ensures PrintCells(w, font, ch, sx, sy, Cells(cols, oy) + Row(ox + 1, oy)) == PrintCell(cur, font, ch, sx, sy, Cell(ox, oy))
  {
    PrintSnoc(w, font, ch, sx, sy, Cells(cols, oy) + Row(ox, oy), Cell(ox, oy));
    RowSnoc(Cells(cols, oy), ox, oy);
  }

  /** One more pixel of a row is one more cell after those done. */
  lemma RowSnoc(done: seq<Cell>, ox: nat, oy: nat)
    ensures done + Row(ox, oy) + [Cell(ox, oy)] == done + Row(ox + 1, oy)
  {
    assert Row(ox + 1, oy) == Row(ox, oy) + [Cell(ox, oy)];
  }

  /** One more pixel of the row in progress, when it panics: the panic is
      the outcome of the whole box. */
  lemma PrintStepPanics(w: Writer, font: Font, ch: char, sx: nat, sy: nat, cols: nat, rows: nat, ox: nat, oy: nat, cur: Writer)
    requires ox < cols && oy < rows
    requires PrintCells(w, font, ch, sx, sy, Cells(cols, oy) + Row(ox, oy)) == Ok(cur)
    requires PrintCell(cur, font, ch, sx, sy, Cell(ox, oy)).Panic?
    ensures PrintCells(w, font, ch, sx, sy, Cells(cols, rows)) == PrintCell(cur, font, ch, sx, sy, Cell(ox, oy))
  {
    PrintStep(w, font, ch, sx, sy, cols, ox, oy, cur);
    var rest := CellsPrefix(cols, rows, ox + 1, oy);
    PanicPersists(w, font, ch, sx, sy, Cells(cols, oy) + Row(ox + 1, oy), rest);
  }

  /** A finished row starts the next one. */
  lemma RowDone(cols: nat, ox: nat, oy: nat)
    requires ox + 1 == cols
    ensures Cells(cols, oy) + Row(ox + 1, oy) == Cells(cols, oy + 1) + Row(0, oy + 1)
  {
    assert Cells(cols, oy + 1) == Cells(cols, oy) + Row(cols, oy);
  }

  /** The last pixel of the last row finishes the box. */
  lemma BoxDone(cols: nat, rows: nat, ox: nat, oy: nat)
    requires ox + 1 == cols && oy + 1 == rows
    ensures Cells(cols, oy) + Row(ox + 1, oy) == Cells(cols, rows)
  {
  }

  /** `print_char` stops a row, or the rows, after `n` steps exactly when
      the span along that axis is used up. */
  lemma SpanEnd(start: nat, limit: nat, size: nat, n: nat)
    requires 1 <= n <= Span(start, limit, size)
    ensures (n == size || start + n == limit) <==> n == Span(start, limit, size)
  {
  }

  /** One pixel drawn: the next pixel of the row, the first of the next
      row, or the whole box. */
  lemma Advance(w: Writer, font: Font, ch: char, sx: nat, sy: nat, cols: nat, rows: nat, ox: nat, oy: nat, cur: Writer, next: Writer)
    requires ox < cols && oy < rows
    requires PrintCells(w, font, ch, sx, sy, Cells(cols, oy) + Row(ox, oy)) == Ok(cur)
    requires PrintCell(cur, font, ch, sx, sy, Cell(ox, oy)) == Ok(next)
    ensures ox + 1 < cols ==> PrintCells(w, font, ch, sx, sy, Cells(cols, oy) + Row(ox + 1, oy)) == Ok(next)
    ensures ox + 1 == cols && oy + 1 < rows ==> PrintCells(w, font, ch, sx, sy, Cells(cols, oy + 1) + Row(0, oy + 1)) == Ok(next)
    ensures ox + 1 == cols && oy + 1 == rows ==> PrintCells(w, font, ch, sx, sy, Cells(cols, rows)) == Ok(next)
  {
    PrintStep(w, font, ch, sx, sy, cols, ox, oy, cur);
    if ox + 1 == cols {
      RowDone(cols, ox, oy);
      if oy + 1 == rows {
        BoxDone(cols, rows, ox, oy);
      }
    }
  }

  /** A pixel `contains` does not admit is skipped. */
  lemma PrintCellSkips(w: Writer, font: Font, ch: char, sx: nat, sy: nat, ox: nat, oy: nat, x: nat, y: nat)
    requires x == sx + ox && y == sy + oy && !Contains(w, x, y)
    ensures PrintCell(w, font, ch, sx, sy, Cell(ox, oy)) == Ok(w)
  {
  }

  /** A pixel `contains` admits is drawn in its colour, if it has one. */
  lemma PrintCellDraws(w: Writer, font: Font, ch: char, sx: nat, sy: nat, ox: nat, oy: nat, x: nat, y: nat)
    requires x == sx + ox && y == sy + oy && Contains(w, x, y)
    ensures PrintCell(w, font, ch, sx, sy, Cell(ox, oy))
              == match CellColor(w, font, ch, ox, oy) { case Panic(m) => Panic(m) case Ok(c) => Draw(w, x, y, c) }
  {
  }

  /** The body of `print_char`'s loop for one pixel: skipped unless
      `contains` admits it, otherwise drawn in its colour. */
  method PrintPixel(cur: Writer, font: Font, ch: char, startX: nat, startY: nat, offsetX: nat, offsetY: nat) returns (r: Outcome<Writer>)
    ensures r == PrintCell(cur, font, ch, startX, startY, Cell(offsetX, offsetY))
  {
    var coordX := startX + offsetX;
    var coordY := startY + offsetY;
    if Contains(cur, coordX, coordY) {
      PrintCellDraws(cur, font, ch, startX, startY, offsetX, offsetY, coordX, coordY);
      var pixel := CellColor(cur, font, ch, offsetX, offsetY);
      if pixel.Panic? {
        return Panic(pixel.message);
      }
      r := Draw(cur, coordX, coordY, pixel.value);
    } else {
      PrintCellSkips(cur, font, ch, startX, startY, offsetX, offsetY, coordX, coordY);
      r := Ok(cur);
    }
  }

  /** `print_char`, with the source's loop: the column offset runs until
      the cell's width or the screen's right edge, then the row offset
      steps, until the cell's height or the bottom edge. It draws exactly
      what `PrintGlyph` describes. */
  method PrintChar(w: Writer, font: Font, ch: char, column: nat, line: nat) returns (r: Outcome<Writer>)
    requires CellSized(font)
    ensures r == PrintGlyph(w, font, ch, column, line)
  {
    var startX: nat := Corner(column, font.width);
    var startY: nat := Corner(line, font.height);
    ghost var cols := Span(startX, w.info.width, font.width);
    ghost var rows := Span(startY, w.info.height, font.height);
    var offsetX: nat, offsetY: nat := 0, 0;
    var cur := w;
    while true
      invariant offsetX < cols && offsetY < rows
      invariant PrintCells(w, font, ch, startX, startY, Cells(cols, offsetY) + Row(offsetX, offsetY)) == Ok(cur)
      decreases rows - offsetY, cols - offsetX
    {
      var drawn := PrintPixel(cur, font, ch, startX, startY, offsetX, offsetY);
      if drawn.Panic? {
        PrintStepPanics(w, font, ch, startX, startY, cols, rows, offsetX, offsetY, cur);
        return drawn;
      }
      Advance(w, font, ch, startX, startY, cols, rows, offsetX, offsetY, cur, drawn.value);
      SpanEnd(startX, w.info.width, font.width, offsetX + 1);
      cur := drawn.value;
      offsetX := offsetX + 1;
      if offsetX == font.width || startX + offsetX == w.info.width {
        SpanEnd(startY, w.info.height, font.height, offsetY + 1);
        offsetY := offsetY + 1;
        if offsetY == font.height || startY + offsetY == w.info.height {
          return Ok(cur);
        }
        offsetX := 0;
      }
    }
  }

  /** Drawing `a` and then `b` is drawing `a + b`. */
  lemma {:induction false} PrintCellsConcat(w: Writer, font: Font, ch: char, sx: nat, sy: nat, a: seq<Cell>, b: seq<Cell>)
    ensures PrintCells(w, font, ch, sx, sy, a + b)
              == match PrintCells(w, font, ch, sx, sy, a)
                 case Panic(m) => Panic(m)
                 case Ok(v) => PrintCells(v, font, ch, sx, sy, b)
    decreases |b|
  {
    if b == [] {
      assert a + b == a;
    } else {
      var init := b[..|b| - 1];
      assert (a + b)[..|a + b| - 1] == a + init;
      PrintCellsConcat(w, font, ch, sx, sy, a, init);
    }
  }

  /** The pixels of a cell lie in distinct places. */
  lemma {:induction false} CellsDistinct(cols: nat, rows: nat, i: nat, j: nat)
    requires i < j < |Cells(cols, rows)|
    ensures Cells(cols, rows)[i] != Cells(cols, rows)[j]
    decreases rows
  {
    var front := Cells(cols, rows - 1);
    assert Cells(cols, rows) == front + Row(cols, rows - 1);
    if j < |front| {
      CellsDistinct(cols, rows - 1, i, j);
    }
  }

  /** The byte windows of two different pixels on rows no wider than the
      stride do not overlap. */
  lemma WindowsDisjoint(stride: nat, bpp: nat, x: nat, y: nat, tx: nat, ty: nat, k: nat)
    requires x < stride && tx < stride && (x != tx || y != ty)
    requires Offset(stride, bpp, tx, ty) <= k < Offset(stride, bpp, tx, ty) + bpp
    ensures !(Offset(stride, bpp, x, y) <= k < Offset(stride, bpp, x, y) + bpp)
  {
    PixelIndexInjective(stride, x, y, tx, ty);
    Window(k, PixelIndex(stride, tx, ty), bpp);
    Window(k, PixelIndex(stride, x, y), bpp);
  }

  /** Drawing the pixel (`x`, `y`) leaves byte `k` of another pixel
      (`tx`, `ty`) alone. */
  lemma DrawKeeps(w: Writer, x: nat, y: nat, c: RgbColor, tx: nat, ty: nat, k: nat)
    requires Draw(w, x, y, c).Ok?
    requires x < w.info.stride && tx < w.info.stride && (x != tx || y != ty)
    requires var start := Offset(w.info.stride, w.info.bytesPerPixel, tx, ty);
             start <= k < start + w.info.bytesPerPixel && k < |w.buf|
    ensures Draw(w, x, y, c).value.buf[k] == w.buf[k]
  {
    WindowsDisjoint(w.info.stride, w.info.bytesPerPixel, x, y, tx, ty, k);
  }

  /** Byte `k` of the pixel (`tx`, `ty`) is left alone by a cell pixel
      drawn elsewhere on a row no wider than the stride. */
  lemma PrintCellKeeps(v: Writer, font: Font, ch: char, sx: nat, sy: nat, ox: nat, oy: nat, tx: nat, ty: nat, k: nat)
    requires PrintCell(v, font, ch, sx, sy, Cell(ox, oy)).Ok?
    requires sx + ox < v.info.stride && tx < v.info.stride
    requires sx + ox != tx || sy + oy != ty
    requires var start := Offset(v.info.stride, v.info.bytesPerPixel, tx, ty);
             start <= k < start + v.info.bytesPerPixel && k < |v.buf|
    ensures PrintCell(v, font, ch, sx, sy, Cell(ox, oy)).value.buf[k] == v.buf[k]
  {
    var x, y := sx + ox, sy + oy;
    if Contains(v, x, y) {
      PrintCellDraws(v, font, ch, sx, sy, ox, oy, x, y);
      DrawKeeps(v, x, y, CellColor(v, font, ch, ox, oy).value, tx, ty, k);
    } else {
      PrintCellSkips(v, font, ch, sx, sy, ox, oy, x, y);
    }
  }

  /** Byte `k` of the pixel (`tx`, `ty`) is left alone by cells of a box
      no wider than the stride that all lie elsewhere. */
  lemma {:induction false} PrintCellsKeep(w: Writer, font: Font, ch: char, sx: nat, sy: nat, cells: seq<Cell>, cols: nat, tx: nat, ty: nat, k: nat)
    requires PrintCells(w, font, ch, sx, sy, cells).Ok?
    requires sx + cols <= w.info.stride && tx < w.info.stride
    requires var start := Offset(w.info.stride, w.info.bytesPerPixel, tx, ty);
             start <= k < start + w.info.bytesPerPixel && k < |w.buf|
    requires forall i :: 0 <= i < |cells| ==> cells[i].ox < cols && (sx + cells[i].ox != tx || sy + cells[i].oy != ty)
    ensures PrintCells(w, font, ch, sx, sy, cells).value.buf[k] == w.buf[k]
    decreases |cells|
  {
    if cells != [] {
      var init := cells[..|cells| - 1];
      assert forall i :: 0 <= i < |init| ==> init[i] == cells[i];
      PrintCellsKeep(w, font, ch, sx, sy, init, cols, tx, ty, k);
      var v := PrintCells(w, font, ch, sx, sy, init).value;
      var last := cells[|cells| - 1];
      PrintCellKeeps(v, font, ch, sx, sy, last.ox, last.oy, tx, ty, k);
    }
  }

  /** A pixel's colour depends on the writer only through its two
      colours. */
  lemma CellColorFields(v: Writer, w: Writer, font: Font, ch: char, ox: nat, oy: nat)
    requires v.fg == w.fg && v.bg == w.bg
    ensures CellColor(v, font, ch, ox, oy) == CellColor(w, font, ch, ox, oy)
  {
  }

  /** The pixel (`a`, `b`) of a cell, when `contains` admits it, holds its
      colour's bytes once drawn in a state `v` that differs from `w` only
      in its buffer. */
  lemma PrintCellLands(w: Writer, v: Writer, font: Font, ch: char, sx: nat, sy: nat, a: nat, b: nat, k: nat)
    requires v == w.(buf := v.buf)
    requires PrintCell(v, font, ch, sx, sy, Cell(a, b)).Ok? && Contains(w, sx + a, sy + b)
    requires var start := Offset(w.info.stride, w.info.bytesPerPixel, sx + a, sy + b);
             start <= k < start + w.info.bytesPerPixel
    ensures k < |v.buf| && CellColor(w, font, ch, a, b).Ok?
    ensures DrawBytes(CellColor(w, font, ch, a, b).value, w.info.pixelFormat, w.info.bytesPerPixel).Ok?
    ensures PrintCell(v, font, ch, sx, sy, Cell(a, b)).value.buf[k]
              == DrawBytes(CellColor(w, font, ch, a, b).value, w.info.pixelFormat, w.info.bytesPerPixel).value[k - Offset(w.info.stride, w.info.bytesPerPixel, sx + a, sy + b)]
  {
    CellColorFields(v, w, font, ch, a, b);
  }

  /** A drawing that succeeds passes through the states before and after
      each of its cells. */
  lemma PrintCellsSplit(w: Writer, font: Font, ch: char, sx: nat, sy: nat, done: seq<Cell>, cell: Cell, rest: seq<Cell>)
    returns (v1: Writer, v2: Writer)
    requires PrintCells(w, font, ch, sx, sy, done + [cell] + rest).Ok?
    ensures PrintCells(w, font, ch, sx, sy, done) == Ok(v1)
    ensures PrintCell(v1, font, ch, sx, sy, cell) == Ok(v2)
    ensures PrintCells(v2, font, ch, sx, sy, rest) == PrintCells(w, font, ch, sx, sy, done + [cell] + rest)
  {
    PrintCellsConcat(w, font, ch, sx, sy, done + [cell], rest);
    PrintSnoc(w, font, ch, sx, sy, done, cell);
    v1 := PrintCells(w, font, ch, sx, sy, done).value;
    v2 := PrintCell(v1, font, ch, sx, sy, cell).value;
  }

  /** The cell of `print_char` starts on the screen, whose rows are no
      wider than the stride. */
  predicate OnScreenCell(w: Writer, font: Font, column: nat, line: nat) {
    && w.info.width <= w.info.stride
    && Corner(column, font.width) < w.info.width
    && Corner(line, font.height) < w.info.height
  }

  /** The pixels of a box of `cols` by `rows` around its pixel (`a`,
      `b`): every later one is elsewhere in the box. */
  lemma GlyphSplit(cols: nat, rows: nat, a: nat, b: nat) returns (done: seq<Cell>, rest: seq<Cell>)
    requires a < cols && b < rows
    ensures Cells(cols, rows) == done + [Cell(a, b)] + rest
    ensures forall t :: 0 <= t < |rest| ==> rest[t].ox < cols && (rest[t].ox != a || rest[t].oy != b)
  {
    var cells := Cells(cols, rows);
    var i := CellsCover(cols, rows, a, b);
    done, rest := cells[..i], cells[i + 1..];
    assert cells == done + [Cell(a, b)] + rest;
    forall t | 0 <= t < |rest|
      ensures rest[t].ox < cols && (rest[t].ox != a || rest[t].oy != b)
    {
      CellsDistinct(cols, rows, i, i + 1 + t);
    }
  }

  /** A box drawn without a panic passes through its pixel (`a`, `b`):
      the state before it, the state after it, and the pixels still to
      come, none of which is (`a`, `b`) again. */
  lemma BoxSplit(w: Writer, font: Font, ch: char, sx: nat, sy: nat, cols: nat, rows: nat, a: nat, b: nat)
    returns (v1: Writer, v2: Writer, rest: seq<Cell>)
    requires PrintCells(w, font, ch, sx, sy, Cells(cols, rows)).Ok? && a < cols && b < rows
    ensures v1 == w.(buf := v1.buf) && |v1.buf| == |w.buf|
    ensures PrintCell(v1, font, ch, sx, sy, Cell(a, b)) == Ok(v2)
    ensures PrintCells(v2, font, ch, sx, sy, rest) == PrintCells(w, font, ch, sx, sy, Cells(cols, rows))
    ensures forall t :: 0 <= t < |rest| ==> rest[t].ox < cols && (rest[t].ox != a || rest[t].oy != b)
  {
    var done;
    done, rest := GlyphSplit(cols, rows, a, b);
    v1, v2 := PrintCellsSplit(w, font, ch, sx, sy, done, Cell(a, b), rest);
  }

  /** Right after a box's pixel (`a`, `b`) is drawn, it holds its
      colour's bytes; the rest of the box is still to come. */
  lemma BoxPixel(w: Writer, font: Font, ch: char, sx: nat, sy: nat, cols: nat, rows: nat, a: nat, b: nat, k: nat)
    returns (v: Writer, rest: seq<Cell>)
    requires PrintCells(w, font, ch, sx, sy, Cells(cols, rows)).Ok?
    requires a < cols && b < rows && Contains(w, sx + a, sy + b)
    requires var start := Offset(w.info.stride, w.info.bytesPerPixel, sx + a, sy + b);
             start <= k < start + w.info.bytesPerPixel
    ensures v == w.(buf := v.buf) && k < |v.buf| == |w.buf|
    ensures CellColor(w, font, ch, a, b).Ok?
    ensures DrawBytes(CellColor(w, font, ch, a, b).value, w.info.pixelFormat, w.info.bytesPerPixel).Ok?
    ensures v.buf[k] == DrawBytes(CellColor(w, font, ch, a, b).value, w.info.pixelFormat, w.info.bytesPerPixel).value[k - Offset(w.info.stride, w.info.bytesPerPixel, sx + a, sy + b)]
    ensures PrintCells(v, font, ch, sx, sy, rest) == PrintCells(w, font, ch, sx, sy, Cells(cols, rows))
    ensures forall t :: 0 <= t < |rest| ==> rest[t].ox < cols && (rest[t].ox != a || rest[t].oy != b)
  {
    var v1;
    v1, v, rest := BoxSplit(w, font, ch, sx, sy, cols, rows, a, b);
    PrintCellLands(w, v1, font, ch, sx, sy, a, b, k);
  }

  /** Each pixel (`a`, `b`) of a box drawn without a panic, on rows no
      wider than the stride, ends up holding its colour's bytes. */
  lemma BoxLands(w: Writer, font: Font, ch: char, sx: nat, sy: nat, cols: nat, rows: nat, a: nat, b: nat, j: nat)
    requires PrintCells(w, font, ch, sx, sy, Cells(cols, rows)).Ok?
    requires sx + cols <= w.info.stride && a < cols && b < rows && Contains(w, sx + a, sy + b)
    requires j < w.info.bytesPerPixel
    ensures var k := Offset(w.info.stride, w.info.bytesPerPixel, sx + a, sy + b) + j;
            && k < |w.buf|
            && CellColor(w, font, ch, a, b).Ok?
            && DrawBytes(CellColor(w, font, ch, a, b).value, w.info.pixelFormat, w.info.bytesPerPixel).Ok?
            && PrintCells(w, font, ch, sx, sy, Cells(cols, rows)).value.buf[k]
                 == DrawBytes(CellColor(w, font, ch, a, b).value, w.info.pixelFormat, w.info.bytesPerPixel).value[j]
  {
    var k := Offset(w.info.stride, w.info.bytesPerPixel, sx + a, sy + b) + j;
    var v, rest := BoxPixel(w, font, ch, sx, sy, cols, rows, a, b, k);
    PrintCellsKeep(v, font, ch, sx, sy, rest, cols, sx + a, sy + b, k);
  }

  /** What `print_char` leaves on the screen: each pixel (`a`, `b`) of the
      cell it visits holds the bytes of that pixel's colour, the glyph's
      foreground where its bit is set and the background elsewhere. */
  lemma PrintGlyphLands(w: Writer, font: Font, ch: char, column: nat, line: nat, sx: nat, sy: nat, a: nat, b: nat, j: nat)
    requires sx == Corner(column, font.width) && sy == Corner(line, font.height)
    requires PrintGlyph(w, font, ch, column, line).Ok? && OnScreenCell(w, font, column, line)
    requires a < Span(sx, w.info.width, font.width) && b < Span(sy, w.info.height, font.height)
    requires j < w.info.bytesPerPixel
    ensures var k := Offset(w.info.stride, w.info.bytesPerPixel, sx + a, sy + b) + j;
            && k < |w.buf|
            && CellColor(w, font, ch, a, b).Ok?
            && DrawBytes(CellColor(w, font, ch, a, b).value, w.info.pixelFormat, w.info.bytesPerPixel).Ok?
            && PrintGlyph(w, font, ch, column, line).value.buf[k]
                 == DrawBytes(CellColor(w, font, ch, a, b).value, w.info.pixelFormat, w.info.bytesPerPixel).value[j]
  {
    var cols, rows := Span(sx, w.info.width, font.width), Span(sy, w.info.height, font.height);
    assert PrintGlyph(w, font, ch, column, line) == PrintCells(w, font, ch, sx, sy, Cells(cols, rows));
    BoxLands(w, font, ch, sx, sy, cols, rows, a, b, j);
  }

  /** ... and every pixel outside the cell it visits keeps its bytes. */
  lemma PrintGlyphKeeps(w: Writer, font: Font, ch: char, column: nat, line: nat, sx: nat, sy: nat, x: nat, y: nat, k: nat)
    requires sx == Corner(column, font.width) && sy == Corner(line, font.height)
    requires PrintGlyph(w, font, ch, column, line).Ok? && OnScreenCell(w, font, column, line)
    requires x < w.info.stride
    requires !(sx <= x < sx + Span(sx, w.info.width, font.width) && sy <= y < sy + Span(sy, w.info.height, font.height))
    requires var start := Offset(w.info.stride, w.info.bytesPerPixel, x, y);
             start <= k < start + w.info.bytesPerPixel && k < |w.buf|
    ensures PrintGlyph(w, font, ch, column, line).value.buf[k] == w.buf[k]
  {
    var cols, rows := Span(sx, w.info.width, font.width), Span(sy, w.info.height, font.height);
    PrintCellsKeep(w, font, ch, sx, sy, Cells(cols, rows), cols, x, y, k);
  }

  /** `newline`: the first cell of the next line. */
  function Newline(w: Writer): Writer {
    w.(x := 0, y := w.y + 1)
  }

  /** The checks before a character is printed: a new line once the cursor
      is past the last whole cell of the line, then a clean screen once it
      is past the last whole line. */
  function Place(w: Writer): (p: Writer)
    ensures p == w.(buf := p.buf, x := p.x, y := p.y) && |p.buf| == |w.buf|
    ensures w.x < w.maxX && w.y < w.maxY ==> p == w
    ensures w.maxX > 0 ==> p.x < w.maxX
    ensures w.maxY > 0 ==> p.y < w.maxY
    ensures p.buf == w.buf || (p == Clean(w) && p.x == 0 && p.y == 0)
  {
    var wrapped := if w.x >= w.maxX then Newline(w) else w;
    if wrapped.y >= wrapped.maxY then Clean(wrapped) else wrapped
  }

  /** One character of `write_str`: a line feed moves to the next line, a
      tab moves four cells right without any check, and anything else is
      placed, printed, and moves one cell right. */
  function WriteChar(w: Writer, font: Font, c: char): (r: Outcome<Writer>)
    ensures r.Ok? ==> r.value.info == w.info && r.value.maxX == w.maxX && r.value.maxY == w.maxY
    ensures r.Ok? ==> r.value.fg == w.fg && r.value.bg == w.bg && |r.value.buf| == |w.buf|
  {
    if c == '\n' then Ok(Newline(w))
    else if c == '\t' then Ok(w.(x := w.x + 4))
    else
      var p := Place(w);
      match PrintGlyph(p, font, c, p.x, p.y)
      case Panic(m) => Panic(m)
      case Ok(q) => Ok(q.(x := q.x + 1))
  }

  /** `write_str`: the characters in order. It returns `Ok` unless drawing
      panics. */
  function WriteStr(w: Writer, font: Font, s: string): (r: Outcome<Writer>)
    ensures r.Ok? ==> r.value.info == w.info && r.value.maxX == w.maxX && r.value.maxY == w.maxY
    ensures r.Ok? ==> r.value.fg == w.fg && r.value.bg == w.bg && |r.value.buf| == |w.buf|
    decreases |s|
  {
    if s == [] then Ok(w)
    else
      match WriteChar(w, font, s[0])
      case Panic(m) => Panic(m)
      case Ok(next) => WriteStr(next, font, s[1..])
  }

  /** Writing two strings one after the other is writing their
      concatenation. */
  lemma {:induction false} WriteStrConcat(w: Writer, font: Font, s: string, t: string)
    ensures WriteStr(w, font, s + t)
              == match WriteStr(w, font, s) { case Panic(m) => Panic(m) case Ok(mid) => WriteStr(mid, font, t) }
    decreases |s|
  {
    if s != [] {
      assert (s + t)[0] == s[0] && (s + t)[1..] == s[1..] + t;
      match WriteChar(w, font, s[0])
      case Panic(_) =>
      case Ok(next) => WriteStrConcat(next, font, s[1..], t);
    } else {
      assert s + t == t;
    }
  }

  /** Line feeds draw nothing: each moves the cursor to the start of the
      next line. */
  lemma {:induction false} LineFeedsOnly(w: Writer, font: Font, s: string)
    requires s != [] && forall i :: 0 <= i < |s| ==> s[i] == '\n'
    ensures WriteStr(w, font, s) == Ok(w.(x := 0, y := w.y + |s|))
    decreases |s|
  {
    if |s| > 1 {
      LineFeedsOnly(Newline(w), font, s[1..]);
    }
  }

  /** Tabs draw nothing and skip no line: each moves the cursor four cells
      right, however far past the edge that is. */
  lemma {:induction false} TabsOnly(w: Writer, font: Font, s: string)
    requires forall i :: 0 <= i < |s| ==> s[i] == '\t'
    ensures WriteStr(w, font, s) == Ok(w.(x := w.x + 4 * |s|))
    decreases |s|
  {
    if s != [] {
      TabsOnly(w.(x := w.x + 4), font, s[1..]);
    }
  }

  /** On a screen of at least one whole cell each way, the cell a
      character is printed in lies on the screen, so `print_char` draws
      every pixel of it. */
  lemma PrintedCellOnScreen(w: Writer, font: Font)
    requires CellSized(font) && Grid(w, font) && w.maxX > 0 && w.maxY > 0
    ensures var p := Place(w);
            && Corner(p.x, font.width) + font.width <= w.info.width
            && Corner(p.y, font.height) + font.height <= w.info.height
            && Span(Corner(p.x, font.width), w.info.width, font.width) == font.width
            && Span(Corner(p.y, font.height), w.info.height, font.height) == font.height
  {
    var p := Place(w);
    MulLeq(font.width, p.x + 1, w.maxX);
    MulLeq(font.height, p.y + 1, w.maxY);
  }

  /** A screen `draw` can encode, whose buffer holds every row, whose rows
      are at least as wide as the screen, with a font of at most eight
      bitmap columns. */
  predicate Printable(w: Writer, font: Font) {
    && (w.info.pixelFormat.U8? || ((w.info.pixelFormat.Rgb? || w.info.pixelFormat.Bgr?) && w.info.bytesPerPixel <= 4))
    && w.info.stride >= w.info.width
    && |w.buf| >= w.info.height * w.info.stride * w.info.bytesPerPixel
    && CellSized(font) && font.width <= 9
  }

  /** A glyph of the font: present, with a row for every pixel row of the
      cell. */
  predicate HasGlyph(font: Font, ch: char) {
    ch as int < |font.glyphs| && |font.glyphs[ch as int]| >= font.height
  }

  /** A pixel of a glyph the font has, on the screen, is drawn without a
      panic. */
  lemma PrintCellSucceeds(w: Writer, font: Font, ch: char, sx: nat, sy: nat, cell: Cell)
    requires Printable(w, font) && HasGlyph(font, ch)
    requires cell.ox < font.width && cell.oy < font.height
    requires sx + cell.ox < w.info.width && sy + cell.oy < w.info.height
    ensures PrintCell(w, font, ch, sx, sy, cell).Ok?
  {
    PixelInBuffer(w.info.stride, w.info.bytesPerPixel, w.info.height, sx + cell.ox, sy + cell.oy, |w.buf|);
  }

  /** Pixels of a box that lies on the screen are drawn without a panic. */
  lemma {:induction false} PrintCellsSucceed(w: Writer, font: Font, ch: char, sx: nat, sy: nat, cells: seq<Cell>)
    requires Printable(w, font) && HasGlyph(font, ch)
    requires forall i :: 0 <= i < |cells| ==> cells[i].ox < font.width && cells[i].oy < font.height
    requires forall i :: 0 <= i < |cells| ==> sx + cells[i].ox < w.info.width && sy + cells[i].oy < w.info.height
    ensures PrintCells(w, font, ch, sx, sy, cells).Ok?
    decreases |cells|
  {
    if cells != [] {
      var init, cell := cells[..|cells| - 1], cells[|cells| - 1];
      PrintCellsSucceed(w, font, ch, sx, sy, init);
      var v := PrintCells(w, font, ch, sx, sy, init).value;
      PrintCellSucceeds(v, font, ch, sx, sy, cell);
    }
  }

  /** On a screen of at least one whole cell each way that `draw` can
      encode, a string of characters the font has, line feeds and tabs is
      written without a panic. */
  lemma {:induction false} WriteStrSucceeds(w: Writer, font: Font, s: string)
    requires Printable(w, font) && Grid(w, font) && w.maxX > 0 && w.maxY > 0
    requires forall i :: 0 <= i < |s| ==> s[i] == '\n' || s[i] == '\t' || HasGlyph(font, s[i])
    ensures WriteStr(w, font, s).Ok?
    decreases |s|
  {
    if s != [] {
      var c := s[0];
      if c != '\n' && c != '\t' {
        var p := Place(w);
        PrintedCellOnScreen(w, font);
        var cols, rows := font.width, font.height;
        PrintCellsSucceed(p, font, c, p.x * cols, p.y * rows, Cells(cols, rows));
      }
      WriteStrSucceeds(WriteChar(w, font, c).value, font, s[1..]);
    }
  }
}
