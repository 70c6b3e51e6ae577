/** The glyph console shared by `devices::display` and the `arch` crate's
    framebuffer: a cursor in pixels over a linear byte buffer, and for each
    character a 9 by 16 block of pixels whose brightness comes from the
    RobotoMono bitmap. The two consoles run the same `draw_char`, `clear`
    and `newline`; they differ only in how they are built. */
module GlyphConsole {
  import opened Common
  import opened Colors
  import opened PixelWrites

  const CHARACTER_WIDTH: nat := 9
  const CHARACTER_HEIGHT: nat := 16

  /** Pixels in one glyph. */
  const GLYPH_PIXELS: nat := 144

  /** One glyph: 16 rows of 9 intensities. */
  predicate GlyphShape(glyph: seq<seq<u8>>) {
    |glyph| == CHARACTER_HEIGHT && forall r :: 0 <= r < |glyph| ==> |glyph[r]| == CHARACTER_WIDTH
  }

  /** The shape of the `include!`d bitmap, `[[[u8; 9]; 16]; 256]`. Its
      contents are an input of the model. */
  predicate FontShape(font: seq<seq<seq<u8>>>) {
    |font| == 256 && forall g :: 0 <= g < |font| ==> GlyphShape(font[g])
  }

  /** The screen, its buffer and the cursor (the top-left pixel of the next
      glyph). */
  datatype Console = Console(info: FrameBufferInfo, buf: seq<u8>, x: nat, y: nat)

  /** `newline`: back to the left edge, one glyph row down. */
  function Newline(con: Console): Console {
    con.(x := 0, y := con.y + CHARACTER_HEIGHT)
  }

  /** `clear`: every byte of the buffer zero; the cursor is not touched. */
  function Clear(con: Console): Console {
    con.(buf := Zeroes(|con.buf|))
  }

  /** The cursor checks that precede a glyph: a new line when the glyph
      would reach the right edge, then a cleared screen and the origin when
      it would reach the bottom edge. A glyph that fits stays where it is,
      and on a screen larger than one glyph the glyph always ends up
      strictly inside it. */
  function Place(con: Console): (p: Console)
    ensures p.info == con.info && |p.buf| == |con.buf|
    ensures con.x + CHARACTER_WIDTH < con.info.width && con.y + CHARACTER_HEIGHT < con.info.height ==> p == con
    ensures con.info.width > CHARACTER_WIDTH ==> p.x + CHARACTER_WIDTH < con.info.width
    ensures con.info.height > CHARACTER_HEIGHT ==> p.y + CHARACTER_HEIGHT < con.info.height
    ensures p.buf == con.buf || (p.buf == Zeroes(|con.buf|) && p.x == 0 && p.y == 0)
  {
    var wrapped := if con.x + CHARACTER_WIDTH >= con.info.width then Newline(con) else con;
    if wrapped.y + CHARACTER_HEIGHT >= con.info.height then Clear(wrapped).(x := 0, y := 0) else wrapped
  }

  /** A glyph of the bitmap's shape on a screen whose pixels `draw_char`
      can encode: a known format of at most four bytes per pixel. */
  predicate Drawable(info: FrameBufferInfo, glyph: seq<seq<u8>>) {
    GlyphShape(glyph) && !info.pixelFormat.Unknown? && info.bytesPerPixel <= 4
  }

  /** `color_bytes(WHITE, intensity)[..bpp]`. */
  function GlyphBytes(info: FrameBufferInfo, intensity: u8): (px: seq<u8>)
    requires !info.pixelFormat.Unknown? && info.bytesPerPixel <= 4
    ensures |px| == info.bytesPerPixel
  {
    PixelBytes(Intensity(WHITE, intensity), info.pixelFormat, info.bytesPerPixel).value
  }

  /** The stores of one glyph at (x, y) in the loops' order: row by row,
      each row left to right, stepping the row offset by `stride * bpp`. */
  function GlyphWrites(info: FrameBufferInfo, x: nat, y: nat, glyph: seq<seq<u8>>): (ws: seq<PixelWrite>)
    requires Drawable(info, glyph)
    ensures |ws| == GLYPH_PIXELS && Sized(ws, info.bytesPerPixel)
  {
    seq(GLYPH_PIXELS, i requires 0 <= i < GLYPH_PIXELS =>
      PixelWrite(PixelIndex(info.stride, x + i % 9, y + i / 9), GlyphBytes(info, glyph[i / 9][i % 9])))
  }

  /** Store `r * 9 + c` puts the glyph's intensity at row `r`, column `c`
      into pixel (x + c, y + r). */
  lemma GlyphWriteAt(info: FrameBufferInfo, x: nat, y: nat, glyph: seq<seq<u8>>, r: nat, c: nat) returns (i: nat)
    requires Drawable(info, glyph)
    requires r < CHARACTER_HEIGHT && c < CHARACTER_WIDTH
    ensures i == r * 9 + c && i < GLYPH_PIXELS
    ensures GlyphWrites(info, x, y, glyph)[i] == PixelWrite(PixelIndex(info.stride, x + c, y + r), GlyphBytes(info, glyph[r][c]))
  {
    i := r * 9 + c;
    DivModUnique(i, 9, r, c);
  }

  /** No pixel of the 9 by 16 box at (x, y) ends after its bottom-right
      one. */
  lemma BoxBeforeCorner(stride: nat, bpp: nat, x: nat, y: nat, c: nat, r: nat, n: nat)
    requires c < CHARACTER_WIDTH && r < CHARACTER_HEIGHT && n == PixelIndex(stride, x + c, y + r)
    ensures Times(n, bpp) + bpp <= Offset(stride, bpp, x + 8, y + 15) + bpp
  {
    TimesMonotone(y + r, y + 15, stride);
    TimesMonotone(n, PixelIndex(stride, x + 8, y + 15), bpp);
  }

  /** No store of the glyph ends after its bottom-right pixel. */
  lemma GlyphStoreBeforeCorner(info: FrameBufferInfo, x: nat, y: nat, glyph: seq<seq<u8>>, i: nat)
    requires Drawable(info, glyph) && i < GLYPH_PIXELS
    ensures Times(GlyphWrites(info, x, y, glyph)[i].pixel, info.bytesPerPixel) + info.bytesPerPixel
              <= Offset(info.stride, info.bytesPerPixel, x + 8, y + 15) + info.bytesPerPixel
  {
    BoxBeforeCorner(info.stride, info.bytesPerPixel, x, y, i % 9, i / 9, GlyphWrites(info, x, y, glyph)[i].pixel);
  }

  /** The glyph's stores all fit exactly when its bottom-right pixel does. */
  lemma GlyphFits(info: FrameBufferInfo, x: nat, y: nat, glyph: seq<seq<u8>>, len: nat)
    requires Drawable(info, glyph)
    ensures (Fits(GlyphWrites(info, x, y, glyph), info.bytesPerPixel, len)
             <==> Offset(info.stride, info.bytesPerPixel, x + 8, y + 15) + info.bytesPerPixel <= len)
  {
    var ws := GlyphWrites(info, x, y, glyph);
    assert ws[143].pixel == PixelIndex(info.stride, x + 8, y + 15);
    forall i | 0 <= i < GLYPH_PIXELS
      ensures Times(ws[i].pixel, info.bytesPerPixel) + info.bytesPerPixel
                <= Offset(info.stride, info.bytesPerPixel, x + 8, y + 15) + info.bytesPerPixel
    {
      GlyphStoreBeforeCorner(info, x, y, glyph, i);
    }
  }

  /** A glyph that does not run past the end of its row stores to 144
      distinct pixels. */
  lemma GlyphPixelsDistinct(info: FrameBufferInfo, x: nat, y: nat, glyph: seq<seq<u8>>)
    requires Drawable(info, glyph)
    requires x + CHARACTER_WIDTH <= info.stride
    ensures var ws := GlyphWrites(info, x, y, glyph);
            forall a, b :: 0 <= a < b < |ws| ==> ws[a].pixel != ws[b].pixel
  {
    var ws := GlyphWrites(info, x, y, glyph);
    forall a, b | 0 <= a < b < |ws|
      ensures ws[a].pixel != ws[b].pixel
    {
      PixelIndexInjective(info.stride, x + a % 9, y + a / 9, x + b % 9, y + b / 9);
    }
  }

  /** `draw_char`. A line feed only moves the cursor. Any other character
      is placed, then its glyph drawn and the cursor moved one glyph right.
      Indexing the bitmap with a character past 255 panics, as do a pixel
      format without bytes, more than four bytes per pixel, and a glyph
      whose bottom-right pixel runs past the end of the buffer. */
  function DrawChar(con: Console, ch: char, font: seq<seq<seq<u8>>>): (r: Outcome<Console>)
    requires FontShape(font)
    ensures ch == '\n' ==> r == Ok(con.(x := 0, y := con.y + CHARACTER_HEIGHT))
    ensures ch != '\n' ==>
              var p := Place(con);
              (r.Ok? <==> && ch as int < 256 && !con.info.pixelFormat.Unknown? && con.info.bytesPerPixel <= 4
                          && Offset(con.info.stride, con.info.bytesPerPixel, p.x + 8, p.y + 15) + con.info.bytesPerPixel <= |con.buf|)
    ensures ch != '\n' && ch as int >= 256 ==> r == Panic(INDEX_OUT_OF_BOUNDS)
    ensures ch != '\n' && ch as int < 256 && con.info.pixelFormat.Unknown? ==> r == Panic(UNIMPLEMENTED_FORMAT)
    ensures r.Ok? ==> r.value.info == con.info && |r.value.buf| == |con.buf|
    ensures r.Ok? && ch != '\n' ==> r.value.x == Place(con).x + CHARACTER_WIDTH && r.value.y == Place(con).y
  {
    if ch == '\n' then Ok(Newline(con))
    else
      var p := Place(con);
      var info := con.info;
      if ch as int >= 256 then Panic(INDEX_OUT_OF_BOUNDS)
      else if info.pixelFormat.Unknown? then Panic(UNIMPLEMENTED_FORMAT)
      else if info.bytesPerPixel > 4 then Panic(SLICE_END_OUT_OF_RANGE)
      else
        GlyphFits(info, p.x, p.y, font[ch as int], |p.buf|);
        match StoreAll(p.buf, GlyphWrites(info, p.x, p.y, font[ch as int]), info.bytesPerPixel)
        case Panic(m) => Panic(m)
        case Ok(b) => Ok(p.(buf := b, x := p.x + CHARACTER_WIDTH))
  }

  /** A drawn glyph is the glyph's stores applied to the placed console's
      buffer. */
  lemma DrawCharStores(con: Console, ch: char, font: seq<seq<seq<u8>>>)
    requires FontShape(font) && ch != '\n' && DrawChar(con, ch, font).Ok?
    ensures ch as int < 256 && Drawable(con.info, font[ch as int])
    ensures var p := Place(con);
            var ws := GlyphWrites(con.info, p.x, p.y, font[ch as int]);
            && Fits(ws, con.info.bytesPerPixel, |p.buf|)
            && StoreAll(p.buf, ws, con.info.bytesPerPixel).Ok?
            && DrawChar(con, ch, font).value.buf == StoreAll(p.buf, ws, con.info.bytesPerPixel).value
  {
  }

  /** The glyph's stores at (x, y), when they all fit and the box does not
      run past the end of its row, put byte `j` of the bytes for row `r`,
      column `c` at `k`, byte `j` of pixel (x + c, y + r). */
  lemma GlyphStoresLand(info: FrameBufferInfo, x: nat, y: nat, glyph: seq<seq<u8>>, buf: seq<u8>, r: nat, c: nat, j: nat)
    returns (k: nat)
    requires Drawable(info, glyph)
    requires x + CHARACTER_WIDTH <= info.stride
    requires Fits(GlyphWrites(info, x, y, glyph), info.bytesPerPixel, |buf|)
    requires r < CHARACTER_HEIGHT && c < CHARACTER_WIDTH && j < info.bytesPerPixel
    ensures k == Offset(info.stride, info.bytesPerPixel, x + c, y + r) + j && k < |buf|
    ensures StoreAll(buf, GlyphWrites(info, x, y, glyph), info.bytesPerPixel).Ok?
    ensures StoreAll(buf, GlyphWrites(info, x, y, glyph), info.bytesPerPixel).value[k] == GlyphBytes(info, glyph[r][c])[j]
  {
    var ws := GlyphWrites(info, x, y, glyph);
    var i := GlyphWriteAt(info, x, y, glyph, r, c);
    OffsetOfPixel(info.stride, info.bytesPerPixel, x + c, y + r, ws[i].pixel);
    GlyphPixelsDistinct(info, x, y, glyph);
    k := DistinctStoresLand(buf, ws, info.bytesPerPixel, i, j);
  }

  /** Every pixel of a drawn glyph gets the first `bpp` bytes of white at
      the glyph's intensity there, provided the glyph does not run past the
      end of its row: byte `j` of the pixel at row `r`, column `c` of the
      glyph, at `k`, is byte `j` of those. */
  lemma GlyphLands(con: Console, ch: char, font: seq<seq<seq<u8>>>, r: nat, c: nat, j: nat)
    requires FontShape(font) && ch != '\n' && DrawChar(con, ch, font).Ok?
    requires Place(con).x + CHARACTER_WIDTH <= con.info.stride
    requires r < CHARACTER_HEIGHT && c < CHARACTER_WIDTH && j < con.info.bytesPerPixel
    ensures ch as int < 256
    ensures var k := Offset(con.info.stride, con.info.bytesPerPixel, Place(con).x + c, Place(con).y + r) + j;
            k < |con.buf| && DrawChar(con, ch, font).value.buf[k] == GlyphBytes(con.info, font[ch as int][r][c])[j]
  {
    DrawCharStores(con, ch, font);
    var p := Place(con);
    var k := GlyphStoresLand(con.info, p.x, p.y, font[ch as int], p.buf, r, c, j);
  }

  /** No store of the glyph at (x, y) hits a pixel (qx, qy) of the row
      outside its 9 by 16 box. */
  lemma GlyphMisses(info: FrameBufferInfo, x: nat, y: nat, glyph: seq<seq<u8>>, qx: nat, qy: nat)
    requires Drawable(info, glyph)
    requires x + CHARACTER_WIDTH <= info.stride && qx < info.stride
    requires !(x <= qx < x + CHARACTER_WIDTH && y <= qy < y + CHARACTER_HEIGHT)
    ensures var ws := GlyphWrites(info, x, y, glyph);
            forall i :: 0 <= i < |ws| ==> ws[i].pixel != PixelIndex(info.stride, qx, qy)
  {
    var ws := GlyphWrites(info, x, y, glyph);
    forall i | 0 <= i < |ws|
      ensures ws[i].pixel != PixelIndex(info.stride, qx, qy)
    {
      PixelIndexInjective(info.stride, qx, qy, x + i % 9, y + i / 9);
    }
  }

  /** The glyph's stores at (x, y) leave byte `j` of a pixel (qx, qy) of the
      row outside the glyph's 9 by 16 box, at `k`, as it was. */
  lemma GlyphStoresKeep(info: FrameBufferInfo, x: nat, y: nat, glyph: seq<seq<u8>>, buf: seq<u8>, qx: nat, qy: nat, j: nat, k: nat)
    requires Drawable(info, glyph)
    requires x + CHARACTER_WIDTH <= info.stride && qx < info.stride
    requires Fits(GlyphWrites(info, x, y, glyph), info.bytesPerPixel, |buf|)
    requires !(x <= qx < x + CHARACTER_WIDTH && y <= qy < y + CHARACTER_HEIGHT)
    requires j < info.bytesPerPixel && k == Offset(info.stride, info.bytesPerPixel, qx, qy) + j && k < |buf|
    ensures StoreAll(buf, GlyphWrites(info, x, y, glyph), info.bytesPerPixel).Ok?
    ensures StoreAll(buf, GlyphWrites(info, x, y, glyph), info.bytesPerPixel).value[k] == buf[k]
  {
    var n := PixelIndex(info.stride, qx, qy);
    OffsetOfPixel(info.stride, info.bytesPerPixel, qx, qy, n);
    GlyphMisses(info, x, y, glyph, qx, qy);
    UntouchedPixel(buf, GlyphWrites(info, x, y, glyph), info.bytesPerPixel, n, j, k);
  }

  /** Byte `j` of a pixel (qx, qy) of the row outside the glyph's 9 by 16
      box, at `k`, keeps the value it had once the glyph was placed. */
  lemma GlyphKeepsRest(con: Console, ch: char, font: seq<seq<seq<u8>>>, qx: nat, qy: nat, j: nat, k: nat)
    requires FontShape(font) && ch != '\n' && DrawChar(con, ch, font).Ok?
    requires Place(con).x + CHARACTER_WIDTH <= con.info.stride && qx < con.info.stride
    requires !(Place(con).x <= qx < Place(con).x + CHARACTER_WIDTH && Place(con).y <= qy < Place(con).y + CHARACTER_HEIGHT)
    requires j < con.info.bytesPerPixel && k == Offset(con.info.stride, con.info.bytesPerPixel, qx, qy) + j && k < |con.buf|
    ensures DrawChar(con, ch, font).value.buf[k] == Place(con).buf[k]
  {
    DrawCharStores(con, ch, font);
    GlyphStoresKeep(con.info, Place(con).x, Place(con).y, font[ch as int], Place(con).buf, qx, qy, j, k);
  }

  /** The bottom-right pixel of a glyph whose box lies on the screen is
      inside a buffer that holds every row. */
  lemma CornerInBuffer(stride: nat, bpp: nat, height: nat, x: nat, y: nat, len: nat)
    requires x + CHARACTER_WIDTH <= stride && y + CHARACTER_HEIGHT <= height
    requires len >= height * stride * bpp
    ensures Offset(stride, bpp, x + 8, y + 15) + bpp <= len
  {
    PixelInBuffer(stride, bpp, height, x + 8, y + 15, len);
  }

  /** On a screen larger than one glyph, with rows at least as long as the
      screen is wide and a buffer holding every row, any character of the
      bitmap is drawn without a panic. */
  lemma DrawCharSucceeds(con: Console, ch: char, font: seq<seq<seq<u8>>>)
    requires FontShape(font) && ch as int < 256
    requires !con.info.pixelFormat.Unknown? && con.info.bytesPerPixel <= 4
    requires con.info.width > CHARACTER_WIDTH && con.info.height > CHARACTER_HEIGHT
    requires con.info.stride >= con.info.width
    requires |con.buf| >= con.info.height * con.info.stride * con.info.bytesPerPixel
    ensures DrawChar(con, ch, font).Ok?
  {
    if ch != '\n' {
      var p := Place(con);
      CornerInBuffer(con.info.stride, con.info.bytesPerPixel, con.info.height, p.x, p.y, |con.buf|);
    }
  }

  /** A character leaves the cursor on the glyph grid: columns a multiple of
      9 pixels, rows a multiple of 16. */
  lemma DrawCharKeepsGrid(con: Console, ch: char, font: seq<seq<seq<u8>>>)
    requires FontShape(font) && DrawChar(con, ch, font).Ok?
    requires con.x % CHARACTER_WIDTH == 0 && con.y % CHARACTER_HEIGHT == 0
    ensures DrawChar(con, ch, font).value.x % CHARACTER_WIDTH == 0
    ensures DrawChar(con, ch, font).value.y % CHARACTER_HEIGHT == 0
  {
    if ch != '\n' {
      PlaceKeepsGrid(con);
    }
  }

  /** The cursor checks keep a cursor on the glyph grid on it. */
  lemma PlaceKeepsGrid(con: Console)
    requires con.x % CHARACTER_WIDTH == 0 && con.y % CHARACTER_HEIGHT == 0
    ensures Place(con).x % CHARACTER_WIDTH == 0 && (Place(con).x + CHARACTER_WIDTH) % CHARACTER_WIDTH == 0
    ensures Place(con).y % CHARACTER_HEIGHT == 0
  {
  }

  /** `write_str`: the characters drawn in order; a panic stops it. */
  function WriteStr(con: Console, s: string, font: seq<seq<seq<u8>>>): (r: Outcome<Console>)
    requires FontShape(font)
    ensures r.Ok? ==> r.value.info == con.info && |r.value.buf| == |con.buf|
    decreases |s|
  {
    if s == [] then Ok(con)
    else
      match DrawChar(con, s[0], font)
      case Panic(m) => Panic(m)
      case Ok(next) => WriteStr(next, s[1..], font)
  }

  /** Writing two strings one after the other is writing their
      concatenation. */
  lemma {:induction false} WriteStrConcat(con: Console, s: string, t: string, font: seq<seq<seq<u8>>>)
    requires FontShape(font)
    ensures WriteStr(con, s + t, font)
              == match WriteStr(con, s, font) { case Panic(m) => Panic(m) case Ok(mid) => WriteStr(mid, t, font) }
    decreases |s|
  {
    if s != [] {
      assert (s + t)[0] == s[0] && (s + t)[1..] == s[1..] + t;
      match DrawChar(con, s[0], font)
      case Panic(_) =>
      case Ok(next) => WriteStrConcat(next, s[1..], t, font);
    } else {
      assert s + t == t;
    }
  }

  /** Line feeds never draw: each moves the cursor one glyph row down to
      the left edge and leaves the buffer alone. */
  lemma {:induction false} LineFeedsOnly(con: Console, s: string, font: seq<seq<seq<u8>>>)
    requires FontShape(font) && s != []
    requires forall i :: 0 <= i < |s| ==> s[i] == '\n'
    ensures WriteStr(con, s, font) == Ok(con.(x := 0, y := con.y + CHARACTER_HEIGHT * |s|))
    decreases |s|
  {
    if |s| > 1 {
      LineFeedsOnly(Newline(con), s[1..], font);
    }
  }

  /** Starting on the glyph grid, every character written keeps the cursor
      on it. */
  lemma {:induction false} WriteStrKeepsGrid(con: Console, s: string, font: seq<seq<seq<u8>>>)
    requires FontShape(font) && WriteStr(con, s, font).Ok?
    requires con.x % CHARACTER_WIDTH == 0 && con.y % CHARACTER_HEIGHT == 0
    ensures WriteStr(con, s, font).value.x % CHARACTER_WIDTH == 0
    ensures WriteStr(con, s, font).value.y % CHARACTER_HEIGHT == 0
    decreases |s|
  {
    if s != [] {
      DrawCharKeepsGrid(con, s[0], font);
      WriteStrKeepsGrid(DrawChar(con, s[0], font).value, s[1..], font);
    }
  }

  /** On a screen larger than one glyph whose buffer holds every row, a
      string of characters from the bitmap is written without a panic. */
  lemma {:induction false} WriteStrSucceeds(con: Console, s: string, font: seq<seq<seq<u8>>>)
    requires FontShape(font) && forall i :: 0 <= i < |s| ==> s[i] as int < 256
    requires !con.info.pixelFormat.Unknown? && con.info.bytesPerPixel <= 4
    requires con.info.width > CHARACTER_WIDTH && con.info.height > CHARACTER_HEIGHT
    requires con.info.stride >= con.info.width
    requires |con.buf| >= con.info.height * con.info.stride * con.info.bytesPerPixel
    ensures WriteStr(con, s, font).Ok?
    decreases |s|
  {
    if s != [] {
      DrawCharSucceeds(con, s[0], font);
      WriteStrSucceeds(DrawChar(con, s[0], font).value, s[1..], font);
    }
  }
}

/** `devices::display`: the console behind an `Option`, absent until
    `init`. */
module DeviceDisplay {
  import opened Common
  import opened Colors
  import opened GlyphConsole

  datatype Display = Display(inner: Option<Console>)

  /** `Framebuffer::empty`. */
  const EMPTY: Display := Display(None)

  /** `init`: the buffer zero-filled and the cursor at the origin, replacing
      any earlier console. */
  function Init(d: Display, info: FrameBufferInfo, buf: seq<u8>): (r: Display)
    ensures r.inner.Some? && r.inner.value.info == info
    ensures |r.inner.value.buf| == |buf| && forall i :: 0 <= i < |buf| ==> r.inner.value.buf[i] == 0
    ensures r.inner.value.x == 0 && r.inner.value.y == 0
  {
    Display(Some(Console(info, Zeroes(|buf|), 0, 0)))
  }

  /** `write_str`: without a console nothing happens; otherwise the
      console's `write_str`. The result is always `Ok` unless drawing
      panics. */
  function WriteStr(d: Display, s: string, font: seq<seq<seq<u8>>>): (r: Outcome<Display>)
    requires FontShape(font)
    ensures d.inner.None? ==> r == Ok(d)
    ensures d.inner.Some? ==> (r.Ok? <==> GlyphConsole.WriteStr(d.inner.value, s, font).Ok?)
    ensures r.Ok? && d.inner.Some? ==> r.value.inner == Some(GlyphConsole.WriteStr(d.inner.value, s, font).value)
  {
    match d.inner
    case None => Ok(d)
    case Some(con) =>
      match GlyphConsole.WriteStr(con, s, font)
      case Panic(m) => Panic(m)
      case Ok(next) => Ok(Display(Some(next)))
  }

  /** A freshly initialised display on a screen larger than one glyph, with
      rows at least as long as the screen is wide and a buffer holding every
      row, writes any string of bitmap characters, and its cursor stays on
      the glyph grid. */
  lemma InitThenWrite(info: FrameBufferInfo, buf: seq<u8>, s: string, font: seq<seq<seq<u8>>>)
    requires FontShape(font) && forall i :: 0 <= i < |s| ==> s[i] as int < 256
    requires !info.pixelFormat.Unknown? && info.bytesPerPixel <= 4
    requires info.width > CHARACTER_WIDTH && info.height > CHARACTER_HEIGHT && info.stride >= info.width
    requires |buf| >= info.height * info.stride * info.bytesPerPixel
    ensures WriteStr(Init(EMPTY, info, buf), s, font).Ok?
    ensures var con := WriteStr(Init(EMPTY, info, buf), s, font).value.inner.value;
            con.x % CHARACTER_WIDTH == 0 && con.y % CHARACTER_HEIGHT == 0
  {
    var con := Init(EMPTY, info, buf).inner.value;
    WriteStrSucceeds(con, s, font);
    WriteStrKeepsGrid(con, s, font);
  }
}

/** The `arch` crate's framebuffer console: the same glyph console, built
    directly over a buffer whose pixel format is RGB or BGR. */
module ArchFramebuffer {
  import opened Common
  import Colors
  import opened GlyphConsole

  /** The crate's own `PixelFormat`. */
  datatype ArchPixelFormat = Rgb | Bgr

  function BootFormat(f: ArchPixelFormat): (g: Colors.PixelFormat)
    ensures !g.Unknown? && g != Colors.U8
  {
    match f
    case Rgb => Colors.Rgb
    case Bgr => Colors.Bgr
  }

  /** `Framebuffer::new`: the buffer zero-filled and the cursor at the
      origin. */
  function New(bpp: nat, width: nat, height: nat, stride: nat, format: ArchPixelFormat, buf: seq<u8>): (con: Console)
    ensures con.info == Colors.FrameBufferInfo(width, height, bpp, stride, BootFormat(format))
    ensures |con.buf| == |buf| && forall i :: 0 <= i < |buf| ==> con.buf[i] == 0
    ensures con.x == 0 && con.y == 0
  {
    Console(Colors.FrameBufferInfo(width, height, bpp, stride, BootFormat(format)), Zeroes(|buf|), 0, 0)
  }

  /** `write_str`: with only RGB and BGR there is no unhandled format, so a
      screen larger than one glyph whose buffer holds every row writes any
      string of bitmap characters, always returning `Ok`. */
  lemma WriteStrAlwaysOk(bpp: nat, width: nat, height: nat, stride: nat, format: ArchPixelFormat, buf: seq<u8>, s: string, font: seq<seq<seq<u8>>>)
    requires FontShape(font) && forall i :: 0 <= i < |s| ==> s[i] as int < 256
    requires bpp <= 4 && width > CHARACTER_WIDTH && height > CHARACTER_HEIGHT && stride >= width
    requires |buf| >= height * stride * bpp
    ensures WriteStr(New(bpp, width, height, stride, format, buf), s, font).Ok?
  {
    WriteStrSucceeds(New(bpp, width, height, stride, format, buf), s, font);
  }
}
