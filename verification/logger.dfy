/** The display back-end of the kernel logger (`logger::display`): a text
    cursor in pixels and a colour picked by the log level. Each character
    becomes a 9 by 16 block of `fill_pixel` calls on the framebuffer
    device, whose brightness comes from the RobotoMono bitmap. The device
    itself (`devices::framebuffer`, with `width`, `height`, `fill` and
    `fill_pixel`) is not part of this model: what the logger does is the
    sequence of calls it makes, and the screen size is a parameter. */
module DisplayLogger {
  import opened Common
  import opened Colors
  import opened Geometry
  import G = GlyphConsole

  datatype Level = Error | Warn | Info | Debug | Trace

  /** The cursor (the top-left pixel of the next glyph) and the colour. */
  datatype Logger = Logger(x: nat, y: nat, color: Color)

  /** A call on the locked framebuffer device. */
  datatype FbCall = Fill(color: Color) | FillPixel(at: Point, color: Color)

  /** What a run of the logger did: the calls it made, in order, then
      either its new state or the panic that stopped it. */
  datatype Run = Run(calls: seq<FbCall>, outcome: Outcome<Logger>)

  /** The cursor sits on the glyph grid. */
  predicate OnGrid(l: Logger) {
    l.x % G.CHARACTER_WIDTH == 0 && l.y % G.CHARACTER_HEIGHT == 0
  }

  /** `new`: the origin, in white. */
  function New(): (l: Logger)
    ensures OnGrid(l) && l.color == WHITE
  {
    Logger(0, 0, WHITE)
  }

  function LevelColor(level: Level): Color {
    match level
    case Error => RED
    case Warn => ORANGE
    case Info => GREEN
    case _ => WHITE
  }

  /** `with_level`: only the colour changes. */
  function WithLevel(l: Logger, level: Level): (r: Logger)
    ensures r.x == l.x && r.y == l.y
    ensures r.color == LevelColor(level)
  {
    l.(color := LevelColor(level))
  }

  /** Errors, warnings and information each have a colour of their own;
      only debug and trace messages share one, white. */
  lemma LevelColorsDistinct(a: Level, b: Level)
    ensures LevelColor(a) == LevelColor(b) <==> a == b || (a in {Debug, Trace} && b in {Debug, Trace})
    ensures LevelColor(a) == WHITE <==> a in {Debug, Trace}
  {
  }

  /** Setting the level twice is setting it the second time. */
  lemma WithLevelLastWins(l: Logger, a: Level, b: Level)
    ensures WithLevel(WithLevel(l, a), b) == WithLevel(l, b)
  {
  }

  /** `newline`: back to the left edge, one glyph row down. */
  function Newline(l: Logger): Logger {
    l.(x := 0, y := l.y + G.CHARACTER_HEIGHT)
  }

  /** The wrap at the right edge: the cursor at or past it moves to the
      next line. */
  function Wrap(l: Logger, width: nat): Logger {
    if l.x >= width then Newline(l) else l
  }

  /** After the wrap the cursor is at or past the bottom edge, so the
      screen is filled black. */
  predicate Clears(l: Logger, width: nat, height: nat) {
    Wrap(l, width).y >= height
  }

  /** The cursor checks that precede a glyph. Only the glyph's top-left
      pixel is checked, so on a screen with room for it that pixel is on
      the screen, and a cursor already on the screen stays put. */
  function Place(l: Logger, width: nat, height: nat): (p: Logger)
    ensures p.color == l.color
    ensures width > 0 ==> p.x < width
    ensures height > 0 ==> p.y < height
    ensures l.x < width && l.y < height ==> p == l
    ensures Clears(l, width, height) ==> p.x == 0 && p.y == 0
  {
    var wrapped := Wrap(l, width);
    if wrapped.y >= height then wrapped.(x := 0, y := 0) else wrapped
  }

  /** The calls for one glyph at (x, y), in the loops' order: row by row,
      each row left to right, each pixel at its intensity in the bitmap. */
  function GlyphCalls(x: nat, y: nat, color: Color, glyph: seq<seq<u8>>): (cs: seq<FbCall>)
    requires G.GlyphShape(glyph)
    ensures |cs| == G.GLYPH_PIXELS
  {
    seq(G.GLYPH_PIXELS, i requires 0 <= i < G.GLYPH_PIXELS =>
      FillPixel(Point(x + i % 9, y + i / 9), Intensity(color, glyph[i / 9][i % 9])))
  }

  /** Call `r * 9 + c` fills pixel (x + c, y + r) with the colour at the
      bitmap's intensity for row `r`, column `c`. */
  lemma GlyphCallAt(x: nat, y: nat, color: Color, glyph: seq<seq<u8>>, r: nat, c: nat) returns (i: nat)
    requires G.GlyphShape(glyph)
    requires r < G.CHARACTER_HEIGHT && c < G.CHARACTER_WIDTH
    ensures i == r * 9 + c && i < G.GLYPH_PIXELS
    ensures GlyphCalls(x, y, color, glyph)[i] == FillPixel(Point(x + c, y + r), Intensity(color, glyph[r][c]))
  {
    i := r * 9 + c;
    DivModUnique(i, 9, r, c);
  }

  /** The 144 calls fill 144 different pixels, all inside the 9 by 16
      box at (x, y). */
  lemma GlyphCallsCover(x: nat, y: nat, color: Color, glyph: seq<seq<u8>>)
    requires G.GlyphShape(glyph)
    ensures var cs := GlyphCalls(x, y, color, glyph);
            && (forall i :: 0 <= i < |cs| ==> cs[i].FillPixel? && x <= cs[i].at.x < x + 9 && y <= cs[i].at.y < y + 16)
            && (forall a, b :: 0 <= a < b < |cs| ==> cs[a].at != cs[b].at)
  {
    var cs := GlyphCalls(x, y, color, glyph);
    forall a, b | 0 <= a < b < |cs|
      ensures cs[a].at != cs[b].at
    {
      assert a == a / 9 * 9 + a % 9 && b == b / 9 * 9 + b % 9;
    }
  }

  /** One character of `draw_text`: a line feed only moves the cursor;
      anything else goes through the cursor checks, which may fill the
      screen black, then the bitmap is indexed by the character's code,
      which panics past its 256 glyphs, and the glyph's pixels are filled
      before the cursor moves one glyph right. */
  function DrawChar(l: Logger, ch: char, font: seq<seq<seq<u8>>>, width: nat, height: nat): (run: Run)
    requires G.FontShape(font)
    ensures run.outcome.Ok? <==> ch as int < 256
    ensures run.outcome.Panic? ==> run.outcome.message == INDEX_OUT_OF_BOUNDS
    ensures run.outcome.Ok? ==> run.outcome.value.color == l.color
    ensures forall i :: 0 < i < |run.calls| ==> run.calls[i].FillPixel?
  {
    if ch == '\n' then Run([], Ok(Newline(l)))
    else
      var p := Place(l, width, height);
      var clear := if Clears(l, width, height) then [Fill(BLACK)] else [];
      if ch as int >= 256 then Run(clear, Panic(INDEX_OUT_OF_BOUNDS))
      else Run(clear + GlyphCalls(p.x, p.y, l.color, font[ch as int]), Ok(p.(x := p.x + G.CHARACTER_WIDTH)))
  }

  /** A drawn character is the optional black fill, then byte for byte the
      glyph at the checked cursor: pixel (p.x + c, p.y + r) at its
      intensity; the cursor ends one glyph right of where it was drawn. */
  lemma DrawCharGlyph(l: Logger, ch: char, font: seq<seq<seq<u8>>>, width: nat, height: nat, r: nat, c: nat)
    requires G.FontShape(font) && ch != '\n' && ch as int < 256
    requires r < G.CHARACTER_HEIGHT && c < G.CHARACTER_WIDTH
    ensures var run := DrawChar(l, ch, font, width, height);
            var p := Place(l, width, height);
            var skip := if Clears(l, width, height) then 1 else 0;
            && |run.calls| == skip + G.GLYPH_PIXELS
            && run.calls[skip + r * 9 + c] == FillPixel(Point(p.x + c, p.y + r), Intensity(l.color, font[ch as int][r][c]))
            && run.outcome == Ok(p.(x := p.x + G.CHARACTER_WIDTH))
  {
    var p := Place(l, width, height);
    var i := GlyphCallAt(p.x, p.y, l.color, font[ch as int], r, c);
  }

  /** The screen is filled black exactly when a character other than a
      line feed finds the cursor, after the wrap, at or past the bottom
      edge; that fill comes first, and the glyph then starts at the
      origin. */
  lemma DrawCharClears(l: Logger, ch: char, font: seq<seq<seq<u8>>>, width: nat, height: nat)
    requires G.FontShape(font)
    ensures var run := DrawChar(l, ch, font, width, height);
            (Fill(BLACK) in run.calls <==> ch != '\n' && Clears(l, width, height))
    ensures var run := DrawChar(l, ch, font, width, height);
            ch != '\n' && Clears(l, width, height) ==> run.calls[0] == Fill(BLACK)
  {
    var run := DrawChar(l, ch, font, width, height);
    if Fill(BLACK) in run.calls {
      var i :| 0 <= i < |run.calls| && run.calls[i] == Fill(BLACK);
      assert i == 0;
    }
  }

  /** A glyph is only checked at its top-left pixel: at the last column of
      the screen the logger still fills the glyph's other eight columns,
      past the right edge. */
  lemma GlyphCrossesRightEdge(l: Logger, ch: char, font: seq<seq<seq<u8>>>, width: nat, height: nat)
    requires G.FontShape(font) && ch != '\n' && ch as int < 256
    requires 0 < width && l.x == width - 1 && l.y < height
    ensures var run := DrawChar(l, ch, font, width, height);
            run.calls[8] == FillPixel(Point(width + 7, l.y), Intensity(l.color, font[ch as int][0][8]))
  {
    DrawCharGlyph(l, ch, font, width, height, 0, 8);
  }

  /** A drawn character keeps the cursor on the glyph grid. */
  lemma DrawCharKeepsGrid(l: Logger, ch: char, font: seq<seq<seq<u8>>>, width: nat, height: nat)
    requires G.FontShape(font) && OnGrid(l) && DrawChar(l, ch, font, width, height).outcome.Ok?
    ensures OnGrid(DrawChar(l, ch, font, width, height).outcome.value)
  {
    if ch != '\n' {
      var p := Place(l, width, height);
      assert OnGrid(Wrap(l, width));
      assert OnGrid(p);
    }
  }

  /** `draw_text`, which is all of `write_str`: the characters in order; a
      panic stops the run after the calls already made. */
  function DrawText(l: Logger, s: string, font: seq<seq<seq<u8>>>, width: nat, height: nat): (run: Run)
    requires G.FontShape(font)
    ensures run.outcome.Ok? ==> run.outcome.value.color == l.color
    ensures run.outcome.Panic? ==> run.outcome.message == INDEX_OUT_OF_BOUNDS
    decreases |s|
  {
    if s == [] then Run([], Ok(l))
    else
      var first := DrawChar(l, s[0], font, width, height);
      match first.outcome
      case Panic(_) => first
      case Ok(next) =>
        var rest := DrawText(next, s[1..], font, width, height);
        Run(first.calls + rest.calls, rest.outcome)
  }

  /** Writing `s` then `t` is writing `s + t`: the calls follow one
      another, and a panic in `s` means `t` is never reached. */
  lemma {:induction false} DrawTextConcat(l: Logger, s: string, t: string, font: seq<seq<seq<u8>>>, width: nat, height: nat)
    requires G.FontShape(font)
    ensures DrawText(l, s + t, font, width, height)
              == match DrawText(l, s, font, width, height).outcome
                 case Panic(_) => DrawText(l, s, font, width, height)
                 case Ok(m) => Run(DrawText(l, s, font, width, height).calls + DrawText(m, t, font, width, height).calls,
                                   DrawText(m, t, font, width, height).outcome)
    decreases |s|
  {
    if s == [] {
      assert s + t == t;
    } else {
      assert (s + t)[0] == s[0] && (s + t)[1..] == s[1..] + t;
      var first := DrawChar(l, s[0], font, width, height);
      match first.outcome
      case Panic(_) =>
      case Ok(next) =>
        DrawTextConcat(next, s[1..], t, font, width, height);
        var mid := DrawText(next, s[1..], font, width, height);
        match mid.outcome
        case Panic(_) =>
        case Ok(m) =>
          var last := DrawText(m, t, font, width, height);
          assert first.calls + (mid.calls + last.calls) == (first.calls + mid.calls) + last.calls;
    }
  }

  /** The run ends without a panic exactly when every character has a
      glyph in the 256-entry bitmap. */
  lemma {:induction false} DrawTextSucceeds(l: Logger, s: string, font: seq<seq<seq<u8>>>, width: nat, height: nat)
    requires G.FontShape(font)
    ensures DrawText(l, s, font, width, height).outcome.Ok? <==> forall i :: 0 <= i < |s| ==> s[i] as int < 256
    decreases |s|
  {
    if s != [] {
      var first := DrawChar(l, s[0], font, width, height);
      if first.outcome.Ok? {
        DrawTextSucceeds(first.outcome.value, s[1..], font, width, height);
        assert forall i :: 1 <= i < |s| ==> s[i] == s[1..][i - 1];
      }
    }
  }

  /** Line feeds alone make no calls, however far down they take the
      cursor: each moves it to the left edge one glyph row down. */
  lemma {:induction false} LineFeedsOnly(l: Logger, s: string, font: seq<seq<seq<u8>>>, width: nat, height: nat)
    requires G.FontShape(font)
    requires forall i :: 0 <= i < |s| ==> s[i] == '\n'
    ensures DrawText(l, s, font, width, height)
              == Run([], Ok(if s == [] then l else l.(x := 0, y := l.y + G.CHARACTER_HEIGHT * |s|)))
    decreases |s|
  {
    if s != [] {
      LineFeedsOnly(Newline(l), s[1..], font, width, height);
    }
  }

  /** A cursor on the glyph grid stays on it through any run that does not
      panic. */
  lemma {:induction false} DrawTextKeepsGrid(l: Logger, s: string, font: seq<seq<seq<u8>>>, width: nat, height: nat)
    requires G.FontShape(font) && OnGrid(l) && DrawText(l, s, font, width, height).outcome.Ok?
    ensures OnGrid(DrawText(l, s, font, width, height).outcome.value)
    decreases |s|
  {
    if s != [] {
      DrawCharKeepsGrid(l, s[0], font, width, height);
      var next := DrawChar(l, s[0], font, width, height).outcome.value;
      DrawTextKeepsGrid(next, s[1..], font, width, height);
    }
  }
}
