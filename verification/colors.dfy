/** The framebuffer colour: a packed `0xAARRGGBB` value split into four
    bytes. `devices::framebuffer`, `drivers::framebuffer` and the console in
    `devices::display` each carry an identical copy of this type. */
module Colors {
  import opened Common

  /** The bootloader's `PixelFormat`. The enum is non-exhaustive; `Unknown`
      stands for every layout the drivers do not handle. */
  datatype PixelFormat = Rgb | Bgr | U8 | Unknown(redPosition: u8, greenPosition: u8, bluePosition: u8)

  /** The fields of the bootloader's `FrameBufferInfo` the drivers read. */
  datatype FrameBufferInfo = FrameBufferInfo(width: nat, height: nat, bytesPerPixel: nat, stride: nat, pixelFormat: PixelFormat)

  datatype Color = Color(channel: u8, r: u8, g: u8, b: u8)

  /** The `u32` literal a colour is written as. */
  function Pack(c: Color): (v: u32)
  {
    c.channel * 0x100_0000 + c.r * 0x1_0000 + c.g * 0x100 + c.b
  }

  /** `Color::new` (and `From<u32>`): the channel from bits 24-31, red from
      16-23, green from 8-15 and blue from 0-7. */
  function New(value: u32): (c: Color)
    ensures Pack(c) == value
  {
    var q1, b := value / 0x100, value % 0x100;
    var q2, g := q1 / 0x100, q1 % 0x100;
    var channel, r := q2 / 0x100, q2 % 0x100;
    Color(channel, r, g, b)
  }

  /** Packing and splitting are inverse: every colour is `new` of its own
      hex literal. */
  lemma NewPackRoundTrip(c: Color)
    ensures New(Pack(c)) == c
  {
    var v := Pack(c);
    var x := (c.channel * 0x100 + c.r) * 0x100 + c.g;
    DivMod256(v, x, c.b);
    DivMod256(x, c.channel * 0x100 + c.r, c.g);
    DivMod256(c.channel * 0x100 + c.r, c.channel, c.r);
  }

  /** The byte fields of a colour sit at their positions in its literal. */
  lemma PackBytes(c: Color)
    ensures Pack(c) % 0x100 == c.b && Pack(c) / 0x100 % 0x100 == c.g
    ensures Pack(c) / 0x1_0000 % 0x100 == c.r && Pack(c) / 0x100_0000 == c.channel
  {
    var v := Pack(c);
    var x := (c.channel * 0x100 + c.r) * 0x100 + c.g;
    DivMod256(v, x, c.b);
    DivMod256(x, c.channel * 0x100 + c.r, c.g);
    DivMod65536(v, c.channel * 0x100 + c.r, c.g * 0x100 + c.b);
    DivMod256(c.channel * 0x100 + c.r, c.channel, c.r);
    DivMod16M(v, c.channel, c.r * 0x1_0000 + c.g * 0x100 + c.b);
  }

  /** Division with remainder by 2^8, 2^16 and 2^24 has one answer. */
  lemma DivMod256(n: int, q: int, m: int)
    requires 0 <= m < 0x100 && n == q * 0x100 + m
    ensures n / 0x100 == q && n % 0x100 == m
  {
  }

  lemma DivMod65536(n: int, q: int, m: int)
    requires 0 <= m < 0x1_0000 && n == q * 0x1_0000 + m
    ensures n / 0x1_0000 == q && n % 0x1_0000 == m
  {
  }

  lemma DivMod16M(n: int, q: int, m: int)
    requires 0 <= m < 0x100_0000 && n == q * 0x100_0000 + m
    ensures n / 0x100_0000 == q && n % 0x100_0000 == m
  {
  }

  const BLACK: Color := Color(0x00, 0x00, 0x00, 0x00)
  const WHITE: Color := Color(0x00, 0xff, 0xff, 0xff)
  const RED: Color := Color(0x00, 0xff, 0x47, 0x57)
  const ORANGE: Color := Color(0x00, 0xff, 0x82, 0x00)
  const GREEN: Color := Color(0x00, 0x46, 0xc9, 0x3a)

  /** The named colours are written as these hex literals, so each is
      `Color::new` of its literal by `NewPackRoundTrip`. */
  lemma NamedColorLiterals()
    ensures Pack(BLACK) == 0x0000_0000 && Pack(WHITE) == 0x00ff_ffff
  {
  }

  /** The same for the log-level colours. */
  lemma LevelColorLiterals()
    ensures Pack(RED) == 0x00ff_4757 && Pack(ORANGE) == 0x00ff_8200 && Pack(GREEN) == 0x0046_c93a
  {
  }

  /** `gray`: the sum of the thirds of red, blue and green, each third
      rounded down, so at most two below the rounded-down mean. */
  function Gray(c: Color): (g: u8)
    ensures g <= (c.r + c.g + c.b) / 3 <= g + 2
  {
    c.r / 3 + c.b / 3 + c.g / 3
  }

  const UNIMPLEMENTED_FORMAT: string := "unimplemented pixel format"

  /** `to_bytes`: the four bytes of one pixel in the framebuffer's layout;
      any format other than RGB, BGR and grey panics. */
  function ToBytes(c: Color, format: PixelFormat): (r: Outcome<seq<u8>>)
    ensures r.Ok? <==> !format.Unknown?
    ensures r.Ok? ==> |r.value| == 4
    ensures format == U8 ==> r == Ok([Gray(c), Gray(c), Gray(c), 0])
  {
    match format
    case Rgb => Ok([c.r, c.g, c.b, c.channel])
    case Bgr => Ok([c.b, c.g, c.r, c.channel])
    case U8 => Ok([Gray(c), Gray(c), Gray(c), 0])
    case Unknown(_, _, _) => Panic(UNIMPLEMENTED_FORMAT)
  }

  /** `color.to_bytes(format)[..bpp]`: the first `bpp` bytes of the pixel.
      It panics for an unhandled format and for more than four bytes per
      pixel. */
  function PixelBytes(c: Color, format: PixelFormat, bpp: nat): (r: Outcome<seq<u8>>)
    ensures r.Ok? <==> !format.Unknown? && bpp <= 4
    ensures r.Ok? ==> |r.value| == bpp && r.value <= ToBytes(c, format).value
  {
    match ToBytes(c, format)
    case Panic(m) => Panic(m)
    case Ok(bytes) => if bpp > |bytes| then Panic(SLICE_END_OUT_OF_RANGE) else Ok(bytes[..bpp])
  }

  /** In terms of the packed value: RGB emits bytes 2, 1, 0, 3 of the
      literal and BGR emits bytes 0, 1, 2, 3, i.e. BGR is the little-endian
      encoding of the literal and RGB swaps its red and blue bytes. */
  lemma ToBytesOfValue(v: u32)
    ensures var c := New(v);
            && ToBytes(c, Bgr) == Ok([v % 0x100, (v / 0x100) % 0x100, (v / 0x1_0000) % 0x100, v / 0x100_0000])
            && ToBytes(c, Rgb) == Ok([(v / 0x1_0000) % 0x100, (v / 0x100) % 0x100, v % 0x100, v / 0x100_0000])
  {
    PackBytes(New(v));
  }

  /** `calculate` inside `intensity`: `value * intensity / 255` in `u16`,
      which cannot overflow (255 * 255 < 65536). */
  function Scale(value: u8, intensity: u8): (s: u8)
    ensures s * 255 <= value * intensity < (s + 1) * 255
    ensures s <= value
  {
    MulLeq(value, intensity, 255);
    (value * intensity) / 255
  }

  /** `intensity`: red, green and blue scaled by `intensity / 255`, the
      channel byte kept. */
  function Intensity(c: Color, intensity: u8): (d: Color)
    ensures d.channel == c.channel
    ensures d.r * 255 <= c.r * intensity < (d.r + 1) * 255
    ensures d.g * 255 <= c.g * intensity < (d.g + 1) * 255
    ensures d.b * 255 <= c.b * intensity < (d.b + 1) * 255
    ensures d.r == Scale(c.r, intensity) && d.g == Scale(c.g, intensity) && d.b == Scale(c.b, intensity)
    ensures d.r <= c.r && d.g <= c.g && d.b <= c.b
    ensures intensity == 255 ==> d == c
    ensures intensity == 0 ==> d == c.(r := 0, g := 0, b := 0)
  {
    c.(r := Scale(c.r, intensity), g := Scale(c.g, intensity), b := Scale(c.b, intensity))
  }

  /** A brighter intensity never gives a darker component. */
  lemma ScaleMonotone(value: u8, i: u8, j: u8)
    requires i <= j
    ensures Scale(value, i) <= Scale(value, j)
  {
    MulLeq(value, i, j);
  }

  /** The cases of the `color_from` test: a packed value and the colour
      it splits into. */
  const COLOR_FROM_CASES: seq<(u32, Color)> := [
    (0x0000_0000, Color(0x00, 0x00, 0x00, 0x00)),
    (0xff00_0000, Color(0xff, 0x00, 0x00, 0x00)),
    (0x00ff_0000, Color(0x00, 0xff, 0x00, 0x00)),
    (0x0000_ff00, Color(0x00, 0x00, 0xff, 0x00)),
    (0x0000_00ff, Color(0x00, 0x00, 0x00, 0xff))
  ]

  /** Each case's colour is written as the case's value. */
  lemma ColorFromCasePacks(n: nat)
    requires n < |COLOR_FROM_CASES|
    ensures Pack(COLOR_FROM_CASES[n].1) == COLOR_FROM_CASES[n].0
  {
    if n == 0 {
    } else if n == 1 {
    } else if n == 2 {
    } else if n == 3 {
    } else {
    }
  }

  /** The `color_from` test. */
  lemma ColorFromExample(n: nat)
    requires n < |COLOR_FROM_CASES|
    ensures New(COLOR_FROM_CASES[n].0) == COLOR_FROM_CASES[n].1
  {
    ColorFromCasePacks(n);
    NewPackRoundTrip(COLOR_FROM_CASES[n].1);
  }

  /** The `color_to_bytes` and `color_to_bytes_panic` tests. */
  lemma ColorToBytesExample()
    ensures ToBytes(New(0x1122_3344), Rgb) == Ok([0x22, 0x33, 0x44, 0x11])
    ensures ToBytes(New(0x1122_3344), Bgr) == Ok([0x44, 0x33, 0x22, 0x11])
    ensures ToBytes(New(0x1122_3344), U8) == Ok([0x32, 0x32, 0x32, 0x00])
    ensures ToBytes(New(0x00ff_ffff), Unknown(0, 0, 0)).Panic?
  {
  }

  /** The cases of the `color_intensity` test: an intensity applied to
      `0x007f7f7f` and the packed colour it gives. */
  const COLOR_INTENSITY_CASES: seq<(u8, u32)> := [(0xff, 0x007f_7f7f), (0x7f, 0x003f_3f3f), (0x00, 0x0000_0000)]

  /** The `color_intensity` test. */
  lemma ColorIntensityExample(v: u32, i: u8, expected: u32)
    requires v == 0x007f_7f7f && (i, expected) in COLOR_INTENSITY_CASES
    ensures Intensity(New(v), i) == New(expected)
  {
    NewPackRoundTrip(Color(0, 0x7f, 0x7f, 0x7f));
    assert New(v) == Color(0, 0x7f, 0x7f, 0x7f);
    var e := if i == 0xff then Color(0, 0x7f, 0x7f, 0x7f) else if i == 0x7f then Color(0, 0x3f, 0x3f, 0x3f) else Color(0, 0, 0, 0);
    assert Scale(0x7f, i) == e.r;
    assert Pack(e) == expected;
    NewPackRoundTrip(e);
  }

  /** Black's bytes are zero in every handled format. */
  lemma BlackBytesZero(format: PixelFormat)
    requires !format.Unknown?
    ensures ToBytes(BLACK, format) == Ok([0, 0, 0, 0])
  {
    match format
    case Rgb =>
    case Bgr =>
    case U8 => assert Gray(BLACK) == 0;
  }

  /** Black's pixel bytes are all zero, in every format that has them. */
  lemma BlackPixelBytes(format: PixelFormat, bpp: nat, i: nat)
    requires PixelBytes(BLACK, format, bpp).Ok? && i < bpp
    ensures PixelBytes(BLACK, format, bpp).value[i] == 0
  {
    var bytes := ToBytes(BLACK, format).value;
    match format
    case Rgb => assert bytes == [0, 0, 0, 0];
    case Bgr => assert bytes == [0, 0, 0, 0];
    case U8 => assert Gray(BLACK) == 0;
  }

  /** White's grey is full and black's is zero. */
  lemma GrayExtremes()
    ensures Gray(WHITE) == 0xff && Gray(BLACK) == 0
  {
  }
}

/** The older kernel console colour: red, green and blue only. */
module RgbColors {
  import opened Common
  import Colors

  datatype RgbColor = RgbColor(red: u8, green: u8, blue: u8)

  /** `Color::new` (and `From<u32>`): red from bits 16-23, green from 8-15,
      blue from 0-7; the top byte is ignored. */
  function New(value: u32): (c: RgbColor)
    ensures c.red * 0x1_0000 + c.green * 0x100 + c.blue == value % 0x100_0000
  {
    var c := Colors.New(value);
    RgbColor(c.r, c.g, c.b)
  }

  const BLACK: RgbColor := RgbColor(0x00, 0x00, 0x00)
  const WHITE: RgbColor := RgbColor(0xff, 0xff, 0xff)

  /** `gray`: the same sum of truncated thirds as the ARGB colour's. */
  function Gray(c: RgbColor): (g: u8)
    ensures g <= (c.red + c.green + c.blue) / 3 <= g + 2
  {
    c.red / 3 + c.blue / 3 + c.green / 3
  }

  /** `rgb_bytes`: red, green, blue, then a zero byte. */
  function RgbBytes(c: RgbColor): (r: seq<u8>)
    ensures |r| == 4 && r[3] == 0
  {
    [c.red, c.green, c.blue, 0]
  }

  /** `bgr_bytes`: blue, green, red, then a zero byte. */
  function BgrBytes(c: RgbColor): (r: seq<u8>)
    ensures |r| == 4 && r[3] == 0
  {
    [c.blue, c.green, c.red, 0]
  }

  /** The RGB-only colour agrees with the ARGB one whose channel byte is
      zero: the same grey, and the same RGB and BGR pixel bytes. The top
      byte of the value makes no difference. */
  lemma AgreesWithArgb(value: u32)
    ensures New(value) == New(value % 0x100_0000)
    ensures var argb := Colors.New(value % 0x100_0000);
            && argb.channel == 0
            && Colors.ToBytes(argb, Colors.Rgb) == Ok(RgbBytes(New(value)))
            && Colors.ToBytes(argb, Colors.Bgr) == Ok(BgrBytes(New(value)))
            && Colors.Gray(argb) == Gray(New(value))
  {
    var c := Colors.New(value);
    var low := Colors.Color(0, c.r, c.g, c.b);
    Colors.DivMod16M(value, c.channel, Colors.Pack(low));
    Colors.NewPackRoundTrip(low);
  }

  /** White's grey is full and black's is zero. */
  lemma RgbGrayExtremes()
    ensures Gray(WHITE) == 255 && Gray(BLACK) == 0
  {
  }
}
