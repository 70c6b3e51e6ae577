/** Pixel stores into a linear framebuffer. Every driver in the kernel
    writes whole pixels: the bytes of point (x, y) start at byte
    `(y * stride + x) * bpp`, i.e. at `bpp` times the point's pixel index,
    and a store copies exactly `bpp` bytes there. A store whose bytes run
    past the end of the buffer panics, as Rust's slice indexing does. */
module PixelWrites {
  import opened Common

  /** `a * b`, by repeated addition. Pixel arithmetic multiplies unknowns by
      unknowns (a row by the stride, a pixel index by the bytes per pixel);
      written this way the products stay ordinary terms for the solver,
      and `TimesIsProduct` says they are the products. */
  function Times(a: nat, b: nat): nat
  {
    if a == 0 then 0 else Times(a - 1, b) + b
  }

  lemma {:induction false} TimesIsProduct(a: nat, b: nat)
    ensures Times(a, b) == a * b
  {
    if a > 0 {
      TimesIsProduct(a - 1, b);
    }
  }

  /** Multiplication distributes over a sum on the left. The sum is named
      by the caller, so that the conclusion speaks of the caller's own
      term. */
  lemma {:induction false} TimesAdd(s: nat, a: nat, b: nat, c: nat)
    requires s == a + b
    ensures Times(s, c) == Times(a, c) + Times(b, c)
    decreases b
  {
    if b > 0 {
      TimesAdd(s - 1, a, b - 1, c);
    }
  }

  /** Multiplication is monotone in its left factor. */
  lemma TimesMonotone(a: nat, b: nat, c: nat)
    requires a <= b
    ensures Times(a, c) <= Times(b, c)
  {
    TimesAdd(b, a, b - a, c);
  }

  /** `k / d` and `k % d`, by repeated subtraction, for the same reason. */
  function Quot(k: nat, d: nat): nat
    requires d > 0
    decreases k
  {
    if k < d then 0 else Quot(k - d, d) + 1
  }

  function Rem(k: nat, d: nat): (m: nat)
    requires d > 0
    ensures m < d
    decreases k
  {
    if k < d then k else Rem(k - d, d)
  }

  /** Every number is its quotient times the divisor plus its remainder. */
  lemma {:induction false} QuotRem(k: nat, d: nat)
    requires d > 0
    ensures k == Times(Quot(k, d), d) + Rem(k, d)
    decreases k
  {
    if k >= d {
      QuotRem(k - d, d);
      assert Times(Quot(k - d, d) + 1, d) == Times(Quot(k - d, d), d) + d;
    }
  }

  /** Division with remainder has one answer. */
  lemma {:induction false} QuotRemUnique(k: nat, d: nat, q: nat, m: nat)
    requires d > 0 && m < d && k == Times(q, d) + m
    ensures Quot(k, d) == q && Rem(k, d) == m
    decreases q
  {
    if q > 0 {
      QuotRemUnique(k - d, d, q - 1, m);
    }
  }

  /** One store: the pixel index and the bytes copied there. */
  datatype PixelWrite = PixelWrite(pixel: nat, bytes: seq<u8>)

  /** The pixel index of point (x, y) in a buffer `stride` pixels wide. */
  function PixelIndex(stride: nat, x: nat, y: nat): nat {
    Times(y, stride) + x
  }

  /** `offset(stride, bpp, point)`: the first byte of the point's pixel. */
  function Offset(stride: nat, bpp: nat, x: nat, y: nat): nat {
    Times(PixelIndex(stride, x, y), bpp)
  }

  /** `offset` is the source's `(y * stride + x) * bpp`. */
  lemma OffsetIsProduct(stride: nat, bpp: nat, x: nat, y: nat)
    ensures Offset(stride, bpp, x, y) == (y * stride + x) * bpp
  {
    TimesIsProduct(y, stride);
    TimesIsProduct(PixelIndex(stride, x, y), bpp);
  }

  /** The offset of a point is its pixel index times `bpp`, whatever name
      the index goes by. */
  lemma OffsetOfPixel(stride: nat, bpp: nat, x: nat, y: nat, n: nat)
    requires n == PixelIndex(stride, x, y)
    ensures Times(n, bpp) == Offset(stride, bpp, x, y)
  {
  }

  /** Moving `dx` pixels right moves the offset by `dx * bpp` bytes. */
  lemma OffsetColumns(stride: nat, bpp: nat, x: nat, dx: nat, y: nat)
    ensures Offset(stride, bpp, x + dx, y) == Offset(stride, bpp, x, y) + Times(dx, bpp)
  {
    TimesAdd(PixelIndex(stride, x + dx, y), PixelIndex(stride, x, y), dx, bpp);
  }

  /** Moving one row down moves the offset by `stride * bpp` bytes. */
  lemma OffsetRows(stride: nat, bpp: nat, x: nat, y: nat)
    ensures Offset(stride, bpp, x, y + 1) == Offset(stride, bpp, x, y) + Times(stride, bpp)
  {
    NextRow(stride, x, y);
    TimesAdd(PixelIndex(stride, x, y + 1), PixelIndex(stride, x, y), stride, bpp);
  }

  /** The pixel one row down is `stride` pixels further on. */
  lemma NextRow(stride: nat, x: nat, y: nat)
    ensures PixelIndex(stride, x, y + 1) == PixelIndex(stride, x, y) + stride
  {
  }

  /** A point of a screen `height` rows tall, left of the stride, has all
      its bytes inside a buffer that holds every row. */
  lemma PixelInBuffer(stride: nat, bpp: nat, height: nat, x: nat, y: nat, len: nat)
    requires x < stride && y < height
    requires len >= height * stride * bpp
    ensures Offset(stride, bpp, x, y) + bpp <= len
  {
    var n := PixelIndex(stride, x, y);
    assert Times(y + 1, stride) == Times(y, stride) + stride;
    TimesMonotone(y + 1, height, stride);
    TimesAdd(n + 1, n, 1, bpp);
    assert Times(1, bpp) == bpp;
    TimesMonotone(n + 1, Times(height, stride), bpp);
    TimesIsProduct(height, stride);
    TimesIsProduct(Times(height, stride), bpp);
  }

  /** Within rows of `stride` pixels, distinct points have distinct pixel
      indices. */
  lemma PixelIndexInjective(stride: nat, x1: nat, y1: nat, x2: nat, y2: nat)
    requires x1 < stride && x2 < stride
    ensures PixelIndex(stride, x1, y1) == PixelIndex(stride, x2, y2) <==> x1 == x2 && y1 == y2
  {
    QuotRemUnique(PixelIndex(stride, x1, y1), stride, y1, x1);
    QuotRemUnique(PixelIndex(stride, x2, y2), stride, y2, x2);
  }

  /** Every store carries exactly one pixel's worth of bytes. */
  predicate Sized(ws: seq<PixelWrite>, bpp: nat) {
    forall i :: 0 <= i < |ws| ==> |ws[i].bytes| == bpp
  }

  /** Every store lies inside a buffer of `len` bytes. */
  predicate Fits(ws: seq<PixelWrite>, bpp: nat, len: nat) {
    forall i :: 0 <= i < |ws| ==> Times(ws[i].pixel, bpp) + bpp <= len
  }

  /** The position of the last store to pixel `n`, if any. */
  function LastWriteTo(ws: seq<PixelWrite>, n: nat): (k: Option<nat>)
    ensures k.Some? ==> k.value < |ws| && ws[k.value].pixel == n
    ensures k.Some? ==> forall j :: k.value < j < |ws| ==> ws[j].pixel != n
    ensures k.None? ==> forall j :: 0 <= j < |ws| ==> ws[j].pixel != n
  {
    if ws == [] then None
    else if ws[|ws| - 1].pixel == n then Some(|ws| - 1)
    else LastWriteTo(ws[..|ws| - 1], n)
  }

  /** What byte `k` holds after the stores: its place in the last store to
      its pixel, or its old value when no store touched that pixel. */
  function AfterStores(buf: seq<u8>, ws: seq<PixelWrite>, bpp: nat, k: nat): u8
    requires Sized(ws, bpp) && bpp > 0 && k < |buf|
  {
    match LastWriteTo(ws, Quot(k, bpp))
    case Some(i) => ws[i].bytes[Rem(k, bpp)]
    case None => buf[k]
  }

  /** Byte `k` lies in the window of pixel `p` exactly when its quotient by
      `bpp` is `p`, at the place its remainder gives. */
  lemma Window(k: nat, p: nat, bpp: nat)
    requires bpp > 0
    ensures Times(p, bpp) <= k < Times(p, bpp) + bpp <==> Quot(k, bpp) == p
    ensures Times(p, bpp) <= k < Times(p, bpp) + bpp ==> k - Times(p, bpp) == Rem(k, bpp)
  {
    if Times(p, bpp) <= k < Times(p, bpp) + bpp {
      QuotRemUnique(k, bpp, p, k - Times(p, bpp));
    }
    QuotRem(k, bpp);
  }

  /** One more store keeps the buffer described by `AfterStores`. */
  lemma StoreStep(buf: seq<u8>, init: seq<PixelWrite>, w: PixelWrite, bpp: nat, b: seq<u8>)
    requires Sized(init, bpp) && |w.bytes| == bpp && bpp > 0
    requires |b| == |buf| && Times(w.pixel, bpp) + bpp <= |b|
    requires forall k :: 0 <= k < |buf| ==> b[k] == AfterStores(buf, init, bpp, k)
    ensures Sized(init + [w], bpp)
    ensures forall k :: 0 <= k < |buf| ==> Splice(b, Times(w.pixel, bpp), w.bytes)[k] == AfterStores(buf, init + [w], bpp, k)
  {
    var ws := init + [w];
    assert ws[..|ws| - 1] == init;
    assert forall i :: 0 <= i < |init| ==> init[i] == ws[i];
    assert Sized(ws, bpp);
    var r := Splice(b, Times(w.pixel, bpp), w.bytes);
    forall k | 0 <= k < |buf|
      ensures r[k] == AfterStores(buf, ws, bpp, k)
    {
      Window(k, w.pixel, bpp);
      if Quot(k, bpp) == w.pixel {
        assert LastWriteTo(ws, Quot(k, bpp)) == Some(|ws| - 1);
        assert r[k] == w.bytes[k - Times(w.pixel, bpp)];
      } else {
        assert LastWriteTo(ws, Quot(k, bpp)) == LastWriteTo(init, Quot(k, bpp));
      }
    }
  }

  /** `buf[start..start + bpp].copy_from_slice(bytes)` for every store in
      order. It completes exactly when every store fits; `StoreAllBytes`
      says what each byte then holds. */
  function StoreAll(buf: seq<u8>, ws: seq<PixelWrite>, bpp: nat): (r: Outcome<seq<u8>>)
    requires Sized(ws, bpp)
    ensures r.Ok? <==> Fits(ws, bpp, |buf|)
    ensures r.Panic? ==> r.message == SLICE_END_OUT_OF_RANGE
    ensures r.Ok? ==> |r.value| == |buf|
    decreases |ws|
  {
    if ws == [] then Ok(buf)
    else
      var init, w := ws[..|ws| - 1], ws[|ws| - 1];
      assert ws == init + [w];
      assert forall i :: 0 <= i < |init| ==> init[i] == ws[i];
      match StoreAll(buf, init, bpp)
      case Panic(m) => Panic(m)
      case Ok(b) =>
        if Times(w.pixel, bpp) + bpp > |b| then Panic(SLICE_END_OUT_OF_RANGE)
        else Ok(Splice(b, Times(w.pixel, bpp), w.bytes))
  }

  /** After the stores complete, each byte holds what the last store to its
      pixel put there, or its old value when no store touched the pixel. */
  lemma {:induction false} StoreAllBytes(buf: seq<u8>, ws: seq<PixelWrite>, bpp: nat)
    requires Sized(ws, bpp) && bpp > 0 && Fits(ws, bpp, |buf|)
    ensures StoreAll(buf, ws, bpp).Ok?
    ensures forall k :: 0 <= k < |buf| ==> StoreAll(buf, ws, bpp).value[k] == AfterStores(buf, ws, bpp, k)
    decreases |ws|
  {
    if ws != [] {
      var init, w := ws[..|ws| - 1], ws[|ws| - 1];
      assert ws == init + [w];
      assert forall i :: 0 <= i < |init| ==> init[i] == ws[i];
      StoreAllBytes(buf, init, bpp);
      var b := StoreAll(buf, init, bpp).value;
      StoreStep(buf, init, w, bpp, b);
    }
  }

  /** `StoreAllBytes` at one byte. */
  lemma StoreAllByte(buf: seq<u8>, ws: seq<PixelWrite>, bpp: nat, k: nat)
    requires Sized(ws, bpp) && bpp > 0 && Fits(ws, bpp, |buf|) && k < |buf|
    ensures StoreAll(buf, ws, bpp).Ok? && StoreAll(buf, ws, bpp).value[k] == AfterStores(buf, ws, bpp, k)
  {
    StoreAllBytes(buf, ws, bpp);
  }

  /** The pixels the stores touch, in order. */
  function Pixels(ws: seq<PixelWrite>): (ps: seq<nat>)
    ensures |ps| == |ws| && forall i :: 0 <= i < |ws| ==> ps[i] == ws[i].pixel
  {
    seq(|ws|, i requires 0 <= i < |ws| => ws[i].pixel)
  }

  /** When every store writes the same bytes (a fill), a byte ends up as its
      place in those bytes if its pixel was stored to and unchanged
      otherwise. */
  lemma UniformStores(buf: seq<u8>, ws: seq<PixelWrite>, bpp: nat, px: seq<u8>, k: nat)
    requires |px| == bpp && bpp > 0 && k < |buf|
    requires forall i :: 0 <= i < |ws| ==> ws[i].bytes == px
    ensures Sized(ws, bpp)
    ensures AfterStores(buf, ws, bpp, k) == if Quot(k, bpp) in Pixels(ws) then px[Rem(k, bpp)] else buf[k]
  {
    var ps := Pixels(ws);
    if Quot(k, bpp) in ps {
      var i :| 0 <= i < |ps| && ps[i] == Quot(k, bpp);
      assert ws[i].pixel == Quot(k, bpp);
    }
  }

  /** A byte whose pixel was last stored to by store `i` holds that store's
      byte at the same place in the window. */
  lemma AfterLastStore(buf: seq<u8>, ws: seq<PixelWrite>, bpp: nat, k: nat, i: nat)
    requires Sized(ws, bpp) && bpp > 0 && k < |buf|
    requires LastWriteTo(ws, Quot(k, bpp)) == Some(i)
    ensures i < |ws| && AfterStores(buf, ws, bpp, k) == ws[i].bytes[Rem(k, bpp)]
  {
  }

  /** When no two stores hit the same pixel, each store is the last one to
      its pixel. */
  lemma OnlyWrite(ws: seq<PixelWrite>, i: nat)
    requires forall a, b :: 0 <= a < b < |ws| ==> ws[a].pixel != ws[b].pixel
    requires i < |ws|
    ensures LastWriteTo(ws, ws[i].pixel) == Some(i)
  {
  }

  /** Byte `j` of a fitting store lies inside the buffer. */
  lemma FitsAt(ws: seq<PixelWrite>, bpp: nat, len: nat, i: nat, j: nat) returns (k: nat)
    requires Fits(ws, bpp, len) && i < |ws| && j < bpp
    ensures k == Times(ws[i].pixel, bpp) + j && k < len
  {
    k := Times(ws[i].pixel, bpp) + j;
  }

  /** When no two stores hit the same pixel, every store's bytes land in its
      pixel: byte `j` of store `i` ends up at `k`, byte `j` of its window. */
  lemma DistinctStoresLand(buf: seq<u8>, ws: seq<PixelWrite>, bpp: nat, i: nat, j: nat) returns (k: nat)
    requires Sized(ws, bpp) && bpp > 0 && Fits(ws, bpp, |buf|)
    requires forall a, b :: 0 <= a < b < |ws| ==> ws[a].pixel != ws[b].pixel
    requires i < |ws| && j < bpp
    ensures k == Times(ws[i].pixel, bpp) + j && k < |buf|
    ensures StoreAll(buf, ws, bpp).Ok? && StoreAll(buf, ws, bpp).value[k] == ws[i].bytes[j]
  {
    k := FitsAt(ws, bpp, |buf|, i, j);
    QuotRemUnique(k, bpp, ws[i].pixel, j);
    OnlyWrite(ws, i);
    AfterLastStore(buf, ws, bpp, k, i);
    StoreAllByte(buf, ws, bpp, k);
  }

  /** A byte of a pixel no store touches keeps its value. */
  lemma UntouchedPixel(buf: seq<u8>, ws: seq<PixelWrite>, bpp: nat, n: nat, j: nat, k: nat)
    requires Sized(ws, bpp) && bpp > 0 && Fits(ws, bpp, |buf|)
    requires forall i :: 0 <= i < |ws| ==> ws[i].pixel != n
    requires j < bpp && k == Times(n, bpp) + j && k < |buf|
    ensures StoreAll(buf, ws, bpp).Ok? && StoreAll(buf, ws, bpp).value[k] == buf[k]
  {
    QuotRemUnique(k, bpp, n, j);
    assert LastWriteTo(ws, n).None?;
    assert AfterStores(buf, ws, bpp, k) == buf[k];
    StoreAllByte(buf, ws, bpp, k);
  }
}
