/**
 remote/src/video_layout.rs: where the video appears in the viewer, and how a
 pointer position becomes a position on the remote screen. Every arithmetic
 result is proved to fit the source's type at that point: `Fits32` for `i32`,
 `Fits64` for `i64`.
 */
module VideoLayout {
  import opened Bytes

  predicate Fits32(n: int) { -0x8000_0000 <= n < 0x8000_0000 }

  predicate Fits64(n: int) { -0x8000_0000_0000_0000 <= n < 0x8000_0000_0000_0000 }

  type I32 = n: int | -0x8000_0000 <= n < 0x8000_0000

  type U32 = n: int | 0 <= n < 0x1_0000_0000

  type U16 = n: int | 0 <= n < 0x1_0000

  datatype VideoRect = VideoRect(left: I32, top: I32, width: I32, height: I32)

  function Max(a: int, b: int): int { if a < b then b else a }

  function Clamp(n: int, low: int, high: int): int { if n < low then low else if n > high then high else n }

  /** `right()` and `bottom()` do not overflow. */
  predicate EdgesFit(r: VideoRect) { Fits32(r.left + r.width) && Fits32(r.top + r.height) }

  // ---- Arithmetic ---------------------------------------------------------

  lemma Products(a: int, b: int, m: int, n: int)
    requires 0 <= a <= m && 0 <= b <= n
    ensures 0 <= a * b <= m * n
  {
    assert m * n - a * b == m * (n - b) + (m - a) * b;
    assert m * (n - b) >= 0 && (m - a) * b >= 0;
  }

  lemma Division(x: int, d: int)
    requires d > 0
    ensures x == d * (x / d) + x % d && 0 <= x % d < d
  {
  }

  lemma QuotientAtMost(x: int, d: int)
    requires x >= 0 && d > 0
    ensures 0 <= x / d <= x
  {
    Division(x, d);
    Products(1, x / d, d, x / d);
  }

  /** `a / d < b` as a product. */
  lemma QuotientBelow(a: int, d: int, b: int)
    requires d > 0
    ensures a / d <= b <==> a < d * (b + 1)
  {
    Division(a, d);
    var q := a / d;
    assert d * (b + 1) - d * q == d * (b + 1 - q);
    if q <= b {
      Products(d, 1, d, b + 1 - q);
    } else {
      Products(d, q - b - 1, d, q - b - 1);
      assert d * (q - b - 1) == -(d * (b + 1 - q));
    }
  }

  predicate Nearest(x: int, d: int, n: int) { 2 * (d * n) - d <= 2 * x < 2 * (d * n) + d }

  lemma Rounding(x: int, d: int)
    requires x >= 0 && d > 0
    ensures Nearest(x, d, (x + d / 2) / d)
  {
    Division(x + d / 2, d);
  }

  // ---- The rectangle ------------------------------------------------------

  type Side = n: int | 1 <= n < 0x8000_0000 witness 1

  type VideoSide = n: int | 1 <= n < 0x1_0000_0000 witness 1

  /** `side * num / den` to the nearest whole number, halves up, with no result outside 64 bits. */
  function Scaled(side: Side, num: VideoSide, den: VideoSide): (n: nat)
    ensures Fits64(side * num) && Fits64(side * num + den / 2) && Fits64(n)
    ensures Nearest(side * num, den, n)
  {
    Products(side, num, 0x7fff_ffff, 0xffff_ffff);
    Rounding(side * num, den);
    QuotientAtMost(side * num + den / 2, den);
    (side * num + den / 2) / den
  }

  /** The side left over: the other video side scaled, kept within the area. */
  function OtherSide(side: Side, num: VideoSide, den: VideoSide, room: Side): (n: Side)
    ensures n <= room
  {
    hide Nearest;
    Clamp(Scaled(side, num, den), 1, room)
  }

  /** `letterbox`. */
  function Letterbox(area: VideoRect, videoWidth: U32, videoHeight: U32): VideoRect
    requires EdgesFit(area)
  {
    var aw: Side, ah: Side := Max(area.width, 1), Max(area.height, 1);
    var vw: VideoSide, vh: VideoSide := Max(videoWidth, 1), Max(videoHeight, 1);
    if aw * vh <= ah * vw then
      var h := OtherSide(aw, vh, vw, ah);
      VideoRect(area.left, area.top + (ah - h) / 2, aw, h)
    else
      var w := OtherSide(ah, vw, vh, aw);
      VideoRect(area.left + (aw - w) / 2, area.top, w, ah)
  }

  /** The rounded side needs no cutting down, and only a side below half a pixel is raised to 1. */
  lemma OtherSideNearest(side: Side, num: VideoSide, den: VideoSide, room: Side)
    requires side * num <= room * den
    ensures var n := OtherSide(side, num, den, room);
            Nearest(side * num, den, n) || (n == 1 && 2 * (side * num) < den)
  {
    var n := Scaled(side, num, den);
    if n > room {
      assert den * n - den * room == den * (n - room);
      Products(den, 1, den, n - room);
      assert false;
    }
    assert n == 0 ==> den * n == 0;
  }

  /** The spare room on the two sides of an axis, `before` and `after`, is shared to within a pixel. */
  predicate Centred(start: int, room: int, at: int, size: int) {
    var before, after := at - start, (start + room) - (at + size);
    0 <= before <= after <= before + 1
  }

  /**
   For every area and video size: the rectangle lies in the area, centred, and
   fills the axis with less room; the other side is the exact one to within
   half a pixel, or one pixel if that would be less than half of one.
   */
  lemma LetterboxFits(area: VideoRect, videoWidth: U32, videoHeight: U32)
    requires EdgesFit(area)
    ensures var r := Letterbox(area, videoWidth, videoHeight);
            var aw, ah := Max(area.width, 1), Max(area.height, 1);
            var vw, vh := Max(videoWidth, 1), Max(videoHeight, 1);
            && r.width >= 1 && r.height >= 1
            && Centred(area.left, aw, r.left, r.width) && Centred(area.top, ah, r.top, r.height)
            && Fits64(aw * vh) && Fits64(ah * vw)
            && (aw * vh <= ah * vw ==>
                  r.width == aw && (Nearest(aw * vh, vw, r.height) || (r.height == 1 && 2 * (aw * vh) < vw)))
            && (aw * vh > ah * vw ==>
                  r.height == ah && (Nearest(ah * vw, vh, r.width) || (r.width == 1 && 2 * (ah * vw) < vh)))
  {
    hide OtherSide, Nearest;
    var aw: Side, ah: Side := Max(area.width, 1), Max(area.height, 1);
    var vw: VideoSide, vh: VideoSide := Max(videoWidth, 1), Max(videoHeight, 1);
    Products(aw, vh, 0x7fff_ffff, 0xffff_ffff);
    Products(ah, vw, 0x7fff_ffff, 0xffff_ffff);
    if aw * vh <= ah * vw {
      OtherSideNearest(aw, vh, vw, ah);
    } else {
      OtherSideNearest(ah, vw, vh, aw);
    }
  }

  /** In an area of at least one pixel the rectangle's own edges fit 32 bits and lie within the area's. */
  lemma LetterboxInside(area: VideoRect, videoWidth: U32, videoHeight: U32)
    requires EdgesFit(area) && area.width >= 1 && area.height >= 1
    ensures var r := Letterbox(area, videoWidth, videoHeight);
            && EdgesFit(r)
            && area.left <= r.left <= r.left + r.width <= area.left + area.width
            && area.top <= r.top <= r.top + r.height <= area.top + area.height
  {
    hide Letterbox, Nearest;
    LetterboxFits(area, videoWidth, videoHeight);
  }

  /** A video of the area's own shape fills it. */
  lemma ExactFit(area: VideoRect, videoWidth: U32, videoHeight: U32)
    requires EdgesFit(area) && area.width >= 1 && area.height >= 1
    requires area.width * Max(videoHeight, 1) == area.height * Max(videoWidth, 1)
    ensures Letterbox(area, videoWidth, videoHeight) == area
  {
    hide Letterbox;
    LetterboxFits(area, videoWidth, videoHeight);
    var r := Letterbox(area, videoWidth, videoHeight);
    var d, h := Max(videoWidth, 1), area.height;
    Products(1, d, h, d);
    if r.height < h {
      assert d * h - d * r.height == d * (h - r.height);
      Products(d, 1, d, h - r.height);
    }
  }

  // ---- Pointer positions --------------------------------------------------

  function SaturatingSub(a: I32, b: I32): I32 { Clamp(a - b, -0x8000_0000, 0x7fff_ffff) }

  /** How far along an axis of `last + 1` pixels a pixel is, in 65535ths. */
  function Fraction(offset: nat, last: nat): int { offset * 65_535 / Max(last, 1) }

  lemma FractionAtMost(offset: nat, last: nat, n: int)
    ensures Fraction(offset, last) <= n <==> offset * 65_535 < Max(last, 1) * (n + 1)
  {
    QuotientBelow(offset * 65_535, Max(last, 1), n);
  }

  lemma FractionInRange(offset: nat, last: nat)
    requires offset <= last
    ensures 0 <= Fraction(offset, last) <= 65_535
  {
    hide Fraction;
    FractionAtMost(offset, last, 65_535);
    FractionAtMost(offset, last, -1);
  }

  /** The fraction grows with the pixel, and with each pixel if there are at most 65536. */
  lemma FractionGrows(p: nat, q: nat, last: nat)
    requires p < q <= last
    ensures Fraction(p, last) <= Fraction(q, last)
    ensures last <= 65_535 ==> Fraction(p, last) < Fraction(q, last)
  {
    hide Fraction;
    var f := Fraction(q, last);
    FractionAtMost(q, last, f);
    FractionAtMost(p, last, f);
    FractionAtMost(p, last, f - 1);
    assert last * (f + 1) == last * f + last;
  }

  lemma FractionEnds(last: nat)
    ensures Fraction(0, last) == 0
    ensures last >= 1 ==> Fraction(last, last) == 65_535
    ensures last > 65_535 ==> Fraction(1, last) == 0
  {
    hide Fraction;
    var d := Max(last, 1);
    assert d * 0 == 0 && d * 1 == d;
    FractionAtMost(0, last, 0);
    FractionAtMost(0, last, -1);
    FractionAtMost(1, last, 0);
    FractionAtMost(1, last, -1);
    FractionAtMost(last, last, 65_535);
    FractionAtMost(last, last, 65_534);
  }

  function Last(length: I32): (n: nat)
    ensures n < 0x7fff_ffff
  {
    Max(length, 1) - 1
  }

  function Offset(position: I32, start: I32, length: I32): (n: nat)
    ensures n == Clamp(position - start, 0, Last(length)) <= Last(length) && Fits64(n * 65_535)
  {
    Clamp(SaturatingSub(position, start), 0, Last(length))
  }

  /** One axis of `normalize_clamped`. */
  function Axis(position: I32, start: I32, length: I32): (u: U16)
  {
    hide Fraction;
    var offset := Offset(position, start, length);
    FractionInRange(offset, Last(length));
    Fraction(offset, Last(length))
  }

  /** Going right or down never goes left or up on the remote screen. */
  lemma AxisMonotone(p: I32, q: I32, start: I32, length: I32)
    requires p <= q
    ensures Axis(p, start, length) <= Axis(q, start, length)
  {
    hide Fraction;
    var a, b := Offset(p, start, length), Offset(q, start, length);
    if a < b {
      FractionGrows(a, b, Last(length));
    }
  }

  /** An axis of at least two pixels reaches both ends of the remote screen. */
  lemma AxisEnds(start: I32, length: I32)
    requires length >= 2 && Fits32(start + length)
    ensures Axis(start, start, length) == 0 && Axis(start + length - 1, start, length) == 65_535
  {
    hide Fraction;
    FractionEnds(length - 1);
  }

  /** Different pixels of an axis go to different positions exactly when it has at most 65536 pixels. */
  lemma AxisInjective(start: I32, length: I32)
    requires length >= 1 && Fits32(start + length)
    ensures length <= 65_536 <==> Separates(start, length)
  {
    hide Fraction;
    if length <= 65_536 {
      forall p: I32, q: I32 | start <= p < q < start + length ensures Axis(p, start, length) < Axis(q, start, length) {
        FractionGrows(p - start, q - start, length - 1);
      }
    } else {
      FractionEnds(length - 1);
      var next: I32 := start + 1;
      assert Axis(start, start, length) == Axis(next, start, length);
    }
  }

  ghost predicate Separates(start: I32, length: I32) {
    forall p: I32, q: I32 :: start <= p < q < start + length ==> Axis(p, start, length) < Axis(q, start, length)
  }

  predicate Inside(video: VideoRect, x: int, y: int) {
    video.left <= x < video.left + video.width && video.top <= y < video.top + video.height
  }

  function NormalizeClamped(video: VideoRect, x: I32, y: I32): (U16, U16) {
    (Axis(x, video.left, video.width), Axis(y, video.top, video.height))
  }

  function Normalize(video: VideoRect, x: I32, y: I32): Option<(U16, U16)>
    requires EdgesFit(video)
  {
    if x < video.left || x >= video.left + video.width || y < video.top || y >= video.top + video.height then None
    else Some(NormalizeClamped(video, x, y))
  }

  /** The pixel of `video` nearest to a point. */
  function NearestPixel(video: VideoRect, x: I32, y: I32): (p: (I32, I32))
    requires EdgesFit(video) && video.width >= 1 && video.height >= 1
    ensures Inside(video, p.0, p.1)
  {
    (Clamp(x, video.left, video.left + video.width - 1), Clamp(y, video.top, video.top + video.height - 1))
  }

  /** The clamped form is the plain form at the nearest pixel, so the two agree inside; the plain form refuses exactly the outside. */
  lemma ClampedIsNearest(video: VideoRect, x: I32, y: I32)
    requires EdgesFit(video) && video.width >= 1 && video.height >= 1
    ensures var (px, py) := NearestPixel(video, x, y);
            Normalize(video, px, py) == Some(NormalizeClamped(video, x, y))
    ensures Normalize(video, x, y) == if Inside(video, x, y) then Some(NormalizeClamped(video, x, y)) else None
  {
    hide Fraction;
    var (px, py) := NearestPixel(video, x, y);
    assert Offset(px, video.left, video.width) == Offset(x, video.left, video.width);
    assert Offset(py, video.top, video.height) == Offset(y, video.top, video.height);
  }

  /**
   On the rectangle drawn, for any area of at least one pixel: the corners go
   to the corners of the remote screen, and two pixels that differ go to
   positions that differ if it has at most 65536 pixels a side.
   */
  lemma PointerOnLetterbox(area: VideoRect, videoWidth: U32, videoHeight: U32, x: I32, y: I32, x': I32, y': I32)
    requires EdgesFit(area) && area.width >= 1 && area.height >= 1
    ensures var r := Letterbox(area, videoWidth, videoHeight);
            && EdgesFit(r)
            && (r.width >= 2 && r.height >= 2 ==>
                  && Normalize(r, r.left, r.top) == Some((0, 0))
                  && Normalize(r, r.left + r.width - 1, r.top + r.height - 1) == Some((65_535, 65_535)))
            && (Inside(r, x, y) && Inside(r, x', y') && r.width <= 65_536 && r.height <= 65_536 ==>
                  (Normalize(r, x, y) == Normalize(r, x', y') <==> x == x' && y == y'))
  {
    hide Letterbox, Axis;
    LetterboxInside(area, videoWidth, videoHeight);
    var r := Letterbox(area, videoWidth, videoHeight);
    if r.width >= 2 && r.height >= 2 {
      AxisEnds(r.left, r.width);
      AxisEnds(r.top, r.height);
    }
    if Inside(r, x, y) && Inside(r, x', y') {
      AxisInjective(r.left, r.width);
      AxisInjective(r.top, r.height);
    }
  }

  // ---- Scaling down -------------------------------------------------------

  function ToI32(n: U32): (r: Side) { Clamp(n, 1, 0x7fff_ffff) }

  /** `fit_within`. */
  function FitWithin(videoWidth: U32, videoHeight: U32, maxWidth: I32, maxHeight: I32): (I32, I32) {
    var vw, vh := ToI32(videoWidth), ToI32(videoHeight);
    if vw <= maxWidth && vh <= maxHeight then (vw, vh)
    else
      var r := Letterbox(VideoRect(0, 0, Max(maxWidth, 1), Max(maxHeight, 1)), vw, vh);
      (r.width, r.height)
  }

  lemma NearestAtMost(x: int, d: int, n: int, m: int)
    requires d > 0 && Nearest(x, d, n) && x <= d * m
    ensures n <= m
  {
    if n > m {
      assert d * n - d * m == d * (n - m);
      Products(d, 1, d, n - m);
    }
  }

  lemma SideShrinks(side: int, num: int, room: int, den: int)
    requires side >= 1 && num >= 1 && room >= 1 && den >= 1
    requires side * num <= room * den && (den >= side || num >= room)
    ensures side <= den && side * num <= den * num
  {
    if side > den {
      Products(room, den + 1, num, side);
    }
    Products(side, num, den, num);
  }

  /** The size shown fits the space, has at least one pixel each way and is never larger than the video. */
  lemma FitShrinks(videoWidth: U32, videoHeight: U32, maxWidth: I32, maxHeight: I32)
    ensures var (w, h) := FitWithin(videoWidth, videoHeight, maxWidth, maxHeight);
            var vw, vh := ToI32(videoWidth), ToI32(videoHeight);
            && 1 <= w <= Max(maxWidth, 1) && 1 <= h <= Max(maxHeight, 1)
            && w <= vw && h <= vh
            && (vw <= maxWidth && vh <= maxHeight <==> (w, h) == (vw, vh) && maxWidth >= 1 && maxHeight >= 1)
  {
    hide Letterbox, Nearest;
    var vw, vh := ToI32(videoWidth), ToI32(videoHeight);
    var mw, mh := Max(maxWidth, 1), Max(maxHeight, 1);
    var area := VideoRect(0, 0, mw, mh);
    LetterboxFits(area, vw, vh);
    LetterboxInside(area, vw, vh);
    var r := Letterbox(area, vw, vh);
    if !(vw <= maxWidth && vh <= maxHeight) {
      if mw * vh <= mh * vw {
        SideShrinks(mw, vh, mh, vw);
        if r.height > 1 {
          NearestAtMost(mw * vh, vw, r.height, vh);
        }
      } else {
        SideShrinks(mh, vw, mw, vh);
        if r.width > 1 {
          NearestAtMost(mh * vw, vh, r.width, vw);
        }
      }
    }
  }
}
