/** Pixels and lines of the frame buffer painter. */
module Graphics {
  import opened Machine

  /** Colours are 0xAARRGGBB words. */
  function Alpha(c: nat): nat { c / 0x100_0000 % 256 }
  function Red(c: nat): nat { c / 0x1_0000 % 256 }
  function Green(c: nat): nat { c / 0x100 % 256 }
  function Blue(c: nat): nat { c % 256 }

  function Mix(alpha: nat, src: nat, dst: nat): nat
    requires alpha < 256
  {
    Product(alpha, src);
    Product(255 - alpha, dst);
    (alpha * src + (255 - alpha) * dst) / 255
  }

  /** Alpha blending of `color` over the word `dst`. */
  function Blend(color: nat, dst: nat): nat
  {
    var a := Alpha(color);
    Mix(a, Red(color), Red(dst)) * 0x1_0000 + Mix(a, Green(color), Green(dst)) * 0x100 + Mix(a, Blue(color), Blue(dst))
  }

  predicate Between(x: int, a: int, b: int)
  {
    if a <= b then a <= x <= b else b <= x <= a
  }

  lemma Product(a: nat, b: nat)
    ensures a * b >= 0
  {
  }

  /** The blended value is the weighted mean of the two, rounded down. */
  lemma MixIsMean(alpha: nat, src: nat, dst: nat)
    requires alpha < 256
    ensures 255 * Mix(alpha, src, dst) <= alpha * src + (255 - alpha) * dst < 255 * Mix(alpha, src, dst) + 255
  {
    var n := alpha * src + (255 - alpha) * dst;
    assert Mix(alpha, src, dst) == n / 255;
  }

  lemma MixBetween(alpha: nat, src: nat, dst: nat)
    requires alpha < 256
    ensures Between(Mix(alpha, src, dst), src, dst)
    ensures alpha == 255 ==> Mix(alpha, src, dst) == src
    ensures alpha == 0 ==> Mix(alpha, src, dst) == dst
  {
    var n := alpha * src + (255 - alpha) * dst;
    if src <= dst {
      Product(alpha, dst - src);
      Product(255 - alpha, dst - src);
      assert n == 255 * src + (255 - alpha) * (dst - src) == 255 * dst - alpha * (dst - src);
    } else {
      Product(alpha, src - dst);
      Product(255 - alpha, src - dst);
      assert n == 255 * dst + alpha * (src - dst) == 255 * src - (255 - alpha) * (src - dst);
    }
    assert Mix(alpha, src, dst) == n / 255;
  }

  lemma Compose(r: nat, g: nat, b: nat)
    requires r < 256 && g < 256 && b < 256
    ensures var c := r * 0x1_0000 + g * 0x100 + b;
            Alpha(c) == 0 && Red(c) == r && Green(c) == g && Blue(c) == b && c < 0x100_0000
  {
  }

  /** Every channel of a blended pixel lies between the two it comes from; an
      opaque colour replaces them, a transparent one keeps them. */
  lemma BlendBetween(color: nat, dst: nat)
    ensures var r := Blend(color, dst);
            && 0 <= r < 0x100_0000
            && Between(Red(r), Red(color), Red(dst))
            && Between(Green(r), Green(color), Green(dst))
            && Between(Blue(r), Blue(color), Blue(dst))
            && (Alpha(color) == 255 ==> r == color % 0x100_0000)
            && (Alpha(color) == 0 ==> r == dst % 0x100_0000)
  {
    hide Mix;
    var a := Alpha(color);
    MixBetween(a, Red(color), Red(dst));
    MixBetween(a, Green(color), Green(dst));
    MixBetween(a, Blue(color), Blue(dst));
    Compose(Mix(a, Red(color), Red(dst)), Mix(a, Green(color), Green(dst)), Mix(a, Blue(color), Blue(dst)));
    LowBytes(color);
    LowBytes(dst);
  }

  lemma LowBytes(c: nat)
    ensures c % 0x100_0000 == Red(c) * 0x1_0000 + Green(c) * 0x100 + Blue(c)
  {
    var u, v := c / 0x100, c / 0x1_0000;
    assert u == v * 0x100 + Green(c) && c == u * 0x100 + Blue(c);
    assert v == (v / 0x100) * 0x100 + Red(c) && c / 0x100_0000 == v / 0x100;
  }

  /** A transparent colour leaves the word alone exactly when its top byte was
      clear already. */
  lemma TransparentKeepsIff(color: nat, dst: nat)
    requires Alpha(color) == 0
    ensures Blend(color, dst) == dst <==> dst < 0x100_0000
  {
    hide Blend, Alpha;
    BlendBetween(color, dst);
  }

  // ----- lines -----

  datatype Point = Point(x: int, y: int)

  predicate Steep(a: Point, b: Point)
  {
    Abs(b.x - a.x) <= Abs(b.y - a.y)
  }

  /** The minor coordinate after `k` major steps from the lower end. */
  function Minor(minor: int, major: int, k: int): int
    requires major != 0
  {
    TDiv(minor * k, major)
  }

  /** The pixels of a line. */
  predicate OnLine(a: Point, b: Point, p: Point)
  {
    if a == b then p == a
    else if !Steep(a, b) then
      var s := if a.x > b.x then b else a;
      Between(p.x, a.x, b.x) && p.y == Minor(b.y - a.y, b.x - a.x, p.x - s.x) + s.y
    else
      var s := if a.y > b.y then b else a;
      Between(p.y, a.y, b.y) && p.x == Minor(b.x - a.x, b.y - a.y, p.y - s.y) + s.x
  }

  /** m * k / d for magnitudes. */
  function Quot(m: nat, k: nat, d: nat): (q: nat)
    requires d > 0
  {
    Product(m, k);
    (m * k) / d
  }

  /** The truncated quotient is a magnitude with a sign. */
  lemma MinorIs(minor: int, major: int, k: nat)
    requires major != 0
    ensures Minor(minor, major, k) ==
              (if (minor >= 0) == (major > 0) then 1 else -1) * Quot(Abs(minor), k, Abs(major))
  {
    var n := minor * k;
    Product(Abs(minor), k);
    if minor >= 0 {
      assert n >= 0;
    } else {
      assert n == 0 - Abs(minor) * k;
      if n == 0 {
        ZeroQuotient(Abs(major));
      }
    }
  }

  lemma ZeroQuotient(d: nat)
    requires d > 0
    ensures 0 / d == 0
  {
  }

  lemma QuotBounds(m: nat, k: nat, d: nat)
    requires d > 0
    ensures d * Quot(m, k, d) <= m * k < d * Quot(m, k, d) + d
  {
  }

  /** d * q <= n < d * q + d pins the quotient. */
  lemma Pinned(d: nat, q: nat, r: nat, n: nat)
    requires d > 0 && d * q <= n && n < d * r + d
    ensures q <= r
  {
    if q > r {
      OneMore(d, q, r);
    }
  }

  lemma OneMore(d: nat, q: nat, r: nat)
    requires q > r
    ensures d * q >= d * r + d
  {
    Product(d, q - r - 1);
    assert d * q == d * r + d + d * (q - r - 1);
  }

  lemma QuotEnds(m: nat, d: nat)
    requires d > 0
    ensures Quot(m, 0, d) == 0 && Quot(m, d, d) == m
  {
    hide Quot;
    QuotBounds(m, 0, d);
    QuotBounds(m, d, d);
    Pinned(d, Quot(m, 0, d), 0, 0);
    Pinned(d, Quot(m, d, d), m, m * d);
    Pinned(d, m, Quot(m, d, d), m * d);
  }

  lemma QuotStep(m: nat, k: nat, d: nat)
    requires d > 0 && m <= d
    ensures Quot(m, k, d) <= Quot(m, k + 1, d) <= Quot(m, k, d) + 1
  {
    hide Quot;
    var q, r := Quot(m, k, d), Quot(m, k + 1, d);
    QuotBounds(m, k, d);
    QuotBounds(m, k + 1, d);
    assert m * (k + 1) == m * k + m;
    Pinned(d, q, r, m * k);
    assert d * (q + 1) == d * q + d;
    Pinned(d, r, q + 1, m * (k + 1));
  }

  lemma {:induction false} QuotBelow(m: nat, k: nat, d: nat)
    requires d > 0 && m <= d && k <= d
    ensures Quot(m, k, d) <= m
    decreases d - k
  {
    hide Quot;
    if k == d {
      QuotEnds(m, d);
    } else {
      QuotStep(m, k, d);
      QuotBelow(m, k + 1, d);
    }
  }

  // ----- the shape of a line -----

  /** Swapped endpoints give the same pixels. */
  lemma LineIsSymmetric(a: Point, b: Point, p: Point)
    ensures OnLine(a, b, p) == OnLine(b, a, p)
  {
    hide Minor, Quot;
    if a != b {
      if !Steep(a, b) {
        if Between(p.x, a.x, b.x) {
          var k := p.x - (if a.x > b.x then b.x else a.x);
          MinorIs(b.y - a.y, b.x - a.x, k);
          MinorIs(a.y - b.y, a.x - b.x, k);
          FlatQuot(Abs(b.x - a.x), k);
        }
      } else if Between(p.y, a.y, b.y) {
        var k := p.y - (if a.y > b.y then b.y else a.y);
        MinorIs(b.x - a.x, b.y - a.y, k);
        MinorIs(a.x - b.x, a.y - b.y, k);
        FlatQuot(Abs(b.y - a.y), k);
      }
    }
  }

  lemma FlatQuot(d: nat, k: nat)
    requires d > 0
    ensures Quot(0, k, d) == 0
  {
    hide Quot;
    QuotBounds(0, k, d);
    Pinned(d, Quot(0, k, d), 0, 0);
  }

  lemma LineHitsEndpoints(a: Point, b: Point)
    ensures OnLine(a, b, a) && OnLine(a, b, b)
  {
    hide Minor, Quot;
    if a != b {
      var dx, dy := b.x - a.x, b.y - a.y;
      if !Steep(a, b) {
        MinorIs(dy, dx, 0);
        MinorIs(dy, dx, Abs(dx));
        QuotEnds(Abs(dy), Abs(dx));
      } else {
        MinorIs(dx, dy, 0);
        MinorIs(dx, dy, Abs(dy));
        QuotEnds(Abs(dx), Abs(dy));
      }
    }
  }

  function Major(a: Point, b: Point, p: Point): int { if Steep(a, b) then p.y else p.x }
  function Cross(a: Point, b: Point, p: Point): int { if Steep(a, b) then p.x else p.y }

  /** The pixel of the line at a major coordinate. */
  function PixelAt(a: Point, b: Point, m: int): (p: Point)
    requires Between(m, Major(a, b, a), Major(a, b, b))
    ensures OnLine(a, b, p) && Major(a, b, p) == m
  {
    if a == b then a
    else if !Steep(a, b) then
      var s := if a.x > b.x then b else a;
      Point(m, Minor(b.y - a.y, b.x - a.x, m - s.x) + s.y)
    else
      var s := if a.y > b.y then b else a;
      Point(Minor(b.x - a.x, b.y - a.y, m - s.y) + s.x, m)
  }

  /** Exactly one pixel at every major coordinate, from end to end. */
  lemma OnePixelPerStep(a: Point, b: Point, p: Point)
    ensures OnLine(a, b, p) <==>
              Between(Major(a, b, p), Major(a, b, a), Major(a, b, b)) && p == PixelAt(a, b, Major(a, b, p))
  {
    hide Minor;
  }

  /** A step along the major axis moves at most one pixel across. */
  lemma MinorMovesAtMostOne(a: Point, b: Point, m: int)
    requires Between(m, Major(a, b, a), Major(a, b, b)) && Between(m + 1, Major(a, b, a), Major(a, b, b))
    ensures var d := Cross(a, b, PixelAt(a, b, m + 1)) - Cross(a, b, PixelAt(a, b, m)); -1 <= d <= 1
  {
    hide Minor, Quot;
    if a != b {
      var dx, dy := b.x - a.x, b.y - a.y;
      if !Steep(a, b) {
        var k := m - (if a.x > b.x then b.x else a.x);
        MinorIs(dy, dx, k);
        MinorIs(dy, dx, k + 1);
        QuotStep(Abs(dy), k, Abs(dx));
      } else {
        var k := m - (if a.y > b.y then b.y else a.y);
        MinorIs(dx, dy, k);
        MinorIs(dx, dy, k + 1);
        QuotStep(Abs(dx), k, Abs(dy));
      }
    }
  }

  /** How far (u, v) lies off the direction (dx, dy), times its length. */
  function Deviation(dx: int, dy: int, u: int, v: int): int
  {
    dx * v - dy * u
  }

  lemma FromOtherEnd(dx: int, dy: int, u: int, v: int)
    ensures Deviation(dx, dy, u + dx, v + dy) == Deviation(dx, dy, u, v)
    ensures Deviation(dx, dy, u, v) == 0 - Deviation(dy, dx, v, u)
  {
  }

  /** The line stays in the box of its endpoints, less than one pixel from
      the exact line. */
  lemma LineStaysClose(a: Point, b: Point, p: Point)
    requires OnLine(a, b, p)
    ensures Between(p.x, a.x, b.x) && Between(p.y, a.y, b.y)
    ensures a != b ==>
              Abs(Deviation(b.x - a.x, b.y - a.y, p.x - a.x, p.y - a.y)) < (if Steep(a, b) then Abs(b.y - a.y) else Abs(b.x - a.x))
  {
    hide Minor, Quot, Deviation;
    if a != b {
      var dx, dy := b.x - a.x, b.y - a.y;
      FromOtherEnd(dx, dy, p.x - b.x, p.y - b.y);
      FromOtherEnd(dx, dy, p.x - a.x, p.y - a.y);
      if !Steep(a, b) {
        var s := if a.x > b.x then b else a;
        Near(dy, dx, p.x - s.x, p.y - s.y);
      } else {
        var s := if a.y > b.y then b else a;
        Near(dx, dy, p.y - s.y, p.x - s.x);
      }
    }
  }

  lemma Near(minor: int, major: int, k: nat, c: int)
    requires major != 0 && Abs(minor) <= Abs(major) && k <= Abs(major) && c == Minor(minor, major, k)
    ensures if (minor >= 0) == (major > 0) then 0 <= c <= Abs(minor) else 0 - Abs(minor) <= c <= 0
    ensures Abs(Deviation(major, minor, k, c)) < Abs(major)
  {
    hide Minor, Quot;
    var m: int, d: int := Abs(minor), Abs(major);
    var q: int := Quot(m, k, d);
    MinorIs(minor, major, k);
    QuotBelow(m, k, d);
    QuotBounds(m, k, d);
    assert minor * k == (if minor >= 0 then m * k else 0 - m * k);
    assert major * c == (if minor >= 0 then d * q else 0 - d * q);
  }

  /** Which pixel stands for the exact line: counted from the endpoint with the smaller
      major coordinate, the minor one advances towards the other endpoint by the exact
      share, rounded down. */
  lemma RoundsDownFromFirst(a: Point, b: Point, p: Point)
    requires OnLine(a, b, p) && a != b
    ensures var s, e := if Major(a, b, a) > Major(a, b, b) then b else a, if Major(a, b, a) > Major(a, b, b) then a else b;
            var k, d := Major(a, b, p) - Major(a, b, s), Major(a, b, e) - Major(a, b, s);
            var c, m := Cross(a, b, p) - Cross(a, b, s), Cross(a, b, e) - Cross(a, b, s);
            && (if m >= 0 then c >= 0 else c <= 0)
            && d > 0 && d * Abs(c) <= Abs(m) * k < d * Abs(c) + d
  {
    hide Minor, Quot;
    if !Steep(a, b) {
      var s := if a.x > b.x then b else a;
      Share(b.y - a.y, b.x - a.x, p.x - s.x);
    } else {
      var s := if a.y > b.y then b else a;
      Share(b.x - a.x, b.y - a.y, p.y - s.y);
    }
  }

  lemma Share(minor: int, major: int, k: nat)
    requires major != 0
    ensures Abs(major) * Abs(Minor(minor, major, k)) <= Abs(minor) * k < Abs(major) * Abs(Minor(minor, major, k)) + Abs(major)
    ensures if (minor >= 0) == (major > 0) then Minor(minor, major, k) >= 0 else Minor(minor, major, k) <= 0
    ensures minor == 0 ==> Minor(minor, major, k) == 0
  {
    hide Minor, Quot;
    MinorIs(minor, major, k);
    QuotBounds(Abs(minor), k, Abs(major));
    FlatQuot(Abs(major), k);
  }

  // ----- the painter -----

  datatype Clip = Clip(xMin: int, yMin: int, xMax: int, yMax: int)

  predicate Inside(c: Clip, p: Point)
  {
    c.xMin <= p.x <= c.xMax && c.yMin <= p.y <= c.yMax
  }

  /** The size of the target and the distance between its rows. */
  datatype Frame = Frame(width: nat, height: nat, pitch: nat)

  ghost predicate Sound(f: Frame)
  {
    f.width <= f.pitch && 0 < f.pitch
  }

  /** The clip never leaves the target. */
  ghost predicate Contained(c: Clip, f: Frame)
  {
    c.xMin >= 0 && c.yMin >= 0 && c.xMax < f.width && c.yMax < f.height
  }

  function Cell(f: Frame, p: Point): int
  {
    p.x + f.pitch * p.y
  }

  function PointOf(f: Frame, i: nat): Point
    requires f.pitch > 0
  {
    Point(i % f.pitch, i / f.pitch)
  }

  function Area(f: Frame): nat
  {
    Product(f.pitch, f.height);
    f.pitch * f.height
  }

  lemma CellOfPoint(f: Frame, p: Point)
    requires 0 <= p.x < f.pitch && 0 <= p.y < f.height
    ensures 0 <= Cell(f, p) < Area(f) && PointOf(f, Cell(f, p)) == p
  {
    Product(f.pitch, p.y);
    Product(f.pitch, f.height - 1 - p.y);
    assert f.pitch * f.height == f.pitch * p.y + f.pitch * (f.height - 1 - p.y) + f.pitch;
    var i := Cell(f, p);
    Row(f.pitch, p.y, p.x);
  }

  lemma Row(d: nat, q: nat, r: nat)
    requires r < d
    ensures (r + d * q) / d == q && (r + d * q) % d == r
  {
    var n := r + d * q;
    var q', r' := n / d, n % d;
    assert n == d * q' + r';
    Pinned(d, q, q', n);
    Pinned(d, q', q, n);
  }

  lemma PointOfCell(f: Frame, i: nat)
    requires f.pitch > 0
    ensures Cell(f, PointOf(f, i)) == i
  {
  }

  /** A pixel after the part of a line whose major coordinate is below `m`. */
  function Shade(clip: Clip, a: Point, b: Point, color: nat, m: int, p: Point, was: nat): nat
  {
    if Inside(clip, p) && OnLine(a, b, p) && Major(a, b, p) < m then Blend(color, was) else was
  }

  ghost predicate Shaded(f: Frame, clip: Clip, a: Point, b: Point, color: nat, m: int, before: seq<nat>, now: seq<nat>)
    requires f.pitch > 0
  {
    && |now| == |before|
    && forall i :: 0 <= i < |now| ==> now[i] == Shade(clip, a, b, color, m, PointOf(f, i), before[i])
  }

  /** The picture with a line drawn over it. */
  ghost predicate LineDrawn(f: Frame, clip: Clip, a: Point, b: Point, color: nat, before: seq<nat>, now: seq<nat>)
    requires f.pitch > 0
  {
    && |now| == |before|
    && forall i :: 0 <= i < |now| ==>
         now[i] == if Inside(clip, PointOf(f, i)) && OnLine(a, b, PointOf(f, i)) then Blend(color, before[i]) else before[i]
  }

  /** The picture with one pixel drawn over it. */
  function PixelDrawn(f: Frame, clip: Clip, p: Point, color: nat, before: seq<nat>): seq<nat>
  {
    var i := Cell(f, p);
    if Inside(clip, p) && 0 <= i < |before| then before[i := Blend(color, before[i])] else before
  }

  lemma ShadeNothing(f: Frame, clip: Clip, a: Point, b: Point, color: nat, m: int, before: seq<nat>)
    requires f.pitch > 0 && m <= Major(a, b, a) && m <= Major(a, b, b)
    ensures Shaded(f, clip, a, b, color, m, before, before)
  {
    hide Blend, PointOf, Minor;
  }

  lemma ShadeStep(f: Frame, clip: Clip, a: Point, b: Point, color: nat, m: int, before: seq<nat>, now: seq<nat>)
    requires Sound(f) && Contained(clip, f) && |before| == Area(f) && Shaded(f, clip, a, b, color, m, before, now)
    requires Between(m, Major(a, b, a), Major(a, b, b))
    ensures Shaded(f, clip, a, b, color, m + 1, before, PixelDrawn(f, clip, PixelAt(a, b, m), color, now))
  {
    hide Blend, PointOf, Minor, Cell, OnLine, Area, PixelAt, Major;
    var q := PixelAt(a, b, m);
    if Inside(clip, q) {
      CellOfPoint(f, q);
    }
    var now' := PixelDrawn(f, clip, q, color, now);
    forall i | 0 <= i < |now'|
      ensures now'[i] == Shade(clip, a, b, color, m + 1, PointOf(f, i), before[i])
    {
      PointOfCell(f, i);
      OnePixelPerStep(a, b, PointOf(f, i));
    }
  }

  lemma ShadeAll(f: Frame, clip: Clip, a: Point, b: Point, color: nat, m: int, before: seq<nat>, now: seq<nat>)
    requires f.pitch > 0 && Shaded(f, clip, a, b, color, m, before, now)
    requires Major(a, b, a) < m && Major(a, b, b) < m
    ensures LineDrawn(f, clip, a, b, color, before, now)
  {
    hide Blend, PointOf, OnLine;
    forall i | 0 <= i < |now|
      ensures now[i] == if Inside(clip, PointOf(f, i)) && OnLine(a, b, PointOf(f, i)) then Blend(color, before[i]) else before[i]
    {
      OnePixelPerStep(a, b, PointOf(f, i));
    }
  }

  /** Differences whose products fit 32 bits. */
  predicate Narrow(a: Point, b: Point)
  {
    && Abs(b.x - a.x) <= 46340 && Abs(b.y - a.y) <= 46340
    && Int32(a.x) && Int32(a.y) && Int32(b.x) && Int32(b.y)
    && Int32(a.x + 1) && Int32(a.y + 1) && Int32(b.x + 1) && Int32(b.y + 1)
  }

  lemma ProductFits(x: int, k: nat)
    requires Abs(x) <= 46340 && k <= 46340
    ensures Int32(x * k)
  {
    Product(46340 - Abs(x), k);
    Product(Abs(x), k);
    assert (46340 - Abs(x)) * k == 46340 * k - Abs(x) * k;
    assert x * k == if x >= 0 then Abs(x) * k else 0 - Abs(x) * k;
  }

  class Painter {
    const frame: Frame
    const buffer: array<nat>
    var clip: Clip

    ghost predicate Valid()
      reads this
    {
      Sound(frame) && buffer.Length == Area(frame) && Contained(clip, frame)
    }

    constructor (buffer: array<nat>, frame: Frame)
      requires Sound(frame) && buffer.Length == Area(frame)
      ensures Valid() && this.buffer == buffer && this.frame == frame
      ensures clip == Clip(0, 0, frame.width - 1, frame.height - 1)
    {
      this.buffer, this.frame := buffer, frame;
      clip := Clip(0, 0, frame.width - 1, frame.height - 1);
    }

    method RevertClipping()
      requires Valid()
      modifies `clip
      ensures Valid() && clip == ClipAfter(frame, Revert, old(clip))
      ensures forall p :: Inside(clip, p) <==> 0 <= p.x < frame.width && 0 <= p.y < frame.height
    {
      clip := Clip(0, 0, frame.width - 1, frame.height - 1);
    }

    /** The new clip is the wanted one cut to the target. */
    method SetClipping(xMin: int, yMin: int, xMax: int, yMax: int)
      requires Valid()
      modifies `clip
      ensures Valid() && clip == ClipAfter(frame, SetClip(Clip(xMin, yMin, xMax, yMax)), old(clip))
      ensures forall p :: Inside(clip, p) <==>
                Inside(Clip(xMin, yMin, xMax, yMax), p) && 0 <= p.x < frame.width && 0 <= p.y < frame.height
    {
      var x0 := if 0 < xMin then xMin else 0;
      var y0 := if 0 < yMin then yMin else 0;
      var x1 := if frame.width - 1 < xMax then frame.width - 1 else xMax;
      var y1 := if frame.height - 1 < yMax then frame.height - 1 else yMax;
      clip := Clip(x0, y0, x1, y1);
    }

    method DrawPixel(p: Point, color: nat)
      requires Valid()
      modifies buffer
      ensures buffer[..] == PixelDrawn(frame, clip, p, color, old(buffer[..]))
    {
      hide Cell, Area, Red, Green, Blue, Mix;
      if p.x < clip.xMin || p.x > clip.xMax {
        return;
      }
      if p.y < clip.yMin || p.y > clip.yMax {
        return;
      }
      CellOfPoint(frame, p);
      var i := Cell(frame, p);
      var dst := buffer[i];
      var a := Alpha(color);
      var red := Mix(a, Red(color), Red(dst));
      var green := Mix(a, Green(color), Green(dst));
      var blue := Mix(a, Blue(color), Blue(dst));
      buffer[i] := red * 0x1_0000 + green * 0x100 + blue;
    }

    method DrawLine(a: Point, b: Point, color: nat)
      requires Valid() && Narrow(a, b)
      modifies buffer
      ensures LineDrawn(frame, clip, a, b, color, old(buffer[..]), buffer[..])
    {
      hide Shaded, LineDrawn, PixelDrawn, Contained, Area, Minor, OnLine;
      ghost var before := buffer[..];
      var dx, dy := b.x - a.x, b.y - a.y;
      if dx == 0 && dy == 0 {
        ShadeNothing(frame, clip, a, b, color, a.y, before);
        ShadeStep(frame, clip, a, b, color, a.y, before, before);
        DrawPixel(a, color);
        ShadeAll(frame, clip, a, b, color, a.y + 1, before, buffer[..]);
        return;
      }
      if Abs(dx) > Abs(dy) {
        DrawFlat(a, b, if a.x > b.x then b else a, if a.x > b.x then a else b, color);
      } else {
        DrawSteep(a, b, if a.y > b.y then b else a, if a.y > b.y then a else b, color);
      }
    }

    /** One pixel for every x from `s` to `e`, the endpoints in order. */
    method DrawFlat(a: Point, b: Point, s: Point, e: Point, color: nat)
      requires Valid() && Narrow(a, b) && !Steep(a, b)
      requires s == (if a.x > b.x then b else a) && e == (if a.x > b.x then a else b)
      modifies buffer
      ensures LineDrawn(frame, clip, a, b, color, old(buffer[..]), buffer[..])
    {
      hide Shaded, LineDrawn, PixelDrawn, Contained, Area, Minor, OnLine;
      ghost var before := buffer[..];
      var dx, dy := b.x - a.x, b.y - a.y;
      var x := s.x;
      ShadeNothing(frame, clip, a, b, color, x, before);
      while x <= e.x
        invariant s.x <= x <= e.x + 1
        invariant Shaded(frame, clip, a, b, color, x, before, buffer[..])
      {
        ProductFits(dy, x - s.x);
        var y := Minor(dy, dx, x - s.x) + s.y;
        ShadeStep(frame, clip, a, b, color, x, before, buffer[..]);
        DrawPixel(Point(x, y), color);
        x := x + 1;
      }
      ShadeAll(frame, clip, a, b, color, x, before, buffer[..]);
    }

    /** One pixel for every y from `s` to `e`, the endpoints in order. */
    method DrawSteep(a: Point, b: Point, s: Point, e: Point, color: nat)
      requires Valid() && Narrow(a, b) && Steep(a, b) && a != b
      requires s == (if a.y > b.y then b else a) && e == (if a.y > b.y then a else b)
      modifies buffer
      ensures LineDrawn(frame, clip, a, b, color, old(buffer[..]), buffer[..])
    {
      hide Shaded, LineDrawn, PixelDrawn, Contained, Area, Minor, OnLine;
      ghost var before := buffer[..];
      var dx, dy := b.x - a.x, b.y - a.y;
      var y := s.y;
      ShadeNothing(frame, clip, a, b, color, y, before);
      while y <= e.y
        invariant s.y <= y <= e.y + 1
        invariant Shaded(frame, clip, a, b, color, y, before, buffer[..])
      {
        ProductFits(dx, y - s.y);
        var x := Minor(dx, dy, y - s.y) + s.x;
        ShadeStep(frame, clip, a, b, color, y, before, buffer[..]);
        DrawPixel(Point(x, y), color);
        y := y + 1;
      }
      ShadeAll(frame, clip, a, b, color, y, before, buffer[..]);
    }
  }

  // ----- runs of calls -----

  datatype Call =
    | SetClip(area: Clip)
    | Revert
    | Line(a: Point, b: Point, color: nat)

  /** The clip after a call. */
  ghost function ClipAfter(f: Frame, c: Call, clip: Clip): Clip
  {
    match c
    case SetClip(w) =>
      Clip(if w.xMin > 0 then w.xMin else 0, if w.yMin > 0 then w.yMin else 0,
           if w.xMax < f.width then w.xMax else f.width - 1, if w.yMax < f.height then w.yMax else f.height - 1)
    case Revert => Clip(0, 0, f.width - 1, f.height - 1)
    case Line(_, _, _) => clip
  }

  /** A history of pictures, one more than there are calls. */
  ghost predicate History(f: Frame, clip: Clip, calls: seq<Call>, pictures: seq<seq<nat>>)
    requires f.pitch > 0
    decreases |calls|
  {
    && |pictures| == |calls| + 1
    && (|calls| > 0 ==>
          && (if calls[0].Line? then LineDrawn(f, clip, calls[0].a, calls[0].b, calls[0].color, pictures[0], pictures[1])
              else pictures[1] == pictures[0])
          && History(f, ClipAfter(f, calls[0], clip), calls[1..], pictures[1..]))
  }

  /** Some line of the run is drawn while the clip holds `p`. */
  ghost predicate Reaches(f: Frame, clip: Clip, calls: seq<Call>, p: Point)
    decreases |calls|
  {
    |calls| > 0 &&
    ((calls[0].Line? && Inside(clip, p) && OnLine(calls[0].a, calls[0].b, p)) || Reaches(f, ClipAfter(f, calls[0], clip), calls[1..], p))
  }

  /** Over any run of clipping and drawing calls, a pixel changes only if a
      line passes through it inside the clip of that moment, and every such
      pixel lies inside the target: the padding between rows never changes. */
  lemma {:induction false} OnlyReachedPixelsChange(f: Frame, clip: Clip, calls: seq<Call>, pictures: seq<seq<nat>>, i: nat)
    requires Sound(f) && Contained(clip, f) && History(f, clip, calls, pictures) && i < |pictures[0]|
    ensures |pictures[|calls|]| == |pictures[0]|
    ensures !Reaches(f, clip, calls, PointOf(f, i)) ==> pictures[|calls|][i] == pictures[0][i]
    ensures PointOf(f, i).x >= f.width || PointOf(f, i).y >= f.height ==> pictures[|calls|][i] == pictures[0][i]
    decreases |calls|
  {
    hide OnLine, Blend, PointOf;
    if |calls| > 0 {
      OnlyReachedPixelsChange(f, ClipAfter(f, calls[0], clip), calls[1..], pictures[1..], i);
    }
  }

  /** An opaque line leaves its colour along the whole visible line, however
      often it is drawn and from whichever end. */
  lemma OpaqueLineAgain(f: Frame, clip: Clip, a: Point, b: Point, color: nat, p0: seq<nat>, p1: seq<nat>, p2: seq<nat>)
    requires f.pitch > 0 && Alpha(color) == 255
    requires LineDrawn(f, clip, a, b, color, p0, p1) && LineDrawn(f, clip, b, a, color, p1, p2)
    ensures p2 == p1
  {
    hide OnLine, Blend, PointOf, Alpha;
    forall i | 0 <= i < |p1|
      ensures p2[i] == p1[i]
    {
      LineIsSymmetric(a, b, PointOf(f, i));
      BlendBetween(color, p0[i]);
      BlendBetween(color, p1[i]);
    }
  }
}
