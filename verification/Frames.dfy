/** The frame header: image size and sampling factors, and what they promise
    to the geometry of the planes. */
module Frames {
  import opened Bits
  import opened Machine
  import opened Markers
  import opened Geometry

  const MAX_DIMENSIONS: int := 2000

  datatype Plane = Plane(id: Byte, h: nat, v: nat, tq: nat)

  datatype Image = Image(x: nat, y: nat, planes: seq<Plane>)

  function PlaneAt(d: seq<Byte>, p: nat, i: nat): Plane
  {
    var q := At(d, p + 9 + 3 * i);
    Plane(At(d, p + 8 + 3 * i), q / 16, q % 16, At(d, p + 10 + 3 * i))
  }

  predicate GoodPlane(c: Plane)
  {
    1 <= c.h <= 4 && 1 <= c.v <= 4 && c.tq <= 3
  }

  /** The frame header at a position. */
  function ImageAt(d: seq<Byte>, p: nat): Image
  {
    var n: nat := At(d, p + 7);
    Image(Word(d, p + 5), Word(d, p + 3), seq(n, i requires 0 <= i < n => PlaneAt(d, p, i)))
  }

  function MaxH(cs: seq<Plane>): nat
    decreases |cs|
  {
    if |cs| == 0 then 1 else
    var m := MaxH(cs[..|cs| - 1]);
    if cs[|cs| - 1].h > m then cs[|cs| - 1].h else m
  }

  function MaxV(cs: seq<Plane>): nat
    decreases |cs|
  {
    if |cs| == 0 then 1 else
    var m := MaxV(cs[..|cs| - 1]);
    if cs[|cs| - 1].v > m then cs[|cs| - 1].v else m
  }

  /** Sampling factors are whole fractions of the largest. */
  ghost predicate WholeRatios(cs: seq<Plane>, mh: nat, mv: nat)
  {
    forall i :: 0 <= i < |cs| ==> GoodPlane(cs[i]) && mh % cs[i].h == 0 && mv % cs[i].v == 0
  }

  /** Headers that are accepted for loading. */
  ghost predicate FrameReadable(d: seq<Byte>, p: nat)
  {
    var m := ImageAt(d, p);
    && At(d, p + 2) == 8 && 0 < m.x <= MAX_DIMENSIONS && 0 < m.y <= MAX_DIMENSIONS
    && (|m.planes| == 1 || |m.planes| == 3 || |m.planes| == 4) && Word(d, p) == 8 + 3 * |m.planes|
    && (forall i :: 0 <= i < |m.planes| ==> GoodPlane(m.planes[i]))
    && WholeRatios(m.planes, MaxH(m.planes), MaxV(m.planes))
  }

  /** A product of three bounded factors. */
  lemma Volume(a: nat, b: nat, c: nat, add: nat)
    requires a <= 2031 && b <= 2031 && c <= 4 && add <= 15
    ensures Mad2SizesValid(a, b, add) && Mad3SizesValid(a, b, c, add) && Mad3SizesValid(c, a, b, add)
  {
    hide Mad2SizesValid, Mad3SizesValid;
    Bounds(a, b, c);
    MadSizesExact(a, b, c, add);
    MadSizesExact(c, a, b, add);
  }

  lemma Bounds(a: nat, b: nat, c: nat)
    requires a <= 2031 && b <= 2031 && c <= 4
    ensures 0 <= a * b <= 4124961 && 0 <= c * a <= 8124 && 0 <= a * b * c == c * a * b <= 16499844
  {
    MulMono(a, 2031, b);
    Mul2SizesExact(a, b);
    MulMono(c, 4, a);
    Mul2SizesExact(c, a);
    Regroup(a, b, c);
    MulMono(c, 4, a * b);
    Mul2SizesExact(c, a * b);
  }

  lemma Regroup(a: nat, b: nat, c: nat)
    ensures a * b * c == c * (a * b) == c * a * b
  {
  }

  /** One component of the header. */
  method ReadPlane(j: Decoder, ghost p: nat, ghost i: nat) returns (c: Plane)
    requires j.pos == Adv(j.data, p, 8 + 3 * i)
    modifies j`pos
    ensures c == PlaneAt(j.data, p, i) && j.pos == Adv(j.data, p, 8 + 3 * (i + 1))
  {
    SpectrumPositions(j.data, p, 8 + 3 * i);
    hide Adv, At;
    var id := j.Get8();
    var q := j.Get8();
    var tq := j.Get8();
    c := Plane(id, q / 16, q % 16, tq);
  }

  method ReadPlanes(j: Decoder, ghost p: nat, n: nat) returns (ok: bool, cs: seq<Plane>)
    requires j.pos == Adv(j.data, p, 8)
    modifies j`pos
    ensures ok <==> forall i :: 0 <= i < n ==> GoodPlane(PlaneAt(j.data, p, i))
    ensures ok ==> cs == seq(n, i requires 0 <= i < n => PlaneAt(j.data, p, i)) && j.pos == Adv(j.data, p, 8 + 3 * n)
  {
    hide Adv, At, PlaneAt, GoodPlane;
    cs := [];
    for i := 0 to n
      invariant |cs| == i && j.pos == Adv(j.data, p, 8 + 3 * i)
      invariant forall k :: 0 <= k < i ==> cs[k] == PlaneAt(j.data, p, k) && GoodPlane(cs[k])
    {
      var c := ReadPlane(j, p, i);
      if !GoodPlane(c) {
        return false, cs;
      }
      cs := cs + [c];
    }
    ok := true;
  }

  method Maxima(cs: seq<Plane>) returns (mh: nat, mv: nat)
    ensures mh == MaxH(cs) && mv == MaxV(cs)
  {
    mh, mv := 1, 1;
    for i := 0 to |cs|
      invariant mh == MaxH(cs[..i]) && mv == MaxV(cs[..i])
    {
      assert cs[..i + 1][..i] == cs[..i];
      if cs[i].h > mh {
        mh := cs[i].h;
      }
      if cs[i].v > mv {
        mv := cs[i].v;
      }
    }
    assert cs[..|cs|] == cs;
  }

  method Ratios(cs: seq<Plane>, mh: nat, mv: nat) returns (ok: bool)
    requires forall i :: 0 <= i < |cs| ==> GoodPlane(cs[i])
    ensures ok <==> WholeRatios(cs, mh, mv)
  {
    for i := 0 to |cs|
      invariant forall k :: 0 <= k < i ==> mh % cs[k].h == 0 && mv % cs[k].v == 0
    {
      if mh % cs[i].h != 0 {
        return false;
      }
      if mv % cs[i].v != 0 {
        return false;
      }
    }
    ok := true;
  }

  /** stbi__process_frame_header for loading. */
  method ProcessFrameHeader(j: Decoder) returns (ok: bool, m: Image)
    modifies j`pos
    ensures ok <==> FrameReadable(j.data, old(j.pos))
    ensures ok ==> m == ImageAt(j.data, old(j.pos)) && j.pos == Adv(j.data, old(j.pos), 8 + 3 * |m.planes|)
  {
    hide PlaneAt, GoodPlane, WholeRatios, MaxH, MaxV, Mad3SizesValid, Adv, At;
    ghost var p := j.pos;
    m := Image(0, 0, []);
    HeaderPositions(j.data, p);
    var announced := j.Get16();
    if announced < 11 {
      return false, m;
    }
    var precision := j.Get8();
    if precision != 8 {
      return false, m;
    }
    var y := j.Get16();
    if y == 0 {
      return false, m;
    }
    var x := j.Get16();
    if x == 0 {
      return false, m;
    }
    if y > MAX_DIMENSIONS {
      return false, m;
    }
    if x > MAX_DIMENSIONS {
      return false, m;
    }
    var n: nat := j.Get8();
    if n != 3 && n != 1 && n != 4 {
      return false, m;
    }
    if announced != 8 + 3 * n {
      return false, m;
    }
    var cs;
    ok, cs := ReadPlanes(j, p, n);
    if !ok {
      Spoiled(j.data, p);
      return;
    }
    m := Image(x, y, cs);
    Volume(x, y, n, 0);
    var sized := Mad3SizesValid(x, y, n, 0);
    var mh, mv := Maxima(cs);
    ok := Ratios(cs, mh, mv);
    ok := sized && ok;
  }

  lemma Spoiled(d: seq<Byte>, p: nat)
    requires exists i :: 0 <= i < At(d, p + 7) && !GoodPlane(PlaneAt(d, p, i))
    ensures !FrameReadable(d, p)
  {
    hide PlaneAt, GoodPlane, WholeRatios, MaxH, MaxV;
    var i :| 0 <= i < At(d, p + 7) && !GoodPlane(PlaneAt(d, p, i));
    assert ImageAt(d, p).planes[i] == PlaneAt(d, p, i);
  }

  lemma HeaderPositions(d: seq<Byte>, p: nat)
    ensures var a := Adv(d, p, 2);
            var b := Adv(d, a, 1);
            var c := Adv(d, b, 2);
            var e := Adv(d, c, 2);
            && At(d, a) == At(d, p + 2) && Word(d, b) == Word(d, p + 3) && Word(d, c) == Word(d, p + 5)
            && At(d, e) == At(d, p + 7) && Adv(d, e, 1) == Adv(d, p, 8)
  {
  }

  // ----- what an accepted frame promises -----

  lemma {:induction false} MaxBounds(cs: seq<Plane>, i: nat)
    requires i < |cs| && forall k :: 0 <= k < |cs| ==> GoodPlane(cs[k])
    ensures cs[i].h <= MaxH(cs) <= 4 && cs[i].v <= MaxV(cs) <= 4
    decreases |cs|
  {
    var rest := cs[..|cs| - 1];
    if i < |rest| {
      MaxBounds(rest, i);
    } else if |rest| > 0 {
      MaxBounds(rest, 0);
    }
  }

  /** The largest factors are those of some components. */
  lemma {:induction false} MaxAttained(cs: seq<Plane>) returns (i: nat, j: nat)
    requires |cs| > 0 && forall k :: 0 <= k < |cs| ==> GoodPlane(cs[k])
    ensures i < |cs| && cs[i].h == MaxH(cs)
    ensures j < |cs| && cs[j].v == MaxV(cs)
    decreases |cs|
  {
    i, j := |cs| - 1, |cs| - 1;
    if |cs| > 1 {
      var rest := cs[..|cs| - 1];
      var i', j' := MaxAttained(rest);
      i := if cs[i].h > cs[i'].h then i else i';
      j := if cs[j].v > cs[j'].v then j else j';
    }
  }

  /** They are the maxima, and nothing else is. */
  lemma MaximaExactly(cs: seq<Plane>, mh: nat, mv: nat)
    requires |cs| > 0 && forall k :: 0 <= k < |cs| ==> GoodPlane(cs[k])
    ensures mh == MaxH(cs) <==> (exists i :: 0 <= i < |cs| && cs[i].h == mh) && forall i :: 0 <= i < |cs| ==> cs[i].h <= mh
    ensures mv == MaxV(cs) <==> (exists i :: 0 <= i < |cs| && cs[i].v == mv) && forall i :: 0 <= i < |cs| ==> cs[i].v <= mv
  {
    hide MaxH, MaxV;
    var i, j := MaxAttained(cs);
    forall k | 0 <= k < |cs|
      ensures cs[k].h <= MaxH(cs) && cs[k].v <= MaxV(cs)
    {
      MaxBounds(cs, k);
    }
  }

  /** Both axes of every plane of an accepted frame meet the hypotheses of the
      geometry, and no plane is more than 31 samples larger than the image. */
  lemma AcceptedAxes(d: seq<Byte>, p: nat, i: nat)
    requires FrameReadable(d, p) && i < |ImageAt(d, p).planes|
    ensures var m := ImageAt(d, p);
            var c := m.planes[i];
            var ax, ay := Axis(m.x, c.h, MaxH(m.planes)), Axis(m.y, c.v, MaxV(m.planes));
            && ax.Valid() && ay.Valid()
            && m.x <= MAX_DIMENSIONS && m.y <= MAX_DIMENSIONS
            && ax.Extent() <= m.x + 31 && ay.Extent() <= m.y + 31
  {
    hide PlaneAt, MaxH, MaxV, At, Axis.Extent;
    var m := ImageAt(d, p);
    MaxBounds(m.planes, i);
    ExtentBound(Axis(m.x, m.planes[i].h, MaxH(m.planes)));
    ExtentBound(Axis(m.y, m.planes[i].v, MaxV(m.planes)));
  }

  /** No size guard ever refuses an accepted frame: neither that of the header, nor
      those of the sample and coefficient planes, nor that of the output of up
      to four channels. */
  lemma GuardsNeverRefuse(d: seq<Byte>, p: nat, i: nat, channels: nat)
    requires FrameReadable(d, p) && i < |ImageAt(d, p).planes| && channels <= 4
    ensures var m := ImageAt(d, p);
            var c := m.planes[i];
            var ax, ay := Axis(m.x, c.h, MaxH(m.planes)), Axis(m.y, c.v, MaxV(m.planes));
            && ax.Valid() && ay.Valid()
            && Mad3SizesValid(m.x, m.y, |m.planes|, 0)
            && Mad2SizesValid(ax.Extent(), ay.Extent(), 15)
            && Mad3SizesValid(ax.Extent(), ay.Extent(), 2, 15)
            && Mad3SizesValid(channels, m.x, m.y, 1)
  {
    hide PlaneAt, MaxH, MaxV, At, Axis.Extent, Mad2SizesValid, Mad3SizesValid;
    AcceptedAxes(d, p, i);
    var m := ImageAt(d, p);
    var c := m.planes[i];
    Volume(m.x, m.y, |m.planes|, 0);
    Volume(m.x, m.y, channels, 1);
    Volume(Axis(m.x, c.h, MaxH(m.planes)).Extent(), Axis(m.y, c.v, MaxV(m.planes)).Extent(), 2, 15);
  }

  lemma ExtentBound(a: Axis)
    requires a.Valid()
    ensures a.Extent() <= a.size + 31
  {
    var t := a.top * 8;
    DivSplit(a.size + t - 1, t);
    assert a.Mcus() * t <= a.size + t - 1;
    assert t <= 32;
    MulMono(a.factor, a.top, a.Mcus());
    assert a.Mcus() * a.factor * 8 <= a.Mcus() * t;
  }
}
