/** Writing frame headers, scan headers and sequential scans, and the theorem that a
    decoded scan completes the planes that it names. */
module PictureCoding {
  import opened Bits
  import opened Zigzag
  import opened Huffman
  import opened BitReader
  import opened Block
  import opened Stuffing
  import opened BaselineScan
  import opened Geometry
  import opened Picture
  import M = Markers
  import F = Frames
  import C = ScanCoding
  import H = HeaderCoding

  /** The coefficients of an image, in zigzag order: plane, column and row of the
      block. */
  type Coefficients = (nat, nat, nat) -> Cells

  // ----- frame and scan headers -----

  function PlaneByte(m: F.Image, i: nat): Byte
    requires i < 3 * |m.planes|
  {
    var c := m.planes[i / 3];
    if i % 3 == 0 then c.id else if i % 3 == 1 then H.Clip(c.h * 16 + c.v) else H.Clip(c.tq)
  }

  function FrameBytes(m: F.Image): (b: seq<Byte>)
    ensures |b| == 8 + 3 * |m.planes|
  {
    H.WordBytes(8 + 3 * |m.planes|) + [8] + H.WordBytes(m.y) + H.WordBytes(m.x) + [H.Clip(|m.planes|)]
    + seq<Byte>(3 * |m.planes|, i requires 0 <= i < 3 * |m.planes| => PlaneByte(m, i))
  }

  /** The fields fit the bytes of a frame header. */
  ghost predicate Fields(m: F.Image)
  {
    && m.x < 65536 && m.y < 65536 && |m.planes| < 256
    && forall i :: 0 <= i < |m.planes| ==> m.planes[i].h < 16 && m.planes[i].v < 16 && m.planes[i].tq < 256
  }

  /** Images that the decoder takes: one, three or four components, sides up to 2000,
      and sampling factors from 1 to 4 that divide the largest. */
  ghost predicate Accepted(m: F.Image)
  {
    && 0 < m.x <= 2000 && 0 < m.y <= 2000
    && (|m.planes| == 1 || |m.planes| == 3 || |m.planes| == 4)
    && (forall i :: 0 <= i < |m.planes| ==> 1 <= m.planes[i].h <= 4 && 1 <= m.planes[i].v <= 4 && m.planes[i].tq <= 3)
    && Divides(m)
  }

  /** Every factor divides the largest. */
  ghost predicate Divides(m: F.Image)
    requires forall i :: 0 <= i < |m.planes| ==> m.planes[i].h > 0 && m.planes[i].v > 0
  {
    && (forall i, j :: 0 <= i < |m.planes| && 0 <= j < |m.planes| && Widest(m, j) ==> m.planes[j].h % m.planes[i].h == 0)
    && (forall i, j :: 0 <= i < |m.planes| && 0 <= j < |m.planes| && Tallest(m, j) ==> m.planes[j].v % m.planes[i].v == 0)
  }

  ghost predicate Widest(m: F.Image, j: nat)
    requires j < |m.planes|
  {
    forall i :: 0 <= i < |m.planes| ==> m.planes[i].h <= m.planes[j].h
  }

  ghost predicate Tallest(m: F.Image, j: nat)
    requires j < |m.planes|
  {
    forall i :: 0 <= i < |m.planes| ==> m.planes[i].v <= m.planes[j].v
  }

  /** Accepted images whose components a scan header can name. */
  ghost predicate Writable(m: F.Image)
  {
    Accepted(m) && forall i, j :: 0 <= i < j < |m.planes| ==> m.planes[i].id != m.planes[j].id
  }

  lemma WritableIsGood(m: F.Image)
    requires Writable(m)
    ensures Accepted(m) && Fields(m) && 0 < m.x <= F.MAX_DIMENSIONS && 0 < m.y <= F.MAX_DIMENSIONS && 1 <= |m.planes| <= 4
    ensures forall i :: 0 <= i < |m.planes| ==> F.GoodPlane(m.planes[i])
  {
  }

  /** The decoder's condition on ratios, by its own maxima. */
  lemma RatiosExactly(m: F.Image)
    requires |m.planes| > 0 && forall i :: 0 <= i < |m.planes| ==> F.GoodPlane(m.planes[i]) && m.planes[i].h > 0 && m.planes[i].v > 0
    ensures F.WholeRatios(m.planes, F.MaxH(m.planes), F.MaxV(m.planes)) <==> Divides(m)
  {
    hide F.MaxH, F.MaxV;
    var a, b := F.MaxAttained(m.planes);
    F.MaximaExactly(m.planes, F.MaxH(m.planes), F.MaxV(m.planes));
    assert Widest(m, a) && Tallest(m, b);
  }

  lemma FramePlane(d: seq<Byte>, p: nat, m: F.Image, i: nat)
    requires Fields(m) && BytesHere(d, p, FrameBytes(m)) && i < |m.planes|
    ensures F.PlaneAt(d, p, i) == m.planes[i]
  {
    hide M.At, FrameBytes;
    FrameByte(d, p, m, 3 * i);
    FrameByte(d, p, m, 3 * i + 1);
    FrameByte(d, p, m, 3 * i + 2);
    assert M.At(d, p + 8 + 3 * i) == PlaneByte(m, 3 * i);
    assert M.At(d, p + 9 + 3 * i) == PlaneByte(m, 3 * i + 1);
    assert M.At(d, p + 10 + 3 * i) == PlaneByte(m, 3 * i + 2);
  }

  lemma FrameByte(d: seq<Byte>, p: nat, m: F.Image, k: nat)
    requires BytesHere(d, p, FrameBytes(m)) && k < 3 * |m.planes|
    ensures M.At(d, p + 8 + k) == PlaneByte(m, k)
  {
    hide M.At, PlaneByte;
    var b := FrameBytes(m);
    H.ByteAt(d, p, b, 8 + k);
    assert M.At(d, p + (8 + k)) == b[8 + k];
  }

  /** A written frame header, whatever its fields, is read back, and it is accepted if
      and only if the image is one that the decoder takes. */
  lemma FrameRoundTrip(d: seq<Byte>, p: nat, m: F.Image)
    requires Fields(m) && BytesHere(d, p, FrameBytes(m))
    ensures F.FrameReadable(d, p) <==> Accepted(m)
    ensures F.ImageAt(d, p) == m && M.Adv(d, p, 8 + 3 * |m.planes|) == p + |FrameBytes(m)|
  {
    hide M.At, F.MaxH, F.MaxV, F.PlaneAt, F.WholeRatios, Divides;
    var b := FrameBytes(m);
    H.Fits(d, p, b);
    FrameFields(d, p, m);
    forall i | 0 <= i < |m.planes|
      ensures F.PlaneAt(d, p, i) == m.planes[i]
    {
      FramePlane(d, p, m, i);
    }
    assert F.ImageAt(d, p).planes == m.planes;
    if |m.planes| > 0 && forall i :: 0 <= i < |m.planes| ==> F.GoodPlane(m.planes[i]) {
      RatiosExactly(m);
    }
  }

  lemma FrameFields(d: seq<Byte>, p: nat, m: F.Image)
    requires Fields(m) && BytesHere(d, p, FrameBytes(m))
    ensures M.Word(d, p) == 8 + 3 * |m.planes| && M.At(d, p + 2) == 8
    ensures M.Word(d, p + 3) == m.y && M.Word(d, p + 5) == m.x && M.At(d, p + 7) == |m.planes|
  {
    hide M.At, F.MaxH, F.MaxV, F.WholeRatios;
    var b := FrameBytes(m);
    H.ByteAt(d, p, b, 0);
    H.ByteAt(d, p, b, 1);
    H.ByteAt(d, p, b, 2);
    H.ByteAt(d, p, b, 3);
    assert M.At(d, p + 0) == b[0] && M.At(d, p + 1) == b[1] && M.At(d, p + 2) == b[2] && M.At(d, p + 3) == b[3];
    H.ByteAt(d, p, b, 4);
    H.ByteAt(d, p, b, 5);
    H.ByteAt(d, p, b, 6);
    H.ByteAt(d, p, b, 7);
    assert M.At(d, p + 4) == b[4] && M.At(d, p + 5) == b[5] && M.At(d, p + 6) == b[6] && M.At(d, p + 7) == b[7];
  }

  /** Orders of components that a scan header can describe. */
  ghost predicate GoodScan(m: F.Image, order: seq<M.Component>)
  {
    && GoodOrder(m, order) && |order| <= 4 && |order| <= |m.planes|
    && forall k :: 0 <= k < |order| ==> order[k].hd <= 3 && order[k].ha <= 3
  }

  function SelectorByte(m: F.Image, order: seq<M.Component>, i: nat): Byte
    requires i < 2 * |order| && forall k :: 0 <= k < |order| ==> order[k].index < |m.planes|
  {
    var c := order[i / 2];
    if i % 2 == 0 then m.planes[c.index].id else H.Clip(c.hd * 16 + c.ha)
  }

  /** The band and the bit positions that a scan header announces. */
  datatype Spectrum = Spectrum(first: nat, last: nat, high: nat, low: nat)

  /** All coefficients at once, as sequential scans have them. */
  function Whole(): Spectrum
  {
    Spectrum(0, 63, 0, 0)
  }

  /** Spectra that the decoder takes.  It ignores the last coefficient that a
      sequential header announces. */
  ghost predicate GoodSpectrum(sp: Spectrum, progressive: bool)
  {
    if progressive then sp.first <= sp.last <= 63 && sp.high <= 13 && sp.low <= 13
    else sp.first == 0 && sp.high == 0 && sp.low == 0
  }

  /** The fields fit the bytes of a scan header, and every component is the first with
      its identifier. */
  ghost predicate ScanFields(m: F.Image, order: seq<M.Component>, sp: Spectrum)
  {
    && |order| < 256 && sp.first < 256 && sp.last < 256 && sp.high < 16 && sp.low < 16
    && forall k :: 0 <= k < |order| ==> order[k].index < |m.planes| && order[k].hd < 16 && order[k].ha < 16 && FirstNamed(m, order[k].index)
  }

  ghost predicate FirstNamed(m: F.Image, index: nat)
    requires index < |m.planes|
  {
    forall i :: 0 <= i < index ==> m.planes[i].id != m.planes[index].id
  }

  function ScanBytes(m: F.Image, order: seq<M.Component>, sp: Spectrum): (b: seq<Byte>)
    requires forall k :: 0 <= k < |order| ==> order[k].index < |m.planes|
    ensures |b| == 6 + 2 * |order|
  {
    H.WordBytes(6 + 2 * |order|) + [H.Clip(|order|)]
    + seq<Byte>(2 * |order|, i requires 0 <= i < 2 * |order| => SelectorByte(m, order, i))
    + [H.Clip(sp.first), H.Clip(sp.last), H.Clip(sp.high * 16 + sp.low)]
  }

  lemma ScanByte(d: seq<Byte>, p: nat, m: F.Image, order: seq<M.Component>, sp: Spectrum, k: nat)
    requires (forall n :: 0 <= n < |order| ==> order[n].index < |m.planes|) && k < 2 * |order|
    requires BytesHere(d, p, ScanBytes(m, order, sp))
    ensures M.At(d, p + 3 + k) == SelectorByte(m, order, k)
  {
    hide M.At, SelectorByte;
    var b := ScanBytes(m, order, sp);
    H.ByteAt(d, p, b, 3 + k);
    assert M.At(d, p + (3 + k)) == b[3 + k];
  }

  lemma SelectorBytes(m: F.Image, order: seq<M.Component>, i: nat)
    requires i < |order| && (forall k :: 0 <= k < |order| ==> order[k].index < |m.planes|) && order[i].hd < 16 && order[i].ha < 16
    ensures SelectorByte(m, order, 2 * i) == m.planes[order[i].index].id
    ensures SelectorByte(m, order, 2 * i + 1) == order[i].hd * 16 + order[i].ha
  {
    assert (2 * i) / 2 == i && (2 * i) % 2 == 0 && (2 * i + 1) / 2 == i && (2 * i + 1) % 2 == 1;
  }

  lemma ScanSelector(d: seq<Byte>, p: nat, m: F.Image, order: seq<M.Component>, sp: Spectrum, i: nat)
    requires ScanFields(m, order, sp) && BytesHere(d, p, ScanBytes(m, order, sp)) && i < |order|
    ensures M.SelectorAt(d, p, Ids(m), i) == order[i]
  {
    hide M.At, M.FirstIndex, ScanBytes, BytesHere, SelectorByte;
    ScanByte(d, p, m, order, sp, 2 * i);
    ScanByte(d, p, m, order, sp, 2 * i + 1);
    SelectorBytes(m, order, i);
    assert M.At(d, p + 4 + 2 * i) == SelectorByte(m, order, 2 * i + 1);
    var r := M.FirstIndex(Ids(m), 0, m.planes[order[i].index].id);
    assert Ids(m)[order[i].index] == m.planes[order[i].index].id;
    assert r <= order[i].index;
    assert Ids(m)[r] == m.planes[r].id;
  }

  lemma SpectrumStands(d: seq<Byte>, p: nat, m: F.Image, order: seq<M.Component>, sp: Spectrum)
    requires ScanFields(m, order, sp) && BytesHere(d, p, ScanBytes(m, order, sp))
    ensures M.Word(d, p) == 6 + 2 * |order| && M.At(d, p + 2) == |order|
    ensures var q := p + 3 + 2 * |order|;
            && M.At(d, q) == sp.first && M.At(d, q + 1) == sp.last
            && M.At(d, q + 2) / 16 == sp.high && M.At(d, q + 2) % 16 == sp.low
  {
    hide M.At;
    var b, n := ScanBytes(m, order, sp), |order|;
    H.ByteAt(d, p, b, 0);
    H.ByteAt(d, p, b, 1);
    H.ByteAt(d, p, b, 2);
    assert M.At(d, p + 0) == b[0] && M.At(d, p + 1) == b[1] && M.At(d, p + 2) == b[2];
    H.ByteAt(d, p, b, 3 + 2 * n);
    H.ByteAt(d, p, b, 4 + 2 * n);
    H.ByteAt(d, p, b, 5 + 2 * n);
    assert M.At(d, p + (3 + 2 * n)) == b[3 + 2 * n] && M.At(d, p + (4 + 2 * n)) == b[4 + 2 * n] && M.At(d, p + (5 + 2 * n)) == b[5 + 2 * n];
  }

  /** A written scan header, whatever its fields, is read back, and it is accepted if
      and only if it names one to four components, no more than there are, with tables
      up to 3 and a spectrum that the decoder takes. */
  lemma ScanHeaderRoundTrip(d: seq<Byte>, p: nat, m: F.Image, order: seq<M.Component>, sp: Spectrum, progressive: bool)
    requires ScanFields(m, order, sp) && BytesHere(d, p, ScanBytes(m, order, sp))
    ensures M.ScanReadable(d, p, Ids(m), progressive) <==>
              && 1 <= |order| <= 4 && |order| <= |m.planes| && GoodSpectrum(sp, progressive)
              && forall k :: 0 <= k < |order| ==> order[k].hd <= 3 && order[k].ha <= 3
    ensures M.ScanAt(d, p, Ids(m), progressive) == M.Scan(order, sp.first, if progressive then sp.last else 63, sp.high, sp.low)
    ensures M.Adv(d, p, 6 + 2 * |order|) == p + |ScanBytes(m, order, sp)|
  {
    hide M.At, M.SelectorAt;
    H.Fits(d, p, ScanBytes(m, order, sp));
    SpectrumStands(d, p, m, order, sp);
    forall i | 0 <= i < |order|
      ensures M.SelectorAt(d, p, Ids(m), i) == order[i]
    {
      ScanSelector(d, p, m, order, sp, i);
    }
    assert M.ScanAt(d, p, Ids(m), progressive).order == order;
  }

  lemma ScanFieldsFit(m: F.Image, order: seq<M.Component>, sp: Spectrum, progressive: bool)
    requires Writable(m) && GoodScan(m, order) && GoodSpectrum(sp, progressive) && sp.last <= 63
    ensures ScanFields(m, order, sp)
  {
    hide Accepted;
  }

  // ----- the blocks of a scan -----

  function Coef(pic: Coefficients, place: (nat, nat, nat)): Cells
  {
    pic(place.0, place.1, place.2)
  }

  ghost function McuOf(s: Shape, order: seq<M.Component>, us: seq<Unit>, pic: Coefficients, mcu: nat): (zzs: seq<Cells>)
    requires s.Valid() && |s.hs| == |order| && GoodUnits(us, |order|)
    ensures |zzs| == |us|
  {
    seq(|us|, u requires 0 <= u < |us| => Coef(pic, PlaceIn(s, order, us[u], mcu)))
  }

  /** The coefficients of a scan, MCU by MCU. */
  ghost function McusOf(s: Shape, order: seq<M.Component>, us: seq<Unit>, pic: Coefficients): (ms: seq<seq<Cells>>)
    requires s.Valid() && |s.hs| == |order| && GoodUnits(us, |order|)
    ensures |ms| == s.Count() && forall i :: 0 <= i < |ms| ==> |ms[i]| == |us|
  {
    seq(s.Count(), mcu requires 0 <= mcu < s.Count() => McuOf(s, order, us, pic, mcu))
  }

  lemma {:induction false} DequantsAt(comps: seq<Comp>, us: seq<nat>, zzs: seq<Cells>, u: nat)
    requires |zzs| == |us| && (forall b :: 0 <= b < |us| ==> us[b] < |comps|) && u < |us|
    ensures Dequants(comps, us, zzs)[u] == Dequant(zzs[u], comps[us[u]].dq)
    decreases |us|
  {
    hide Dequant;
    if u > 0 {
      DequantsAt(comps, us[1..], zzs[1..], u - 1);
    }
  }

  /** Index of block u of MCU m. */
  function At(m: nat, n: nat, u: nat): int
  {
    m * n + u
  }

  lemma AtStep(m: nat, n: nat, u: nat)
    requires m > 0
    ensures At(m, n, u) == n + At(m - 1, n, u) && At(m - 1, n, u) >= 0
  {
    assert m * n == n + (m - 1) * n;
    Positive(m - 1, n);
  }

  /** What the decoder delivers for block u of MCU m. */
  lemma {:induction false} FlatAt(st: C.Setup, ms: seq<seq<Cells>>, m: nat, u: nat)
    requires st.Valid() && st.Fits(ms) && m < |ms| && u < |st.mcu|
    ensures 0 <= At(m, |st.mcu|, u) < |C.Flat(st, ms)|
    ensures C.Flat(st, ms)[At(m, |st.mcu|, u)] == Dequant(ms[m][u], st.comps[st.mcu[u]].dq)
    decreases |ms|
  {
    hide Dequant, AllSafe, Representable, Dequants;
    var n := |st.mcu|;
    if m == 0 {
      assert At(0, n, u) == u;
      DequantsAt(st.comps, st.mcu, ms[0], u);
    } else {
      AtStep(m, n, u);
      FlatAt(st, ms[1..], m - 1, u);
    }
  }

  lemma {:induction false} FlatLength(st: C.Setup, ms: seq<seq<Cells>>)
    requires st.Valid() && st.Fits(ms)
    ensures |C.Flat(st, ms)| == At(|ms|, |st.mcu|, 0)
    decreases |ms|
  {
    hide Dequant, AllSafe, Representable, Dequants;
    if |ms| > 0 {
      FlatLength(st, ms[1..]);
      AtStep(|ms|, |st.mcu|, 0);
    }
  }

  lemma AtSplits(t: nat, n: nat, c: nat)
    requires n > 0 && t < At(c, n, 0)
    ensures Rem(t, n) < n && Quot(t, n) < c && t == At(Quot(t, n), n, Rem(t, n))
  {
    DivSplit(t, n);
    Less(Quot(t, n), Rem(t, n), n, c);
  }

  // ----- what the planes show -----

  ghost predicate Quantised(t: M.Tables, m: F.Image)
  {
    forall i :: 0 <= i < |m.planes| ==> m.planes[i].tq < |t.quant| && GoodSteps(t.quant[m.planes[i].tq])
  }

  function QuantOf(t: M.Tables, m: F.Image, i: nat): Steps
    requires i < |m.planes| && m.planes[i].tq < |t.quant| && GoodSteps(t.quant[m.planes[i].tq])
  {
    t.quant[m.planes[i].tq]
  }

  /** Block (cx, cy) of plane i as it should be decoded. */
  ghost function Wanted(t: M.Tables, m: F.Image, pic: Coefficients, place: (nat, nat, nat)): Cells
    requires Quantised(t, m) && place.0 < |m.planes|
  {
    Dequant(Coef(pic, place), QuantOf(t, m, place.0))
  }

  /** The scan names plane i. */
  ghost predicate Names(order: seq<M.Component>, i: nat)
  {
    exists k :: 0 <= k < |order| && order[k].index == i
  }

  /** What a scan does to the planes: every block is as before or the right one, and
      planes that the scan does not name stay as they are. */
  ghost predicate Updated(was: seq<Plane>, now: seq<Plane>, t: M.Tables, m: F.Image, pic: Coefficients, order: seq<M.Component>)
    requires Quantised(t, m)
  {
    && |was| == |now| == |m.planes|
    && (forall i :: 0 <= i < |was| && !Names(order, i) ==> now[i] == was[i])
    && (forall i, cx, cy :: 0 <= i < |was| && (cx, cy) in now[i] ==>
          || ((cx, cy) in was[i] && now[i][(cx, cy)] == was[i][(cx, cy)])
          || (Names(order, i) && now[i][(cx, cy)] == Wanted(t, m, pic, (i, cx, cy))))
  }

  ghost predicate RightBlocks(t: M.Tables, m: F.Image, pic: Coefficients, s: Shape, order: seq<M.Component>, us: seq<Unit>, bs: seq<Cells>)
    requires Quantised(t, m) && s.Valid() && |s.hs| == |order| && |us| > 0 && GoodUnits(us, |order|) && GoodOrder(m, order)
  {
    forall x :: 0 <= x < |bs| ==> bs[x] == Wanted(t, m, pic, PlaceOf(s, order, us, x))
  }

  lemma {:induction false} StoreUpdates(planes: seq<Plane>, t: M.Tables, m: F.Image, pic: Coefficients,
                                        s: Shape, order: seq<M.Component>, us: seq<Unit>, bs: seq<Cells>, n: nat)
    requires Quantised(t, m) && s.Valid() && |s.hs| == |order| && |us| > 0 && GoodUnits(us, |order|) && GoodOrder(m, order)
    requires |planes| == |m.planes| && RightBlocks(t, m, pic, s, order, us, bs) && n <= |bs|
    ensures Updated(planes, Store(planes, s, order, us, bs, n), t, m, pic, order)
    decreases n
  {
    hide Wanted, PlaceIn;
    if n > 0 {
      StoreUpdates(planes, t, m, pic, s, order, us, bs, n - 1);
      var (i, cx, cy) := PlaceOf(s, order, us, n - 1);
      PlaneOf(s, order, us, n - 1);
      assert Names(order, i);
      assert bs[n - 1] == Wanted(t, m, pic, (i, cx, cy));
    }
  }

  lemma PlaneOf(s: Shape, order: seq<M.Component>, us: seq<Unit>, t: nat)
    requires s.Valid() && |s.hs| == |order| && |us| > 0 && GoodUnits(us, |order|)
    ensures exists k :: 0 <= k < |order| && PlaceOf(s, order, us, t).0 == order[k].index
  {
    var k := us[Rem(t, |us|)].k;
    assert PlaceOf(s, order, us, t).0 == order[k].index;
  }

  /** A stored block is there, and it is the right one. */
  lemma {:induction false} StoreHas(planes: seq<Plane>, t: M.Tables, m: F.Image, pic: Coefficients,
                                    s: Shape, order: seq<M.Component>, us: seq<Unit>, bs: seq<Cells>, n: nat, x: nat)
    requires Quantised(t, m) && s.Valid() && |s.hs| == |order| && |us| > 0 && GoodUnits(us, |order|) && GoodOrder(m, order)
    requires |planes| == |m.planes| && RightBlocks(t, m, pic, s, order, us, bs) && x < n <= |bs|
    ensures var r, (i, cx, cy) := Store(planes, s, order, us, bs, n), PlaceOf(s, order, us, x);
            i < |planes| && (cx, cy) in r[i] && r[i][(cx, cy)] == Wanted(t, m, pic, (i, cx, cy))
    decreases n
  {
    hide PlaceIn, Quot, Rem, Wanted;
    PlaneOf(s, order, us, x);
    PlaneOf(s, order, us, n - 1);
    assert bs[n - 1] == Wanted(t, m, pic, PlaceOf(s, order, us, n - 1));
    if x < n - 1 {
      StoreHas(planes, t, m, pic, s, order, us, bs, n - 1, x);
    }
  }

  // ----- every block of a component is there -----

  /** The unit of a component at a place in the MCU. */
  lemma {:induction false} UnitAt(s: Shape, k0: nat, k: nat, dx: nat, dy: nat) returns (u: nat)
    requires s.Valid() && k0 <= k < |s.hs| && dx < s.hs[k] && dy < s.vs[k]
    ensures u < |s.UnitsFrom(k0)| && s.UnitsFrom(k0)[u] == Unit(k, dx, dy)
    decreases k - k0
  {
    hide Shape.UnitsOf;
    if k0 == k {
      u := OwnUnitAt(s, k, dx, dy);
    } else {
      var v := UnitAt(s, k0 + 1, k, dx, dy);
      u := |s.UnitsOf(k0)| + v;
    }
  }

  lemma OwnUnitAt(s: Shape, k: nat, dx: nat, dy: nat) returns (u: nat)
    requires s.Valid() && k < |s.hs| && dx < s.hs[k] && dy < s.vs[k]
    ensures u < |s.UnitsOf(k)| && s.UnitsOf(k)[u] == Unit(k, dx, dy)
  {
    var h, v := s.hs[k], s.vs[k];
    u := dy * h + dx;
    QuotRem(dy, h, dx);
    Nest(dy, dx, h, v);
    assert v * h == h * v;
  }

  /** The index of the block at a place of component k. */
  lemma BlockAt(s: Shape, order: seq<M.Component>, k: nat, cx: nat, cy: nat) returns (x: nat)
    requires s.Valid() && |s.hs| == |order| && k < |order| && cx < s.mx * s.hs[k] && cy < s.my * s.vs[k]
    requires GoodUnits(s.UnitsFrom(0), |order|) && |s.UnitsFrom(0)| > 0
    ensures x < At(s.Count(), |s.UnitsFrom(0)|, 0) && PlaceOf(s, order, s.UnitsFrom(0), x) == (order[k].index, cx, cy)
  {
    hide Shape.UnitsFrom, GoodUnits;
    var us := s.UnitsFrom(0);
    var h, v := s.hs[k], s.vs[k];
    DivSplit(cx, h);
    DivSplit(cy, v);
    Less(cx / h, cx % h, h, s.mx);
    Less(cy / v, cy % v, v, s.my);
    var mcu := (cy / v) * s.mx + cx / h;
    Nest(cy / v, cx / h, s.mx, s.my);
    QuotRem(cy / v, s.mx, cx / h);
    var u := UnitAt(s, 0, k, cx % h, cy % v);
    x := mcu * |us| + u;
    QuotRem(mcu, |us|, u);
    assert mcu < s.Count();
    Nest(mcu, u, |us|, s.Count());
    PlaceIs(s, order, us, x, mcu, u, k, cx, cy);
  }

  lemma PlaceIs(s: Shape, order: seq<M.Component>, us: seq<Unit>, x: nat, mcu: nat, u: nat, k: nat, cx: nat, cy: nat)
    requires s.Valid() && |s.hs| == |order| && |us| > 0 && GoodUnits(us, |order|) && k < |order| && u < |us|
    requires Quot(x, |us|) == mcu && Rem(x, |us|) == u && us[u] == Unit(k, cx % s.hs[k], cy % s.vs[k])
    requires Quot(mcu, s.mx) == cy / s.vs[k] && Rem(mcu, s.mx) == cx / s.hs[k]
    requires cx == (cx / s.hs[k]) * s.hs[k] + cx % s.hs[k] && cy == (cy / s.vs[k]) * s.vs[k] + cy % s.vs[k]
    ensures PlaceOf(s, order, us, x) == (order[k].index, cx, cy)
  {
    hide Quot, Rem;
  }

  // ----- one written scan -----

  ghost function SetupOf(t: M.Tables, m: F.Image, order: seq<M.Component>, us: seq<Unit>): C.Setup
    requires (forall k :: 0 <= k < |order| ==> Defined(t, m, order[k])) && GoodUnits(us, |order|)
  {
    C.Setup(CompsOf(t, m, order), Kinds(us, order), t.restart)
  }

  /** The scan of the given components can be written: the tables have every code
      that it needs, and its DC values are representable. */
  ghost predicate Encodable(t: M.Tables, m: F.Image, order: seq<M.Component>, pic: Coefficients)
    requires GoodImage(m) && GoodOrder(m, order)
  {
    && AllDefined(t, m, order)
    && ShapeOf(m, order).Valid() && |ShapeOf(m, order).hs| == |order|
    && var s := ShapeOf(m, order);
       var us := s.UnitsFrom(0);
    && GoodUnits(us, |order|)
    && var st, ms := SetupOf(t, m, order, us), McusOf(s, order, us, pic);
       st.Valid() && st.Fits(ms) && forall last :: C.EncodeScan(st, ms, 0, last).Some?
  }

  /** The bytes of the scan, with the marker behind it. */
  ghost function DataBytes(t: M.Tables, m: F.Image, order: seq<M.Component>, pic: Coefficients, last: Byte): seq<Byte>
    requires GoodImage(m) && GoodOrder(m, order) && Encodable(t, m, order, pic)
  {
    var s := ShapeOf(m, order);
    var us := s.UnitsFrom(0);
    C.EncodeScan(SetupOf(t, m, order, us), McusOf(s, order, us, pic), 0, last).value
  }

  lemma SetupComps(t: M.Tables, m: F.Image, order: seq<M.Component>, us: seq<Unit>, u: nat)
    requires (forall k :: 0 <= k < |order| ==> Defined(t, m, order[k])) && GoodUnits(us, |order|) && u < |us|
    ensures var st := SetupOf(t, m, order, us);
            && |st.mcu| == |us| && st.mcu[u] < |st.comps| == |order|
            && st.comps[st.mcu[u]].dq == t.quant[m.planes[order[us[u].k].index].tq]
  {
    KindsInRange(us, order);
  }

  /** The blocks that a written scan delivers are the right ones. */
  lemma BlocksAreRight(t: M.Tables, m: F.Image, pic: Coefficients, s: Shape, order: seq<M.Component>, us: seq<Unit>)
    requires Quantised(t, m) && s.Valid() && |s.hs| == |order| && |us| > 0 && GoodUnits(us, |order|) && GoodOrder(m, order)
    requires forall k :: 0 <= k < |order| ==> Defined(t, m, order[k])
    requires var st, ms := SetupOf(t, m, order, us), McusOf(s, order, us, pic); st.Valid() && st.Fits(ms)
    ensures var bs := C.Flat(SetupOf(t, m, order, us), McusOf(s, order, us, pic));
            RightBlocks(t, m, pic, s, order, us, bs) && |bs| == At(s.Count(), |us|, 0)
  {
    hide Dequant, C.Flat, Quot, Rem, At, C.Setup.Valid, C.Setup.Fits, Defined, Shape.Count;
    var st, ms := SetupOf(t, m, order, us), McusOf(s, order, us, pic);
    var bs := C.Flat(st, ms);
    FlatLength(st, ms);
    forall x | 0 <= x < |bs|
      ensures bs[x] == Wanted(t, m, pic, PlaceOf(s, order, us, x))
    {
      AtSplits(x, |us|, s.Count());
      var q, u := Quot(x, |us|), Rem(x, |us|);
      FlatAt(st, ms, q, u);
      SetupComps(t, m, order, us, u);
      BlockIs(t, m, pic, s, order, us, ms, q, u);
    }
  }

  lemma BlockIs(t: M.Tables, m: F.Image, pic: Coefficients, s: Shape, order: seq<M.Component>, us: seq<Unit>, ms: seq<seq<Cells>>, q: nat, u: nat)
    requires Quantised(t, m) && s.Valid() && |s.hs| == |order| && GoodUnits(us, |order|) && GoodOrder(m, order)
    requires ms == McusOf(s, order, us, pic) && q < s.Count() && u < |us|
    ensures var i := order[us[u].k].index;
            && PlaceIn(s, order, us[u], q).0 == i
            && Dequant(ms[q][u], QuantOf(t, m, i)) == Wanted(t, m, pic, PlaceIn(s, order, us[u], q))
  {
    hide Dequant, Quot, Rem;
  }

  /** The planes that one written scan leaves. */
  ghost function After(t: M.Tables, m: F.Image, order: seq<M.Component>, pic: Coefficients, planes: seq<Plane>): seq<Plane>
    requires GoodImage(m) && GoodOrder(m, order) && Encodable(t, m, order, pic) && |planes| == |m.planes|
  {
    var s := ShapeOf(m, order);
    var us := s.UnitsFrom(0);
    var bs := C.Flat(SetupOf(t, m, order, us), McusOf(s, order, us, pic));
    if |us| == 0 then planes else Store(planes, s, order, us, bs, |bs|)
  }

  /** Plane i is there in full as the scan names it: every block is at its place and
      is the right one. */
  ghost predicate Complete(planes: seq<Plane>, t: M.Tables, m: F.Image, pic: Coefficients, order: seq<M.Component>, i: nat)
    requires GoodImage(m) && GoodOrder(m, order) && Quantised(t, m)
  {
    var s := ShapeOf(m, order);
    && |s.hs| == |s.vs| == |order| && i < |planes| == |m.planes|
    && forall k, cx: nat, cy: nat ::
         0 <= k < |order| && order[k].index == i && cx < s.mx * s.hs[k] && cy < s.my * s.vs[k] ==>
           (cx, cy) in planes[i] && planes[i][(cx, cy)] == Wanted(t, m, pic, (i, cx, cy))
  }

  /** A written scan completes the planes that it names and leaves the others. */
  lemma AfterScan(t: M.Tables, m: F.Image, order: seq<M.Component>, pic: Coefficients, planes: seq<Plane>)
    requires GoodImage(m) && GoodOrder(m, order) && Encodable(t, m, order, pic) && Quantised(t, m) && |planes| == |m.planes|
    ensures Updated(planes, After(t, m, order, pic, planes), t, m, pic, order)
    ensures forall i :: 0 <= i < |planes| ==> Complete(After(t, m, order, pic, planes), t, m, pic, order, i)
  {
    hide Dequant, C.Flat, PlaceIn, At, C.Setup.Valid, C.Setup.Fits, C.EncodeScan, Defined, Shape.Count, ShapeOf, RightBlocks, Shape.UnitsFrom, Wanted, Quantised, Updated;
    var s := ShapeOf(m, order);
    var us := s.UnitsFrom(0);
    var bs := C.Flat(SetupOf(t, m, order, us), McusOf(s, order, us, pic));
    var end := After(t, m, order, pic, planes);
    var u0 := UnitAt(s, 0, 0, 0, 0);
    BlocksAreRight(t, m, pic, s, order, us);
    StoreUpdates(planes, t, m, pic, s, order, us, bs, |bs|);
    SameCount(planes, end, t, m, pic, order);
    forall i | 0 <= i < |planes|
      ensures Complete(end, t, m, pic, order, i)
    {
      forall k, cx: nat, cy: nat | 0 <= k < |order| && order[k].index == i && cx < s.mx * s.hs[k] && cy < s.my * s.vs[k]
        ensures (cx, cy) in end[i] && end[i][(cx, cy)] == Wanted(t, m, pic, (i, cx, cy))
      {
        var x := BlockAt(s, order, k, cx, cy);
        StoreHas(planes, t, m, pic, s, order, us, bs, |bs|, x);
      }
    }
  }

  lemma SameCount(was: seq<Plane>, now: seq<Plane>, t: M.Tables, m: F.Image, pic: Coefficients, order: seq<M.Component>)
    requires Quantised(t, m) && Updated(was, now, t, m, pic, order)
    ensures |was| == |now| == |m.planes|
  {
  }

  lemma CountIsSmall(m: F.Image, order: seq<M.Component>)
    requires GoodImage(m) && GoodOrder(m, order) && m.x <= F.MAX_DIMENSIONS && m.y <= F.MAX_DIMENSIONS
    ensures 1 <= ShapeOf(m, order).Count() <= 4000000
  {
    hide Axis.Mcus, Axis.OwnBlocks, F.MaxH, F.MaxV;
    var i := order[0].index;
    AxisCounts(AxisX(m, i));
    AxisCounts(AxisY(m, i));
    AxisSmall(AxisX(m, i));
    AxisSmall(AxisY(m, i));
    var s := ShapeOf(m, order);
    SmallProduct(s.mx, s.my);
  }

  lemma SmallProduct(a: nat, b: nat)
    requires 1 <= a <= 2000 && 1 <= b <= 2000
    ensures 1 <= a * b <= 4000000
  {
    MulMono(a, 2000, b);
    MulMono(1, a, b);
  }

  lemma AxisSmall(a: Axis)
    requires a.Valid()
    ensures a.Mcus() <= a.size && a.OwnBlocks() <= a.size
  {
    MulMono(1, a.top * 8, a.size);
    CeilDivIsLeast(a.size, a.top * 8, a.size);
    MulMono(a.factor, a.top, a.size);
    CeilDivIsLeast(a.size * a.factor, a.top, a.size);
    assert a.Samples() == CeilDiv(a.size * a.factor, a.top) <= a.size;
  }

  /** One written scan is decoded into its place, up to the marker behind it. */
  lemma ScanIsStored(d: seq<Byte>, p: nat, t: M.Tables, m: F.Image, order: seq<M.Component>, e: seq<M.Component>,
                     pic: Coefficients, last: Byte, planes: seq<Plane>)
    requires Writable(m) && GoodImage(m) && GoodScan(m, order) && e == Effective(order) && GoodOrder(m, e)
    requires Encodable(t, m, e, pic) && |planes| == |m.planes| && IsMarker(last) && !Restart(last)
    requires BytesHere(d, p, ScanBytes(m, order, Whole()) + DataBytes(t, m, e, pic, last))
    ensures DecodeScan(d, p, t, m, planes) ==
              Placed(After(t, m, e, pic, planes), last, p + |ScanBytes(m, order, Whole())| + |DataBytes(t, m, e, pic, last)|)
  {
    hide Dequant, C.Flat, PlaceIn, At, C.EncodeScan, Defined, Shape.Count, ShapeOf, Shape.UnitsFrom, BytesHere, Writable, M.ScanReadable, M.ScanAt,
         ScanFrom, LastStart, NextMarker, BytesHere, C.Scan, C.Last, HuffCode.Safe, M.Adv, Store, C.Setup.Valid, C.Setup.Fits, Effective, Kinds;
    var head, data := ScanBytes(m, order, Whole()), DataBytes(t, m, e, pic, last);
    BytesConcat(d, p, head, data);
    H.Fits(d, p, head);
    ScanFieldsFit(m, order, Whole(), false);
    ScanHeaderRoundTrip(d, p, m, order, Whole(), false);
    var s := ShapeOf(m, e);
    var us := s.UnitsFrom(0);
    ShapeIsValid(m, e);
    Dimensions(m);
    CountIsSmall(m, e);
    var st, ms := SetupOf(t, m, e, us), McusOf(s, e, us, pic);
    var u0 := UnitAt(s, 0, 0, 0, 0);
    ScanIsRead(d, p + |head|, st, ms, last, s);
  }

  lemma Dimensions(m: F.Image)
    requires Writable(m)
    ensures m.x <= F.MAX_DIMENSIONS && m.y <= F.MAX_DIMENSIONS
  {
  }

  /** The written data of a scan, read from their first byte. */
  lemma ScanIsRead(d: seq<Byte>, start: nat, st: C.Setup, ms: seq<seq<Cells>>, last: Byte, s: Shape)
    requires st.Valid() && st.Fits(ms) && |ms| == s.Count() && 1 <= s.Count() <= 4000000 && IsMarker(last) && !Restart(last)
    requires C.EncodeScan(st, ms, 0, last).Some? && start <= |d| && BytesHere(d, start, C.EncodeScan(st, ms, 0, last).value)
    ensures BlocksOf(d, start, st.comps, st.mcu, st.interval, s) == Finished(C.Flat(st, ms))
    ensures MarkBehind(d, start, st.comps, st.mcu, st.interval, s) == (last, start + |C.EncodeScan(st, ms, 0, last).value|)
  {
    hide C.EncodeScan, C.Flat, ScanFrom, LastStart, NextMarker, BytesHere, C.Setup.Fits, Zeroes;
    C.ScanRoundTrip(st, ms, 0, last, d, start);
    C.ScanEnds(st, ms, 0, last, d, start);
  }
}
