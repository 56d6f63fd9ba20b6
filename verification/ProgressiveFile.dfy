/** Writing a whole progressive file, and the theorem that decoding it gives every
    coefficient of every block as precisely as its scans sent it. */
module ProgressiveFile {
  import opened Wrappers
  import opened Bits
  import opened Machine
  import opened Zigzag
  import opened Stuffing
  import opened ScanSequence
  import opened Block
  import opened BaselineScan
  import opened Geometry
  import opened Picture
  import opened ProgressivePicture
  import opened ProgressiveCoding
  import opened JpegFile
  import C = FileCoding
  import P = PictureCoding
  import M = Markers
  import F = Frames
  import H = HeaderCoding

  /** A scan as it is written: the segments in front of it, its header, and for a band
      the grouping of its blocks into EOB runs. */
  datatype Sent = Sent(segs: seq<H.Segment>, order: seq<M.Component>, sp: P.Spectrum, plans: seq<seq<nat>>)

  // ----- bytes -----

  /** The scan can be written with the tables in force, at the levels reached. */
  ghost predicate GoodSent(t: M.Tables, m: F.Image, w: Sent, pic: P.Coefficients, lvs: seq<Levels>)
  {
    && P.Writable(m) && GoodImage(m) && (forall i :: 0 <= i < |w.segs| ==> H.GoodSegment(w.segs[i]))
    && Sendable(H.MeaningAll(t, w.segs), m, w.order, w.sp, w.plans, pic, lvs)
  }

  ghost predicate Sending(t: M.Tables, m: F.Image, scans: seq<Sent>, pic: P.Coefficients, lvs: seq<Levels>)
    decreases |scans|
  {
    |scans| > 0 ==>
      && GoodSent(t, m, scans[0], pic, lvs)
      && Sending(H.MeaningAll(t, scans[0].segs), m, scans[1..], pic, TrackAll(lvs, scans[0].order, KindOf(scans[0].sp)))
  }

  function Lead(scans: seq<Sent>): Byte
  {
    if |scans| == 0 then 0xd9 else C.LeadTo(scans[0].segs)
  }

  /** The bytes behind the leading marker. */
  ghost function Tail(t: M.Tables, m: F.Image, scans: seq<Sent>, pic: P.Coefficients, lvs: seq<Levels>): seq<Byte>
    requires Sending(t, m, scans, pic, lvs)
    decreases |scans|
  {
    if |scans| == 0 then [] else
    var w, t1 := scans[0], H.MeaningAll(t, scans[0].segs);
    C.Segs(w.segs)
    + (P.ScanBytes(m, w.order, w.sp) + PassBytes(t1, m, w.order, w.sp, w.plans, pic, lvs, Lead(scans[1..]))
       + Tail(t1, m, scans[1..], pic, TrackAll(lvs, w.order, KindOf(w.sp))))
  }

  /** The levels of the planes after the scans. */
  ghost function LevelsAfter(lvs: seq<Levels>, scans: seq<Sent>): (r: seq<Levels>)
    ensures |r| == |lvs|
    decreases |scans|
  {
    if |scans| == 0 then lvs else LevelsAfter(TrackAll(lvs, scans[0].order, KindOf(scans[0].sp)), scans[1..])
  }

  /** The tables in force at the end. */
  function TablesAfter(t: M.Tables, scans: seq<Sent>): M.Tables
    decreases |scans|
  {
    if |scans| == 0 then t else TablesAfter(H.MeaningAll(t, scans[0].segs), scans[1..])
  }

  // ----- decoding -----

  lemma LeadIsMarker(t: M.Tables, m: F.Image, scans: seq<Sent>, pic: P.Coefficients, lvs: seq<Levels>)
    requires Sending(t, m, scans, pic, lvs)
    ensures IsMarker(Lead(scans)) && !Restart(Lead(scans))
  {
    hide Sendable, P.Writable, GoodImage, H.GoodSegment, C.LeadTo;
    if |scans| > 0 {
      C.LeadToIsMarker(scans[0].segs);
    }
  }

  lemma SendableOrder(t: M.Tables, m: F.Image, order: seq<M.Component>, sp: P.Spectrum, plans: seq<seq<nat>>, pic: P.Coefficients, lvs: seq<Levels>)
    requires GoodImage(m) && Sendable(t, m, order, sp, plans, pic, lvs)
    ensures GoodOrder(m, order)
  {
    hide GoodImage, TablesThere, Encoded, ShapeOf, Shape.UnitsFrom, Legal;
  }

  /** Decoding the written scans, with their segments, brings every plane to the levels
      that they reach. */
  lemma {:induction false} ScansRoundTrip(d: seq<Byte>, p: nat, t: M.Tables, m: F.Image, scans: seq<Sent>, pic: P.Coefficients,
                                          lvs: seq<Levels>, mem: Memory, planes: seq<Plane>) returns (end: seq<Plane>)
    requires Sending(t, m, scans, pic, lvs) && C.AllSteps(t) && P.Writable(m) && GoodImage(m) && CodablePicture(pic)
    requires AllShow(lvs, planes, mem, m, pic) && |planes| == |m.planes| && BytesHere(d, p, Tail(t, m, scans, pic, lvs))
    ensures C.AllSteps(TablesAfter(t, scans)) && |end| == |m.planes| && AllShow(LevelsAfter(lvs, scans), end, mem, m, pic)
    ensures ScansFrom(d, p, Lead(scans), t, m, Progressive(mem), planes) ==
              JpegFile.Picture(FinishedPlanes(end, mem, m, TablesAfter(t, scans)))
    decreases |scans|
  {
    hide DecodePass, PassBytes, Sendable, P.Writable, GoodImage, BytesHere, M.Shaped, M.Process, P.ScanBytes, C.Segs, H.MeaningAll, H.GoodSegment,
         AllShow, TrackAll, FinishedPlanes, CodablePicture, C.LeadTo;
    if |scans| == 0 {
      end := planes;
    } else {
      var w, t1, rest := scans[0], H.MeaningAll(t, scans[0].segs), scans[1..];
      var next := TrackAll(lvs, w.order, KindOf(w.sp));
      var last := Lead(rest);
      LeadIsMarker(t1, m, rest, pic, next);
      SendableOrder(t1, m, w.order, w.sp, w.plans, pic, lvs);
      var front, head := C.Segs(w.segs), P.ScanBytes(m, w.order, w.sp);
      var data, tail := PassBytes(t1, m, w.order, w.sp, w.plans, pic, lvs, last), Tail(t1, m, rest, pic, next);
      BytesConcat(d, p, front, head + data + tail);
      BytesConcat(d, p + |front|, head + data, tail);
      C.SegmentsPass(d, p, t, m, w.segs, Progressive(mem), planes);
      C.SegmentsKeepSteps(t, w.segs);
      PassIsStored(d, p + |front|, t1, m, w.order, w.sp, w.plans, pic, lvs, last, mem, planes);
      var one := DecodePass(d, p + |front|, t1, m, mem, planes).planes;
      end := ScansRoundTrip(d, p + |front| + |head| + |data|, t1, m, rest, pic, next, mem, one);
    }
  }

  // ----- what is decoded -----

  /** Coefficient k of a block as far as the level tells it. */
  ghost function Told(lv: Levels, zz: Cells, k: nat): int
    requires k < 64
  {
    if lv[k].Some? then Known(zz[k], k, lv[k].value) else 0
  }

  /** A block for the inverse transform: what the level tells, times the steps. */
  ghost predicate Precise(lv: Levels, cells: Cells, zz: Cells, q: seq<nat>)
    requires |q| == 64
  {
    lv[0].Some? ==> forall k :: 0 <= k < 64 ==> cells[Zig(k)] == ToShort(Told(lv, zz, k) * q[Zig(k)])
  }

  lemma ScaledIsPrecise(lv: Levels, cells: Cells, zz: Cells, q: seq<nat>)
    requires Shows(lv, cells, zz) && |q| == 64
    ensures Precise(lv, Scaled(cells, q), zz, q)
  {
    hide Zig, ToShort, Known;
    if lv[0].Some? {
      forall k | 0 <= k < 64
        ensures Scaled(cells, q)[Zig(k)] == ToShort(Told(lv, zz, k) * q[Zig(k)])
      {
        assert cells[Zig(k)] == Told(lv, zz, k);
      }
    }
  }

  /** Every coefficient is known exactly. */
  ghost predicate Exact(lv: Levels)
  {
    forall k :: 0 <= k < 64 ==> lv[k] == Some(0)
  }

  lemma ExactIsDequant(lv: Levels, cells: Cells, zz: Cells, q: Steps)
    requires Exact(lv) && Precise(lv, cells, zz, q)
    ensures cells == Dequant(zz, q)
  {
    hide Zig, Zag, ToShort, Known;
    forall x | 0 <= x < 64
      ensures cells[x] == Dequant(zz, q)[x]
    {
      ZigPermutes(x);
      FullyKnown(zz[Zag(x)], Zag(x));
      assert cells[Zig(Zag(x))] == ToShort(Told(lv, zz, Zag(x)) * q[Zig(Zag(x))]);
    }
  }

  /** The planes hold exactly the own blocks of their components, each as precise as
      its plane. */
  ghost predicate Complete(planes: seq<Plane>, m: F.Image, t: M.Tables, lvs: seq<Levels>, pic: P.Coefficients)
    requires GoodImage(m) && M.Shaped(t)
  {
    && |planes| == |lvs| == |m.planes|
    && forall i: nat, cx: nat, cy: nat :: i < |m.planes| ==>
         && ((cx, cy) in planes[i] <==> Own(m, i, cx, cy))
         && ((cx, cy) in planes[i] ==> Precise(lvs[i], planes[i][(cx, cy)], pic(i, cx, cy), t.quant[m.planes[i].tq]))
  }

  lemma FinishIsComplete(planes: seq<Plane>, mem: Memory, m: F.Image, t: M.Tables, lvs: seq<Levels>, pic: P.Coefficients)
    requires GoodImage(m) && M.Shaped(t) && |planes| == |m.planes| && AllShow(lvs, planes, mem, m, pic)
    ensures Complete(FinishedPlanes(planes, mem, m, t), m, t, lvs, pic)
  {
    hide Precise, Scaled, Fetch, Shows, Axis.OwnBlocks, F.MaxH, F.MaxV;
    forall i: nat, cx: nat, cy: nat | i < |m.planes|
      ensures var r := FinishedPlanes(planes, mem, m, t);
              && ((cx, cy) in r[i] <==> Own(m, i, cx, cy))
              && ((cx, cy) in r[i] ==> Precise(lvs[i], r[i][(cx, cy)], pic(i, cx, cy), t.quant[m.planes[i].tq]))
    {
      if Own(m, i, cx, cy) {
        ScaledIsPrecise(lvs[i], Fetch(planes, mem, (i, cx, cy)), pic(i, cx, cy), t.quant[m.planes[i].tq]);
      }
    }
  }

  // ----- the file -----

  ghost function Start(m: F.Image): (lvs: seq<Levels>)
    ensures |lvs| == |m.planes|
  {
    seq(|m.planes|, _ => Unknown())
  }

  ghost function FileBytes(segs: seq<H.Segment>, m: F.Image, scans: seq<Sent>, pic: P.Coefficients): seq<Byte>
    requires Sending(C.TablesOf(segs), m, scans, pic, Start(m))
  {
    [0xff, 0xd8] + (H.Stream(segs, 0xc2) + (P.FrameBytes(m) + ([0xff, Lead(scans)] + Tail(C.TablesOf(segs), m, scans, pic, Start(m)))))
  }

  lemma StartShows(m: F.Image, mem: Memory, pic: P.Coefficients)
    requires GoodImage(m)
    ensures AllShow(Start(m), NoBlocks(|m.planes|), mem, m, pic)
  {
    hide Fetch, Axis.OwnBlocks, F.MaxH, F.MaxV;
  }

  /** Decoding a written progressive file, whatever its scans and whatever the memory
      held: the planes hold exactly the blocks of their components, with every
      coefficient as precise as the scans made it. */
  lemma FileRoundTrip(segs: seq<H.Segment>, m: F.Image, scans: seq<Sent>, pic: P.Coefficients, d: seq<Byte>, mem: Memory)
    requires (forall i :: 0 <= i < |segs| ==> H.GoodSegment(segs[i])) && P.Writable(m) && CodablePicture(pic)
    requires Sending(C.TablesOf(segs), m, scans, pic, Start(m)) && BytesHere(d, 0, FileBytes(segs, m, scans, pic))
    ensures GoodImage(m) && C.AllSteps(TablesAfter(C.TablesOf(segs), scans))
    ensures var r := DecodeFile(d, mem);
            r.Picture? && Complete(r.planes, m, TablesAfter(C.TablesOf(segs), scans), LevelsAfter(Start(m), scans), pic)
  {
    hide BytesHere, H.Stream, P.FrameBytes, Tail, H.MeaningAll, M.Shaped, P.Writable, GoodImage, M.HeaderFrom, ScansFrom, AllShow, CodablePicture,
         F.FrameReadable, F.ImageAt, M.MarkerAt, H.GoodSegment, Sending, Lead, LevelsAfter, TablesAfter, Complete, Start, FinishedPlanes;
    var t := C.TablesOf(segs);
    var stream, frame, tail := H.Stream(segs, 0xc2), P.FrameBytes(m), Tail(t, m, scans, pic, Start(m));
    var lead := Lead(scans);
    var p1 := 2 + |stream|;
    var p2 := p1 + |frame|;
    BytesConcat(d, 0, [0xff, 0xd8], stream + (frame + ([0xff, lead] + tail)));
    BytesConcat(d, 2, stream, frame + ([0xff, lead] + tail));
    BytesConcat(d, p1, frame, [0xff, lead] + tail);
    BytesConcat(d, p2, [0xff, lead], tail);
    H.MarkerStands(d, 0, 0xd8);
    C.StartSteps();
    C.SegmentsKeepSteps(M.NoTables(), segs);
    H.HeaderRoundTrip(d, 2, segs, 0xc2, M.NoTables());
    P.WritableIsGood(m);
    P.FrameRoundTrip(d, p1, m);
    AcceptedIsGood(d, p1);
    LeadIsMarker(t, m, scans, pic, Start(m));
    H.MarkerStands(d, p2, lead);
    StartShows(m, mem, pic);
    var end := ScansRoundTrip(d, p2 + 2, t, m, scans, pic, Start(m), mem, NoBlocks(|m.planes|));
    FinishIsComplete(end, mem, m, TablesAfter(t, scans), LevelsAfter(Start(m), scans), pic);
  }

  /** A plane whose scans take all coefficients to position 0 is exact: every block is
      the written one, dequantised. */
  lemma ExactPlane(planes: seq<Plane>, m: F.Image, t: M.Tables, lvs: seq<Levels>, pic: P.Coefficients, i: nat, cx: nat, cy: nat)
    requires GoodImage(m) && C.AllSteps(t) && Complete(planes, m, t, lvs, pic) && Own(m, i, cx, cy) && Exact(lvs[i])
    ensures (cx, cy) in planes[i] && planes[i][(cx, cy)] == Dequant(pic(i, cx, cy), t.quant[m.planes[i].tq])
  {
    hide Precise, Exact, Dequant;
    ExactIsDequant(lvs[i], planes[i][(cx, cy)], pic(i, cx, cy), t.quant[m.planes[i].tq]);
  }

  /** A picture written progressively and sequentially, with the same steps for plane
      i, decodes to the same blocks of that plane. */
  lemma SameAsSequential(segs: seq<H.Segment>, scans: seq<Sent>, d: seq<Byte>,
                         other: seq<H.Segment>, kind: Byte, written: seq<C.Written>, e: seq<Byte>,
                         m: F.Image, pic: P.Coefficients, mem: Memory, i: nat, n: nat, cx: nat, cy: nat)
    requires (forall k :: 0 <= k < |segs| ==> H.GoodSegment(segs[k])) && P.Writable(m) && CodablePicture(pic)
    requires Sending(C.TablesOf(segs), m, scans, pic, Start(m)) && BytesHere(d, 0, FileBytes(segs, m, scans, pic))
    requires (forall k :: 0 <= k < |other| ==> H.GoodSegment(other[k])) && (kind == 0xc0 || kind == 0xc1)
    requires C.Writing(C.TablesOf(other), m, written, pic) && BytesHere(e, 0, C.FileBytes(other, kind, m, written, pic))
    requires GoodImage(m) && Own(m, i, cx, cy) && Exact(LevelsAfter(Start(m), scans)[i])
    requires n < |written| && P.Names(Effective(written[n].order), i) && C.LastFor(written, n, i)
    requires StepsOf(C.TablesAt(C.TablesOf(other), written, n), m, i) == StepsOf(TablesAfter(C.TablesOf(segs), scans), m, i)
    ensures var a, b := DecodeFile(d, mem), DecodeFile(e, mem);
            && a.Picture? && b.Picture? && i < |a.planes| == |b.planes|
            && (cx, cy) in a.planes[i] && (cx, cy) in b.planes[i] && a.planes[i][(cx, cy)] == b.planes[i][(cx, cy)]
  {
    hide BytesHere, FileBytes, C.FileBytes, DecodeFile, Sending, C.Writing, P.Writable, GoodImage, CodablePicture, LevelsAfter, TablesAfter, C.TablesAt,
         Complete, C.AllComplete, C.CompleteAt, C.FromSome, Exact, Dequant, H.GoodSegment, P.Names, C.LastFor, Effective, C.TablesOf, C.AllSteps;
    FileRoundTrip(segs, m, scans, pic, d, mem);
    C.FileRoundTrip(other, kind, m, written, pic, e, mem);
    var t, last := TablesAfter(C.TablesOf(segs), scans), C.TablesAt(C.TablesOf(other), written, n);
    InImage(m, i, cx, cy);
    ShapedSteps(t);
    CompleteSize(DecodeFile(d, mem).planes, m, t, LevelsAfter(Start(m), scans), pic);
    ExactPlane(DecodeFile(d, mem).planes, m, t, LevelsAfter(Start(m), scans), pic, i, cx, cy);
    SequentialBlock(DecodeFile(e, mem).planes, C.TablesOf(other), m, written, pic, n, i, cx, cy);
  }

  function StepsOf(t: M.Tables, m: F.Image, i: nat): seq<nat>
  {
    if i < |m.planes| && m.planes[i].tq < |t.quant| then t.quant[m.planes[i].tq] else []
  }

  lemma ShapedSteps(t: M.Tables)
    requires C.AllSteps(t)
    ensures M.Shaped(t)
  {
  }

  lemma CompleteSize(planes: seq<Plane>, m: F.Image, t: M.Tables, lvs: seq<Levels>, pic: P.Coefficients)
    requires GoodImage(m) && M.Shaped(t) && Complete(planes, m, t, lvs, pic)
    ensures |planes| == |m.planes|
  {
  }

  /** A block that the last sequential scan of its plane left. */
  lemma SequentialBlock(planes: seq<Plane>, t: M.Tables, m: F.Image, written: seq<C.Written>, pic: P.Coefficients, n: nat, i: nat, cx: nat, cy: nat)
    requires C.AllComplete(planes, t, m, written, pic) && GoodImage(m) && Own(m, i, cx, cy)
    requires n < |written| && P.Names(Effective(written[n].order), i) && C.LastFor(written, n, i)
    ensures i < |planes| && (cx, cy) in planes[i]
    ensures var q := StepsOf(C.TablesAt(t, written, n), m, i); GoodSteps(q) && planes[i][(cx, cy)] == Dequant(pic(i, cx, cy), q)
  {
    hide GoodImage, Dequant, ShapeOf, C.TablesAt, C.LastFor, Effective;
    InImage(m, i, cx, cy);
    var order := Effective(written[n].order);
    assert C.CompleteAt(planes, t, m, written, pic, n, i);
    var k :| 0 <= k < |order| && order[k].index == i;
    OwnInShape(m, order, k);
  }
}
