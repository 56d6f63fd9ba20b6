/** Writing a whole sequential file: segments before the frame and before every scan,
    the scans, and the theorem that decoding it gives back every block of every
    plane at its place. */
module FileCoding {
  import opened Zigzag
  import opened Bits
  import BitReader
  import opened Stuffing
  import opened BaselineScan
  import opened Picture
  import opened PictureCoding
  import opened ProgressivePicture
  import opened JpegFile
  import M = Markers
  import F = Frames
  import H = HeaderCoding

  /** A scan as it is written: the segments in front of it, and its components. */
  datatype Written = Written(segs: seq<H.Segment>, order: seq<M.Component>)

  // ----- tables in force -----

  /** All four quantisation tables are tables of steps. */
  ghost predicate AllSteps(t: M.Tables)
  {
    M.Shaped(t) && forall i :: 0 <= i < 4 ==> GoodSteps(t.quant[i])
  }

  lemma StartSteps()
    ensures AllSteps(M.NoTables())
  {
  }

  lemma {:induction false} QuantsKeepSteps(t: M.Tables, qs: seq<H.QuantDef>)
    requires AllSteps(t) && forall i :: 0 <= i < |qs| ==> H.GoodQuant(qs[i])
    ensures AllSteps(H.SetQuants(t, qs))
    decreases |qs|
  {
    if |qs| > 0 {
      QuantsKeepSteps(t.(quant := t.quant[qs[0].id := qs[0].table]), qs[1..]);
    }
  }

  lemma {:induction false} CodesKeepSteps(t: M.Tables, cs: seq<H.CodeDef>)
    requires AllSteps(t)
    ensures AllSteps(H.SetCodes(t, cs))
    decreases |cs|
  {
    if |cs| > 0 {
      CodesKeepSteps(H.SetCode(t, cs[0]), cs[1..]);
    }
  }

  lemma {:induction false} SegmentsKeepSteps(t: M.Tables, segs: seq<H.Segment>)
    requires AllSteps(t) && forall i :: 0 <= i < |segs| ==> H.GoodSegment(segs[i])
    ensures AllSteps(H.MeaningAll(t, segs))
    decreases |segs|
  {
    hide H.Payload;
    if |segs| > 0 {
      match segs[0] {
        case Quants(qs) => QuantsKeepSteps(t, qs);
        case Codes(cs) => CodesKeepSteps(t, cs);
        case _ =>
      }
      SegmentsKeepSteps(H.Meaning(t, segs[0]), segs[1..]);
    }
  }

  lemma StepsQuantise(t: M.Tables, m: F.Image)
    requires AllSteps(t) && Writable(m)
    ensures Quantised(t, m)
  {
    hide F.WholeRatios, F.MaxH, F.MaxV;
  }

  /** The tables in force at scan n. */
  function TablesAt(t: M.Tables, scans: seq<Written>, n: nat): M.Tables
    requires n < |scans|
    decreases n
  {
    var t1 := H.MeaningAll(t, scans[0].segs);
    if n == 0 then t1 else TablesAt(t1, scans[1..], n - 1)
  }

  // ----- bytes -----

  /** The scan can be written with the tables in force. */
  ghost predicate GoodWritten(t: M.Tables, m: F.Image, w: Written, pic: Coefficients)
  {
    && Writable(m) && GoodImage(m) && (forall i :: 0 <= i < |w.segs| ==> H.GoodSegment(w.segs[i]))
    && GoodScan(m, w.order) && GoodOrder(m, Effective(w.order))
    && Encodable(H.MeaningAll(t, w.segs), m, Effective(w.order), pic)
  }

  ghost predicate Writing(t: M.Tables, m: F.Image, scans: seq<Written>, pic: Coefficients)
    decreases |scans|
  {
    |scans| > 0 ==> GoodWritten(t, m, scans[0], pic) && Writing(H.MeaningAll(t, scans[0].segs), m, scans[1..], pic)
  }

  /** The marker that leads to a scan, or to its first segment. */
  function LeadTo(segs: seq<H.Segment>): Byte
  {
    if |segs| == 0 then 0xda else H.CodeOf(segs[0])
  }

  /** The marker that leads to the next scan, or to the end. */
  function Lead(scans: seq<Written>): Byte
  {
    if |scans| == 0 then 0xd9 else LeadTo(scans[0].segs)
  }

  /** Segments and the marker of the scan, without the first marker. */
  ghost function Segs(segs: seq<H.Segment>): seq<Byte>
  {
    if |segs| == 0 then [] else H.Framed(segs[0]) + H.Stream(segs[1..], 0xda)
  }

  /** The bytes behind the leading marker. */
  ghost function Tail(t: M.Tables, m: F.Image, scans: seq<Written>, pic: Coefficients): seq<Byte>
    requires Writing(t, m, scans, pic)
    decreases |scans|
  {
    if |scans| == 0 then [] else
    var w, t1 := scans[0], H.MeaningAll(t, scans[0].segs);
    Segs(w.segs) + (ScanBytes(m, w.order, Whole()) + DataBytes(t1, m, Effective(w.order), pic, Lead(scans[1..])) + Tail(t1, m, scans[1..], pic))
  }

  ghost function AfterAll(t: M.Tables, m: F.Image, scans: seq<Written>, pic: Coefficients, planes: seq<Plane>): seq<Plane>
    requires Writing(t, m, scans, pic) && |planes| == |m.planes|
    decreases |scans|
  {
    if |scans| == 0 then planes else
    var t1 := H.MeaningAll(t, scans[0].segs);
    var r := After(t1, m, Effective(scans[0].order), pic, planes);
    if |r| != |m.planes| then r else AfterAll(t1, m, scans[1..], pic, r)
  }

  // ----- decoding -----

  lemma LeadIsMarker(t: M.Tables, m: F.Image, scans: seq<Written>, pic: Coefficients)
    requires Writing(t, m, scans, pic)
    ensures IsMarker(Lead(scans)) && !Restart(Lead(scans))
  {
    hide Encodable, Writable, GoodImage, GoodScan, H.GoodSegment, LeadTo;
    if |scans| > 0 {
      LeadToIsMarker(scans[0].segs);
    }
  }

  lemma LeadToIsMarker(segs: seq<H.Segment>)
    requires forall i :: 0 <= i < |segs| ==> H.GoodSegment(segs[i])
    ensures IsMarker(LeadTo(segs)) && !Restart(LeadTo(segs))
  {
    hide H.Payload;
    if |segs| > 0 {
      assert H.GoodSegment(segs[0]);
    }
  }

  lemma SegmentCode(s: H.Segment)
    requires H.GoodSegment(s)
    ensures var c := H.CodeOf(s); c != 0xd9 && c != 0xda && c != 0xdc && c != M.NONE
  {
    hide H.Payload;
  }

  /** Segments in front of a scan are read, and their definitions made. */
  lemma {:induction false} SegmentsPass(d: seq<Byte>, p: nat, t: M.Tables, m: F.Image, segs: seq<H.Segment>, mode: Mode, planes: seq<Plane>)
    requires M.Shaped(t) && GoodImage(m) && |planes| == |m.planes| && forall i :: 0 <= i < |segs| ==> H.GoodSegment(segs[i])
    requires BytesHere(d, p, Segs(segs))
    ensures M.Shaped(H.MeaningAll(t, segs))
    ensures ScansFrom(d, p, LeadTo(segs), t, m, mode, planes) == ScansFrom(d, p + |Segs(segs)|, 0xda, H.MeaningAll(t, segs), m, mode, planes)
    decreases |segs|
  {
    hide M.Shaped, GoodImage, NextScan, M.Process, M.MarkerAt, H.GoodSegment, BytesHere, H.Framed, H.Meaning, H.CodeOf;
    if |segs| > 0 {
      var s, rest := segs[0], segs[1..];
      BytesConcat(d, p, H.Framed(s), H.Stream(rest, 0xda));
      H.SegmentRoundTrip(d, p, s, t);
      SegmentCode(s);
      var q := p + |H.Framed(s)|;
      StreamSplits(rest);
      var next := LeadTo(rest);
      BytesConcat(d, q, [0xff, next], Segs(rest));
      if |rest| > 0 {
        SegmentCode(rest[0]);
      }
      H.MarkerStands(d, q, next);
      SegmentsPass(d, q + 2, H.Meaning(t, s), m, rest, mode, planes);
    }
  }

  lemma StreamSplits(segs: seq<H.Segment>)
    ensures H.Stream(segs, 0xda) == [0xff, LeadTo(segs)] + Segs(segs)
  {
    hide H.Framed, H.CodeOf;
  }

  /** Decoding the written scans, with their segments, gives the planes that they
      leave. */
  lemma {:induction false} ScansRoundTrip(d: seq<Byte>, p: nat, t: M.Tables, m: F.Image, scans: seq<Written>,
                                          pic: Coefficients, planes: seq<Plane>)
    requires Writing(t, m, scans, pic) && AllSteps(t) && Writable(m) && GoodImage(m) && |planes| == |m.planes|
    requires BytesHere(d, p, Tail(t, m, scans, pic))
    ensures ScansFrom(d, p, Lead(scans), t, m, Sequential, planes) == JpegFile.Picture(AfterAll(t, m, scans, pic, planes))
    decreases |scans|
  {
    hide DecodeScan, After, DataBytes, Encodable, Writable, GoodImage, BytesHere, M.Shaped, M.Process, ScanBytes, Segs, H.MeaningAll, H.GoodSegment, Effective;
    if |scans| > 0 {
      var w, t1, rest := scans[0], H.MeaningAll(t, scans[0].segs), scans[1..];
      var e := Effective(w.order);
      var last := Lead(rest);
      LeadIsMarker(t1, m, rest, pic);
      var front, head, data, tail := Segs(w.segs), ScanBytes(m, w.order, Whole()), DataBytes(t1, m, e, pic, last), Tail(t1, m, rest, pic);
      BytesConcat(d, p, front, head + data + tail);
      BytesConcat(d, p + |front|, head + data, tail);
      SegmentsPass(d, p, t, m, w.segs, Sequential, planes);
      SegmentsKeepSteps(t, w.segs);
      StepsQuantise(t1, m);
      ScanIsStored(d, p + |front|, t1, m, w.order, e, pic, last, planes);
      AfterScan(t1, m, e, pic, planes);
      var one := After(t1, m, e, pic, planes);
      SameCount(planes, one, t1, m, pic, e);
      ScansRoundTrip(d, p + |front| + |head| + |data|, t1, m, rest, pic, one);
    }
  }

  // ----- what is decoded -----

  /** No later scan names plane i. */
  ghost predicate LastFor(scans: seq<Written>, n: nat, i: nat)
  {
    forall l :: n < l < |scans| ==> !Names(scans[l].order, i)
  }

  /** The block is the right one for some scan that names its plane. */
  ghost predicate FromSome(t: M.Tables, m: F.Image, scans: seq<Written>, pic: Coefficients, i: nat, cx: nat, cy: nat, c: Cells)
    requires i < |m.planes|
  {
    exists n :: 0 <= n < |scans| && Names(scans[n].order, i) && FromScan(t, m, scans, pic, n, i, cx, cy, c)
  }

  ghost predicate FromScan(t: M.Tables, m: F.Image, scans: seq<Written>, pic: Coefficients, n: nat, i: nat, cx: nat, cy: nat, c: Cells)
    requires n < |scans| && i < |m.planes|
  {
    Quantised(TablesAt(t, scans, n), m) && c == Wanted(TablesAt(t, scans, n), m, pic, (i, cx, cy))
  }

  /** Every plane is complete and right for the last scan that names it. */
  ghost predicate AllComplete(r: seq<Plane>, t: M.Tables, m: F.Image, scans: seq<Written>, pic: Coefficients)
  {
    forall n, i :: 0 <= n < |scans| && 0 <= i < |m.planes| && LastFor(scans, n, i) ==> CompleteAt(r, t, m, scans, pic, n, i)
  }

  ghost predicate CompleteAt(r: seq<Plane>, t: M.Tables, m: F.Image, scans: seq<Written>, pic: Coefficients, n: nat, i: nat)
    requires n < |scans|
  {
    && GoodImage(m) && GoodOrder(m, Effective(scans[n].order)) && Quantised(TablesAt(t, scans, n), m)
    && Complete(r, TablesAt(t, scans, n), m, pic, Effective(scans[n].order), i)
  }

  lemma SameNames(order: seq<M.Component>, i: nat)
    ensures Names(Effective(order), i) <==> Names(order, i)
  {
    var e := Effective(order);
    if Names(order, i) {
      var k :| 0 <= k < |order| && order[k].index == i;
      assert e[k].index == i;
    }
    if Names(e, i) {
      var k :| 0 <= k < |e| && e[k].index == i;
      assert order[k].index == i;
    }
  }

  lemma LaterTables(t: M.Tables, scans: seq<Written>, n: nat)
    requires 0 < n < |scans|
    ensures TablesAt(t, scans, n) == TablesAt(H.MeaningAll(t, scans[0].segs), scans[1..], n - 1)
  {
  }

  /** Planes that no scan names stay; a block that is there was there, or it is right
      for a scan that names its plane. */
  ghost predicate Accounted(was: seq<Plane>, r: seq<Plane>, t: M.Tables, m: F.Image, scans: seq<Written>, pic: Coefficients)
  {
    && |was| == |r| == |m.planes|
    && (forall i :: 0 <= i < |was| && (forall n :: 0 <= n < |scans| ==> !Names(scans[n].order, i)) ==> r[i] == was[i])
    && (forall i, cx, cy :: 0 <= i < |was| && (cx, cy) in r[i] ==>
          || ((cx, cy) in was[i] && r[i][(cx, cy)] == was[i][(cx, cy)])
          || FromSome(t, m, scans, pic, i, cx, cy, r[i][(cx, cy)]))
  }

  lemma FromLater(t: M.Tables, m: F.Image, scans: seq<Written>, pic: Coefficients, i: nat, cx: nat, cy: nat, c: Cells)
    requires |scans| > 0 && i < |m.planes| && FromSome(H.MeaningAll(t, scans[0].segs), m, scans[1..], pic, i, cx, cy, c)
    ensures FromSome(t, m, scans, pic, i, cx, cy, c)
  {
    hide Quantised, Wanted, Names, H.MeaningAll;
    var t1, rest := H.MeaningAll(t, scans[0].segs), scans[1..];
    var n :| 0 <= n < |rest| && Names(rest[n].order, i) && FromScan(t1, m, rest, pic, n, i, cx, cy, c);
    LaterTables(t, scans, n + 1);
    assert Names(scans[n + 1].order, i) && FromScan(t, m, scans, pic, n + 1, i, cx, cy, c);
  }

  lemma AccountStep(was: seq<Plane>, one: seq<Plane>, r: seq<Plane>, t: M.Tables, m: F.Image, scans: seq<Written>, pic: Coefficients)
    requires |scans| > 0 && Quantised(H.MeaningAll(t, scans[0].segs), m)
    requires Updated(was, one, H.MeaningAll(t, scans[0].segs), m, pic, Effective(scans[0].order))
    requires Accounted(one, r, H.MeaningAll(t, scans[0].segs), m, scans[1..], pic)
    ensures Accounted(was, r, t, m, scans, pic)
  {
    hide Quantised, Wanted, Names, H.MeaningAll, FromSome, Effective;
    var t1, rest, e := H.MeaningAll(t, scans[0].segs), scans[1..], Effective(scans[0].order);
    forall i | 0 <= i < |was| && (forall n :: 0 <= n < |scans| ==> !Names(scans[n].order, i))
      ensures r[i] == was[i]
    {
      SameNames(scans[0].order, i);
      forall n | 0 <= n < |rest|
        ensures !Names(rest[n].order, i)
      {
        assert rest[n] == scans[n + 1];
      }
    }
    forall i, cx, cy | 0 <= i < |was| && (cx, cy) in r[i]
      ensures || ((cx, cy) in was[i] && r[i][(cx, cy)] == was[i][(cx, cy)])
              || FromSome(t, m, scans, pic, i, cx, cy, r[i][(cx, cy)])
    {
      if FromSome(t1, m, rest, pic, i, cx, cy, r[i][(cx, cy)]) {
        FromLater(t, m, scans, pic, i, cx, cy, r[i][(cx, cy)]);
      } else if !((cx, cy) in was[i] && r[i][(cx, cy)] == was[i][(cx, cy)]) {
        SameNames(scans[0].order, i);
        FromFirst(t, m, scans, pic, i, cx, cy, r[i][(cx, cy)]);
      }
    }
  }

  lemma FromFirst(t: M.Tables, m: F.Image, scans: seq<Written>, pic: Coefficients, i: nat, cx: nat, cy: nat, c: Cells)
    requires |scans| > 0 && i < |m.planes| && Names(scans[0].order, i) && Quantised(H.MeaningAll(t, scans[0].segs), m)
    requires c == Wanted(H.MeaningAll(t, scans[0].segs), m, pic, (i, cx, cy))
    ensures FromSome(t, m, scans, pic, i, cx, cy, c)
  {
    hide Quantised, Wanted, Names, H.MeaningAll;
    assert FromScan(t, m, scans, pic, 0, i, cx, cy, c);
  }

  lemma CompleteStep(one: seq<Plane>, r: seq<Plane>, t: M.Tables, m: F.Image, scans: seq<Written>, pic: Coefficients)
    requires |scans| > 0 && GoodImage(m) && GoodOrder(m, Effective(scans[0].order)) && Quantised(H.MeaningAll(t, scans[0].segs), m)
    requires forall i :: 0 <= i < |m.planes| ==> Complete(one, H.MeaningAll(t, scans[0].segs), m, pic, Effective(scans[0].order), i)
    requires Accounted(one, r, H.MeaningAll(t, scans[0].segs), m, scans[1..], pic)
    requires AllComplete(r, H.MeaningAll(t, scans[0].segs), m, scans[1..], pic)
    ensures AllComplete(r, t, m, scans, pic)
  {
    hide Quantised, Wanted, Names, H.MeaningAll, FromSome, Effective, GoodImage, GoodOrder, Complete;
    var t1, rest := H.MeaningAll(t, scans[0].segs), scans[1..];
    forall n, i | 0 <= n < |scans| && 0 <= i < |m.planes| && LastFor(scans, n, i)
      ensures CompleteAt(r, t, m, scans, pic, n, i)
    {
      if n == 0 {
        forall l | 0 <= l < |rest|
          ensures !Names(rest[l].order, i)
        {
          assert rest[l] == scans[l + 1];
        }
        SameComplete(one, r, t1, m, pic, Effective(scans[0].order), i);
      } else {
        assert LastFor(rest, n - 1, i) by {
          forall l | n - 1 < l < |rest|
            ensures !Names(rest[l].order, i)
          {
            assert rest[l] == scans[l + 1];
          }
        }
        LaterTables(t, scans, n);
        assert CompleteAt(r, t1, m, rest, pic, n - 1, i);
      }
    }
  }

  lemma SameComplete(a: seq<Plane>, b: seq<Plane>, t: M.Tables, m: F.Image, pic: Coefficients, order: seq<M.Component>, i: nat)
    requires GoodImage(m) && GoodOrder(m, order) && Quantised(t, m) && i < |a| == |b| && a[i] == b[i]
    requires Complete(a, t, m, pic, order, i)
    ensures Complete(b, t, m, pic, order, i)
  {
    hide ShapeOf, Wanted, GoodImage, Quantised;
  }

  /** After all scans. */
  lemma {:induction false} AllAreThere(t: M.Tables, m: F.Image, scans: seq<Written>, pic: Coefficients, planes: seq<Plane>)
    requires Writing(t, m, scans, pic) && AllSteps(t) && Writable(m) && GoodImage(m) && |planes| == |m.planes|
    ensures var r := AfterAll(t, m, scans, pic, planes);
            Accounted(planes, r, t, m, scans, pic) && AllComplete(r, t, m, scans, pic)
    decreases |scans|
  {
    hide After, Encodable, Writable, GoodImage, Complete, H.GoodSegment, H.MeaningAll, Effective, Updated, Accounted, AllComplete;
    if |scans| == 0 {
      NothingScanned(t, m, scans, pic, planes);
    } else {
      var t1, e := H.MeaningAll(t, scans[0].segs), Effective(scans[0].order);
      SegmentsKeepSteps(t, scans[0].segs);
      StepsQuantise(t1, m);
      AfterScan(t1, m, e, pic, planes);
      var one := After(t1, m, e, pic, planes);
      SameCount(planes, one, t1, m, pic, e);
      AllAreThere(t1, m, scans[1..], pic, one);
      var r := AfterAll(t, m, scans, pic, planes);
      AccountStep(planes, one, r, t, m, scans, pic);
      CompleteStep(one, r, t, m, scans, pic);
    }
  }

  lemma NothingScanned(t: M.Tables, m: F.Image, scans: seq<Written>, pic: Coefficients, planes: seq<Plane>)
    requires |scans| == 0 && |planes| == |m.planes|
    ensures Accounted(planes, planes, t, m, scans, pic) && AllComplete(planes, t, m, scans, pic)
  {
  }

  // ----- the file -----

  /** The tables that the segments before the frame define. */
  function TablesOf(segs: seq<H.Segment>): M.Tables
  {
    H.MeaningAll(M.NoTables(), segs)
  }

  /** Start of image, segments, frame header, and the scans with their segments up
      to the end. */
  ghost function FileBytes(segs: seq<H.Segment>, kind: Byte, m: F.Image, scans: seq<Written>, pic: Coefficients): seq<Byte>
    requires Writing(TablesOf(segs), m, scans, pic)
  {
    [0xff, 0xd8] + (H.Stream(segs, kind) + (FrameBytes(m) + ([0xff, Lead(scans)] + Tail(TablesOf(segs), m, scans, pic))))
  }

  /** Decoding a written file, whatever its tables, sizes, sampling factors, restart
      intervals and scans: every block of every plane is at its place and right for
      the last scan that names the plane, and no block is there that no scan
      brought. */
  lemma FileRoundTrip(segs: seq<H.Segment>, kind: Byte, m: F.Image, scans: seq<Written>, pic: Coefficients, d: seq<Byte>, mem: Memory)
    requires (forall i :: 0 <= i < |segs| ==> H.GoodSegment(segs[i])) && (kind == 0xc0 || kind == 0xc1)
    requires Writable(m) && Writing(TablesOf(segs), m, scans, pic)
    requires BytesHere(d, 0, FileBytes(segs, kind, m, scans, pic))
    ensures var r, t := DecodeFile(d, mem), TablesOf(segs);
            && r.Picture? && |r.planes| == |m.planes| && AllComplete(r.planes, t, m, scans, pic)
            && forall i, cx, cy :: 0 <= i < |m.planes| && (cx, cy) in r.planes[i] ==>
                 FromSome(t, m, scans, pic, i, cx, cy, r.planes[i][(cx, cy)])
  {
    hide BytesHere, H.Stream, FrameBytes, Tail, H.MeaningAll, M.Shaped, Writable, GoodImage, M.HeaderFrom, ScansFrom, FromSome, AllComplete,
         F.FrameReadable, F.ImageAt, M.MarkerAt, H.GoodSegment, AfterAll, Writing, Lead;
    var t := TablesOf(segs);
    var stream, frame, tail := H.Stream(segs, kind), FrameBytes(m), Tail(t, m, scans, pic);
    var lead := Lead(scans);
    var p1 := 2 + |stream|;
    var p2 := p1 + |frame|;
    BytesConcat(d, 0, [0xff, 0xd8], stream + (frame + ([0xff, lead] + tail)));
    BytesConcat(d, 2, stream, frame + ([0xff, lead] + tail));
    BytesConcat(d, p1, frame, [0xff, lead] + tail);
    BytesConcat(d, p2, [0xff, lead], tail);
    H.MarkerStands(d, 0, 0xd8);
    StartSteps();
    SegmentsKeepSteps(M.NoTables(), segs);
    H.HeaderRoundTrip(d, 2, segs, kind, M.NoTables());
    WritableIsGood(m);
    FrameRoundTrip(d, p1, m);
    AcceptedIsGood(d, p1);
    LeadIsMarker(t, m, scans, pic);
    H.MarkerStands(d, p2, lead);
    var none := NoBlocks(|m.planes|);
    ScansRoundTrip(d, p2 + 2, t, m, scans, pic, none);
    AllAreThere(t, m, scans, pic, none);
  }

  // ----- what else may stand between scans -----

  /** A DNL segment between scans is passed over if it announces the height of the frame
      header, and refuses the image if not, or if its length is wrong. */
  lemma LineCountPasses(d: seq<Byte>, p: nat, n: nat, lines: nat, next: Byte, t: M.Tables, m: F.Image, mode: Mode, planes: seq<Plane>)
    requires M.Shaped(t) && GoodImage(m) && |planes| == |m.planes| && n < 65536 && lines < 65536 && next != 0xff
    requires BytesHere(d, p, H.WordBytes(n) + H.WordBytes(lines) + [0xff, next])
    ensures ScansFrom(d, p, 0xdc, t, m, mode, planes) ==
              if n == 4 && lines == m.y then ScansFrom(d, p + 6, next, t, m, mode, planes) else NoPicture
  {
    hide GoodImage, M.Shaped, NextScan, M.Process, AtEnd;
    var b := H.WordBytes(n) + H.WordBytes(lines);
    BytesConcat(d, p, b, [0xff, next]);
    WordsStand(d, p, n, lines);
    H.MarkerStands(d, p + 4, next);
  }

  lemma WordsStand(d: seq<Byte>, p: nat, a: nat, b: nat)
    requires a < 65536 && b < 65536 && BytesHere(d, p, H.WordBytes(a) + H.WordBytes(b))
    ensures M.Word(d, p) == a && M.Word(d, p + 2) == b && M.Adv(d, p, 4) == p + 4
  {
    var w := H.WordBytes(a) + H.WordBytes(b);
    H.ByteAt(d, p, w, 0);
    H.ByteAt(d, p, w, 1);
    H.ByteAt(d, p, w, 2);
    H.ByteAt(d, p, w, 3);
    assert M.At(d, p + 0) == w[0] && M.At(d, p + 1) == w[1] && M.At(d, p + 2) == w[2] && M.At(d, p + 3) == w[3];
  }

  /** Any other marker ends the image as it is: with the planes of a sequential one, and
      without a block of a progressive one. */
  lemma UnknownMarkerEnds(d: seq<Byte>, p: nat, x: Byte, t: M.Tables, m: F.Image, mode: Mode, planes: seq<Plane>)
    requires M.Shaped(t) && GoodImage(m) && |planes| == |m.planes|
    requires x != 0xd9 && x != 0xda && x != 0xdb && x != 0xdc && x != 0xdd && x != 0xc4 && !(0xe0 <= x <= 0xef) && x != 0xfe
    ensures var r := ScansFrom(d, p, x, t, m, mode, planes);
            r.Picture? && |r.planes| == |m.planes|
            && forall i :: 0 <= i < |m.planes| ==> r.planes[i] == if mode.Sequential? then planes[i] else map[]
  {
    hide GoodImage, M.Shaped, NextScan, AtEnd;
  }

  /** A segment of entropy-coded data may be followed by a superfluous restart marker,
      one of eight; the marker behind it then counts. */
  lemma TrailingRestart(d: seq<Byte>, p: nat, bits: Bitstring, x: Byte, next: Byte)
    requires IsMarker(x) && next != 0xff && BytesHere(d, p, Segment(bits, x) + [0xff, next])
    ensures p <= |d|
    ensures var q := p + |Segment(bits, x)|;
            Picture.Behind(d, BitReader.NextMarker(d, p)) == if 0xd0 <= x < 0xd8 then (next, q + 2) else (x, q)
  {
    hide Segment, BytesHere, BitReader.NextMarker;
    BytesConcat(d, p, Segment(bits, x), [0xff, next]);
    SegmentRoundTrip(bits, x, d, p);
    H.MarkerStands(d, p + |Segment(bits, x)|, next);
  }

  // ----- what refuses an image -----

  /** A scan header that names no component, too many, tables above 3, or a spectrum that
      its kind of image does not allow refuses the image. */
  lemma BadHeaderRefuses(d: seq<Byte>, p: nat, t: M.Tables, m: F.Image, order: seq<M.Component>, sp: Spectrum, mode: Mode, planes: seq<Plane>)
    requires M.Shaped(t) && GoodImage(m) && |planes| == |m.planes| && ScanFields(m, order, sp) && BytesHere(d, p, ScanBytes(m, order, sp))
    requires || |order| == 0 || |order| > 4 || |order| > |m.planes| || !GoodSpectrum(sp, mode.Progressive?)
             || exists k :: 0 <= k < |order| && (order[k].hd > 3 || order[k].ha > 3)
    ensures ScansFrom(d, p, 0xda, t, m, mode, planes) == NoPicture
  {
    hide M.Shaped, GoodImage, M.ScanReadable, M.ScanAt, BytesHere, ScanFields, GoodSpectrum, M.Process;
    ScanHeaderRoundTrip(d, p, m, order, sp, mode.Progressive?);
  }

  /** A frame header that the decoder does not take refuses the file, and so does a file
      that does not begin with the start of an image. */
  lemma BadFrameRefuses(segs: seq<H.Segment>, kind: Byte, m: F.Image, d: seq<Byte>, mem: Memory)
    requires (forall i :: 0 <= i < |segs| ==> H.GoodSegment(segs[i])) && (kind == 0xc0 || kind == 0xc1 || kind == 0xc2)
    requires Fields(m) && BytesHere(d, 0, [0xff, 0xd8] + (H.Stream(segs, kind) + FrameBytes(m)))
    ensures !Accepted(m) ==> DecodeFile(d, mem) == NoPicture
  {
    hide BytesHere, H.Stream, FrameBytes, H.MeaningAll, M.Shaped, GoodImage, M.HeaderFrom, ScansFrom, F.FrameReadable, F.ImageAt, M.MarkerAt, H.GoodSegment,
         Fields, Accepted;
    BytesConcat(d, 0, [0xff, 0xd8], H.Stream(segs, kind) + FrameBytes(m));
    BytesConcat(d, 2, H.Stream(segs, kind), FrameBytes(m));
    H.MarkerStands(d, 0, 0xd8);
    StartSteps();
    H.HeaderRoundTrip(d, 2, segs, kind, M.NoTables());
    FrameRoundTrip(d, 2 + |H.Stream(segs, kind)|, m);
  }

  lemma NoStartRefuses(d: seq<Byte>, mem: Memory)
    requires |d| < 2 || d[0] != 0xff || (d[1] != 0xd8 && d[1] != 0xff)
    ensures DecodeFile(d, mem) == NoPicture
  {
    hide M.HeaderFrom, ScansFrom, F.FrameReadable;
    if |d| >= 2 && d[0] == 0xff && d[1] != 0xff {
      assert BitReader.FillEnd(d, 1) == 1;
    }
  }
}
