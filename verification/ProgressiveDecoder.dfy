/** The decoder's run over a progressive scan, and the end of a progressive image. */
module ProgressiveDecoder {
  import opened Wrappers
  import opened Bits
  import opened Machine
  import opened Zigzag
  import opened Huffman
  import opened BitReader
  import opened FastAc
  import opened Block
  import opened Scans
  import opened BandScan
  import opened BaselineScan
  import opened BandIntervals
  import opened DcIntervals
  import opened Geometry
  import opened Picture
  import opened ProgressivePicture
  import opened PictureDecoder
  import M = Markers
  import F = Frames

  // ----- tables -----

  /** The DC tables of a scan; a refinement gets empty ones. */
  method BuildDcTables(t: M.Tables, order: seq<M.Component>, refine: bool, al: nat, data: array<int>) returns (ok: bool, hs: seq<Table>)
    requires data.Length == 64 && al <= 13
    ensures ok <==> refine || forall k :: 0 <= k < |order| ==> order[k].hd < |t.dc| && Usable(t.dc[order[k].hd])
    ensures ok ==> DcReady(DcPassOf(t, order, refine, al), hs, data)
  {
    hide CodeOf, HuffCode.Safe, Table.Built;
    hs := [];
    NoDefIsSafe();
    for k := 0 to |order|
      invariant |hs| == k
      invariant refine || forall n :: 0 <= n < k ==> order[n].hd < |t.dc| && Usable(t.dc[order[n].hd])
      invariant forall n :: 0 <= n < k ==> hs[n].Realizes(CodeOf(DcDef(t, order[n], refine))) && Apart(data, hs[n])
    {
      if !refine && !(order[k].hd < |t.dc| && GoodDef(t.dc[order[k].hd])) {
        return false, hs;
      }
      var h;
      ok, h := BuildTable(DcDef(t, order[k], refine));
      if !ok {
        return false, hs;
      }
      hs := hs + [h];
    }
    ok := true;
  }

  method BuildBandTables(t: M.Tables, scan: M.Scan, c: M.Component, data: array<int>) returns (ok: bool, h: Table, fac: array<int>)
    requires data.Length == 64 && c.ha < |t.ac| && GoodDef(t.ac[c.ha]) && 1 <= scan.first <= scan.last < 64
    ensures ok <==> Usable(t.ac[c.ha])
    ensures ok ==> BandReady(BandOf(t, scan, c), h, fac, data)
  {
    hide CodeOf, HuffCode.Safe, TableBuilt, Table.Built;
    ok, h := BuildTable(t.ac[c.ha].value);
    fac := new int[512];
    if ok {
      BuildFastAc(h, CodeOf(t.ac[c.ha].value), fac);
    }
  }

  // ----- one scan -----

  method FetchBlocks(planes: seq<Plane>, mem: Memory, s: Shape, order: seq<M.Component>, us: seq<Unit>, n: nat) returns (bs: seq<Cells>)
    requires s.Valid() && |s.hs| == |order| && GoodUnits(us, |order|) && |us| > 0
    requires forall k :: 0 <= k < |order| ==> order[k].index < |planes|
    ensures bs == Fetched(planes, mem, s, order, us, n)
  {
    hide PlaceOf, Fetch;
    bs := [];
    for x := 0 to n
      invariant |bs| == x && bs == Fetched(planes, mem, s, order, us, x)
    {
      InPlanes(s, order, us, x, |planes|);
      bs := bs + [Fetch(planes, mem, PlaceOf(s, order, us, x))];
    }
  }

  method BandReader(d: seq<Byte>, p: nat, pass: Pass, h: Table, fac: array<int>, data: array<int>) returns (r: Reader)
    requires p <= |d| && BandReady(pass, h, fac, data)
    ensures fresh(r) && r.data == d && r.pos == p && BandReady(pass, h, fac, data)
  {
    hide Table.Built, TableBuilt, HuffCode.Safe;
    r := new Reader(d);
    r.pos := p;
  }

  method DcReader(d: seq<Byte>, p: nat, pass: DcPass, hs: seq<Table>, data: array<int>) returns (r: Reader)
    requires p <= |d| && DcReady(pass, hs, data)
    ensures fresh(r) && r.data == d && r.pos == p && DcReady(pass, hs, data)
  {
    hide Table.Built, HuffCode.Safe;
    r := new Reader(d);
    r.pos := p;
  }

  /** The reader's result is that of the pass, and the reader stopped where it ends. */
  ghost predicate Follows(goal: PassResult, v: Verdict, bs: seq<Cells>, last: nat, d: seq<Byte>, pos: nat, marker: Byte)
  {
    match goal
    case Passed(b, l) => v.Accepted? && bs == b && last == l <= |d| && Stopped(d, l, pos, marker)
    case PassCorrupt => v.Refused?
    case PassUnclear => true
  }

  method ReadBand(j: M.Decoder, data: array<int>, h: Table, fac: array<int>, pass: Pass, interval: nat, blocks: seq<Cells>)
    returns (v: Verdict, bs: seq<Cells>, ghost last: nat)
    requires j.pos <= |j.data| && BandReady(pass, h, fac, data)
    modifies j`pos, j`marker, data
    ensures old(j.pos) <= j.pos <= |j.data| && last <= |j.data| && pass.ss <= pass.se < 64
    ensures Follows(BandFrom(pass, interval, j.data, old(j.pos), 0, blocks, 0, Todo(interval)), v, bs, last, j.data, j.pos, j.marker)
  {
    hide BandFrom, Stopped, BandReady, InSegment;
    InBand(pass, h, fac, data);
    ghost var goal := BandFrom(pass, interval, j.data, j.pos, 0, blocks, 0, Todo(interval));
    var r := BandReader(j.data, j.pos, pass, h, fac, data);
    var ok;
    ok, bs := ParseBandScan(r, data, h, fac, pass, interval, blocks);
    last := if goal.Passed? then goal.last else 0;
    if goal.Passed? {
      ReaderStopped(r, goal.last);
    }
    j.pos, j.marker := r.pos, r.marker;
    v := if ok then Accepted else Refused;
  }

  method ReadDcs(j: M.Decoder, data: array<int>, hs: seq<Table>, pass: DcPass, mcu: seq<nat>, interval: nat, blocks: seq<Cells>)
    returns (v: Verdict, bs: seq<Cells>, ghost last: nat)
    requires j.pos <= |j.data| && DcReady(pass, hs, data) && GoodMcu(pass, mcu, Zeroes(|pass.codes|))
    modifies j`pos, j`marker, data
    ensures old(j.pos) <= j.pos <= |j.data| && last <= |j.data|
    ensures Follows(DcFrom(pass, mcu, interval, j.data, old(j.pos), 0, Zeroes(|pass.codes|), 0, Todo(interval), blocks),
                    v, bs, last, j.data, j.pos, j.marker)
  {
    hide DcFrom, Stopped, DcReady, InSegment;
    ghost var goal := DcFrom(pass, mcu, interval, j.data, j.pos, 0, Zeroes(|pass.codes|), 0, Todo(interval), blocks);
    var r := DcReader(j.data, j.pos, pass, hs, data);
    var ok;
    ok, bs := ParseDcScan(r, data, hs, pass, mcu, interval, blocks);
    last := if goal.Passed? then goal.last else 0;
    if goal.Passed? {
      ReaderStopped(r, goal.last);
    }
    j.pos, j.marker := r.pos, r.marker;
    v := if ok then Accepted else Refused;
  }

  /** A pass over the blocks of a scan at the decoder's position. */
  method ReadPass(j: M.Decoder, scan: M.Scan, order: seq<M.Component>, mcu: seq<nat>, blocks: seq<Cells>)
    returns (v: Verdict, bs: seq<Cells>, ghost last: nat)
    requires j.pos <= |j.data| && scan.first <= scan.last < 64 && scan.low <= 13 && |order| == |scan.order|
    requires |mcu| >= 1 && forall b :: 0 <= b < |mcu| ==> mcu[b] < |order|
    modifies j`pos, j`marker
    ensures old(j.pos) <= j.pos <= |j.data| && last <= |j.data|
    ensures !TablesThere(j.tables, scan, order) ==> v.Unsure?
    ensures TablesThere(j.tables, scan, order) ==>
              Follows(RunPass(j.data, old(j.pos), j.tables, scan, order, mcu, blocks), v, bs, last, j.data, j.pos, j.marker)
  {
    hide Usable, BandFrom, DcFrom, Follows, BandReady, DcReady, GoodDef, CodeOf;
    bs, last := blocks, j.pos;
    var t := j.tables;
    var data := new int[64];
    var ok := false;
    if OfBand(scan) {
      if order[0].ha < |t.ac| && GoodDef(t.ac[order[0].ha]) {
        var h, fac;
        ok, h, fac := BuildBandTables(t, scan, order[0], data);
        if ok {
          v, bs, last := ReadBand(j, data, h, fac, BandOf(t, scan, order[0]), t.restart, blocks);
        }
      } else {
        NotUsable(t.ac, order[0].ha);
      }
    } else {
      var hs;
      ok, hs := BuildDcTables(t, order, scan.high > 0, scan.low, data);
      if ok {
        UsableAll(t, order, scan.high > 0);
        v, bs, last := ReadDcs(j, data, hs, DcPassOf(t, order, scan.high > 0, scan.low), mcu, t.restart, blocks);
      }
    }
    if !ok {
      v := Unsure;
    }
  }

  lemma NotUsable(defs: seq<Option<M.HuffDef>>, i: nat)
    requires i >= |defs| || !GoodDef(defs[i])
    ensures i < |defs| ==> !Usable(defs[i])
  {
  }

  method AreDistinct(order: seq<M.Component>) returns (ok: bool)
    ensures ok <==> Distinct(order)
  {
    for k := 0 to |order|
      invariant forall a, b :: 0 <= a < b < k ==> order[a].index != order[b].index
    {
      for j := 0 to k
        invariant forall a :: 0 <= a < j ==> order[a].index != order[k].index
      {
        if order[j].index == order[k].index {
          return false;
        }
      }
    }
    return true;
  }

  /** A progressive scan from its header on: its blocks are brought to the scan's
      precision, and the next marker is found. */
  method OnePass(j: M.Decoder, m: F.Image, mem: Memory, planes: seq<Plane>) returns (v: Verdict, next: seq<Plane>, mark: Byte)
    requires GoodImage(m) && |planes| == |m.planes|
    modifies j`pos, j`marker
    ensures match DecodePass(j.data, old(j.pos), j.tables, m, mem, planes)
            case BadScan => v.Refused?
            case VagueScan => true
            case Placed(ps, mk, pos) => v.Accepted? && next == ps && mark == mk && j.pos == pos
    ensures v.Accepted? ==> j.marker == M.NONE && |next| == |planes| && old(j.pos) < |j.data| && old(j.pos) < j.pos
  {
    hide M.ScanReadable, M.ScanAt, Shape.UnitsFrom, ShapeOf, GoodImage, RunPass, TablesThere, Stopped, Store, GoodUnits, Kinds, Distinct, NextMarker, Fetch, PlaceOf, Product;
    ghost var p := j.pos;
    next, mark := planes, M.NONE;
    var ok, scan := j.ScanHeader(Ids(m), true);
    if !ok {
      return Refused, planes, M.NONE;
    }
    M.ScanIsGood(j.data, p, Ids(m), true);
    GoodScanOrder(m, scan, true);
    var order := Effective(scan.order);
    if scan.last > 0 && !OfBand(scan) {
      return Refused, planes, M.NONE;
    }
    ok := AreDistinct(order);
    if !ok {
      return Unsure, planes, M.NONE;
    }
    ShapeIsValid(m, order);
    var s := ShapeOf(m, order);
    var us := s.UnitsFrom(0);
    if |us| == 0 {
      return Unsure, planes, M.NONE;
    }
    KindsInRange(us, order);
    var blocks := FetchBlocks(planes, mem, s, order, us, Product(s.Count(), |us|));
    var bs;
    ghost var last;
    v, bs, last := ReadPass(j, scan, order, Kinds(us, order), blocks);
    if !v.Accepted? {
      return;
    }
    mark := NextMark(j, last);
    next := StoreBlocks(planes, s, order, us, bs);
  }

  // ----- the end of the image -----

  method Dequantise(data: array<int>, q: seq<nat>)
    requires data.Length == 64 && |q| == 64
    modifies data
    ensures data[..] == Scaled(old(data[..]), q)
  {
    hide ToShort;
    for x := 0 to 64
      invariant forall y :: 0 <= y < x ==> data[y] == ToShort(old(data[y]) * q[y])
      invariant forall y :: x <= y < 64 ==> data[y] == old(data[y])
    {
      data[x] := ToShort(data[x] * q[x]);
    }
  }

  method ScaleBlock(cells: Cells, q: seq<nat>) returns (r: Cells)
    requires |q| == 64
    ensures r == Scaled(cells, q)
  {
    var data := new int[64](x requires 0 <= x < 64 => cells[x]);
    assert data[..] == cells;
    Dequantise(data, q);
    r := data[..];
  }

  /** Row by row up to block x of row y. */
  ghost predicate Upto(r: Plane, planes: seq<Plane>, mem: Memory, i: nat, q: seq<nat>, w: nat, x: nat, y: nat)
    requires i < |planes| && |q| == 64
  {
    && (forall cx: nat, cy: nat :: (cx, cy) in r <==> cx < w && (cy < y || (cy == y && cx < x)))
    && (forall cx: nat, cy: nat :: (cx, cy) in r ==> r[(cx, cy)] == Scaled(Fetch(planes, mem, (i, cx, cy)), q))
  }

  /** All blocks of a plane. */
  method FinishPlane(planes: seq<Plane>, mem: Memory, m: F.Image, t: M.Tables, i: nat) returns (r: Plane)
    requires GoodImage(m) && M.Shaped(t) && i < |planes| == |m.planes|
    ensures r == FinishedPlane(planes, mem, m, t, i)
  {
    hide Upto, FinishedPlane, Axis.OwnBlocks, Scaled, Fetch;
    var w, h, q := AxisX(m, i).OwnBlocks(), AxisY(m, i).OwnBlocks(), t.quant[m.planes[i].tq];
    r := map[];
    NoneYet(planes, mem, i, q, w);
    for y := 0 to h
      invariant Upto(r, planes, mem, i, q, w, 0, y)
    {
      for x := 0 to w
        invariant Upto(r, planes, mem, i, q, w, x, y)
      {
        var c := ScaleBlock(Fetch(planes, mem, (i, x, y)), q);
        OneMore(r, planes, mem, i, q, w, x, y);
        r := r[(x, y) := c];
      }
      NextRow(r, planes, mem, i, q, w, y);
    }
    AllRows(r, planes, mem, m, t, i);
  }

  lemma NoneYet(planes: seq<Plane>, mem: Memory, i: nat, q: seq<nat>, w: nat)
    requires i < |planes| && |q| == 64
    ensures Upto(map[], planes, mem, i, q, w, 0, 0)
  {
  }

  lemma OneMore(r: Plane, planes: seq<Plane>, mem: Memory, i: nat, q: seq<nat>, w: nat, x: nat, y: nat)
    requires i < |planes| && |q| == 64 && x < w && Upto(r, planes, mem, i, q, w, x, y)
    ensures Upto(r[(x, y) := Scaled(Fetch(planes, mem, (i, x, y)), q)], planes, mem, i, q, w, x + 1, y)
  {
    hide Scaled, Fetch;
  }

  lemma NextRow(r: Plane, planes: seq<Plane>, mem: Memory, i: nat, q: seq<nat>, w: nat, y: nat)
    requires i < |planes| && |q| == 64 && Upto(r, planes, mem, i, q, w, w, y)
    ensures Upto(r, planes, mem, i, q, w, 0, y + 1)
  {
    hide Scaled, Fetch;
  }

  lemma AllRows(r: Plane, planes: seq<Plane>, mem: Memory, m: F.Image, t: M.Tables, i: nat)
    requires GoodImage(m) && M.Shaped(t) && i < |planes| == |m.planes|
    requires Upto(r, planes, mem, i, t.quant[m.planes[i].tq], AxisX(m, i).OwnBlocks(), 0, AxisY(m, i).OwnBlocks())
    ensures r == FinishedPlane(planes, mem, m, t, i)
  {
    hide Scaled, Fetch, Axis.OwnBlocks;
    var f := FinishedPlane(planes, mem, m, t, i);
    forall key | key in r || key in f
      ensures key in r && key in f && r[key] == f[key]
    {
      var (cx, cy) := key;
      assert key == (cx, cy);
    }
  }

  /** stbi__jpeg_finish up to the inverse transform. */
  method Finish(planes: seq<Plane>, mem: Memory, m: F.Image, t: M.Tables) returns (r: seq<Plane>)
    requires GoodImage(m) && M.Shaped(t) && |planes| == |m.planes|
    ensures r == FinishedPlanes(planes, mem, m, t)
  {
    hide GoodImage, M.Shaped, FinishedPlane;
    r := [];
    for i := 0 to |planes|
      invariant |r| == i && forall k :: 0 <= k < i ==> r[k] == FinishedPlane(planes, mem, m, t, k)
    {
      var one := FinishPlane(planes, mem, m, t, i);
      r := r + [one];
    }
  }
}
