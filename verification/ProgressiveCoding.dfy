/** Writing progressive scans of an image, and how precisely its coefficients are known
    after each of them. */
module ProgressiveCoding {
  import opened Wrappers
  import opened Bits
  import opened Zigzag
  import opened Huffman
  import opened BitReader
  import opened Stuffing
  import opened Refinement
  import opened Scans
  import opened DcScans
  import opened ScanSequence
  import opened BaselineScan
  import opened BandIntervals
  import opened DcIntervals
  import opened Geometry
  import opened Picture
  import opened PictureBounds
  import opened ProgressivePicture
  import P = PictureCoding
  import M = Markers
  import F = Frames
  import H = HeaderCoding

  // ----- precision -----

  function KindOf(sp: P.Spectrum): Kind
  {
    Kind(sp.high > 0, sp.first, sp.last, sp.low)
  }

  function ScanOf(order: seq<M.Component>, sp: P.Spectrum): M.Scan
  {
    M.Scan(order, sp.first, sp.last, sp.high, sp.low)
  }

  /** What is known of a block after a scan.  A first DC scan starts afresh; after a
      scan out of order nothing is known. */
  ghost function Track(lv: Levels, k: Kind): Levels
  {
    if k.Dc() && !k.refining then Next(Unknown(), k)
    else if Legal(lv, k) then Next(lv, k)
    else Unknown()
  }

  lemma TrackDc(lv: Levels, k: Kind, p: DcPass, was: Cells, now: Cells, zz: Cells)
    requires k.Dc() && k.Formed() && p.refine == k.refining && p.al == k.low
    requires Shows(lv, was, zz) && Sharper(p, was, now, zz[0])
    ensures Shows(Track(lv, k), now, zz)
  {
    hide DcResult, DcApprox, Known, Zig;
    if !k.refining {
      DcShows(Unknown(), k, was, now, zz);
    } else if Legal(lv, k) {
      DcIsReady(lv, k, was, zz);
      DcShows(lv, k, was, now, zz);
    }
  }

  /** A block of the component itself, not of the padding of its last MCUs. */
  ghost predicate Own(m: F.Image, i: nat, cx: nat, cy: nat)
    requires GoodImage(m)
  {
    i < |m.planes| && cx < AxisX(m, i).OwnBlocks() && cy < AxisY(m, i).OwnBlocks()
  }

  /** Every block of every component is known as precisely as the levels say. */
  ghost predicate AllShow(lvs: seq<Levels>, planes: seq<Plane>, mem: Memory, m: F.Image, pic: P.Coefficients)
    requires GoodImage(m)
  {
    && |lvs| == |planes| == |m.planes|
    && forall i: nat, cx: nat, cy: nat :: Own(m, i, cx, cy) ==> Shows(lvs[i], Fetch(planes, mem, (i, cx, cy)), pic(i, cx, cy))
  }

  ghost function TrackAll(lvs: seq<Levels>, order: seq<M.Component>, k: Kind): (r: seq<Levels>)
    ensures |r| == |lvs| && forall i :: 0 <= i < |lvs| ==> r[i] == if P.Names(order, i) then Track(lvs[i], k) else lvs[i]
  {
    seq(|lvs|, i requires 0 <= i < |lvs| => if P.Names(order, i) then Track(lvs[i], k) else lvs[i])
  }

  // ----- what is written -----

  /** The coefficients of a scan, block by block. */
  ghost function Wanted(pic: P.Coefficients, s: Shape, order: seq<M.Component>, us: seq<Unit>, n: nat): (zzs: seq<Cells>)
    requires s.Valid() && |s.hs| == |order| && GoodUnits(us, |order|) && |us| > 0
    ensures |zzs| == n && forall x :: 0 <= x < n ==> zzs[x] == P.Coef(pic, PlaceOf(s, order, us, x))
  {
    seq(n, x requires 0 <= x < n => P.Coef(pic, PlaceOf(s, order, us, x)))
  }

  /** The bytes of the scan with the marker behind it, if its tables have every code
      that it needs. */
  ghost function Encoded(t: M.Tables, order: seq<M.Component>, sp: P.Spectrum, plans: seq<seq<nat>>, mcu: seq<nat>, zzs: seq<Cells>, last: Byte): Option<seq<Byte>>
    requires TablesThere(t, ScanOf(order, sp), order) && sp.first <= sp.last < 64
    requires |mcu| >= 1 && forall b :: 0 <= b < |mcu| ==> mcu[b] < |order|
  {
    if OfBand(ScanOf(order, sp)) then EncodeBandScan(BandOf(t, ScanOf(order, sp), order[0]), t.restart, zzs, plans, 0, last)
    else EncodeDcScan(DcPassOf(t, order, sp.high > 0, sp.low), mcu, t.restart, DcValues(zzs), 0, last)
  }

  /** Headers of progressive scans: DC values of any components, or a band of one. */
  ghost predicate GoodHeader(m: F.Image, order: seq<M.Component>, sp: P.Spectrum)
  {
    && P.GoodScan(m, order) && Distinct(order) && P.GoodSpectrum(sp, true)
    && KindOf(sp).Formed() && (sp.first > 0 ==> |order| == 1)
  }

  /** The scan can be sent.  A band must be at the level that the scan goes on from. */
  ghost predicate Sendable(t: M.Tables, m: F.Image, order: seq<M.Component>, sp: P.Spectrum, plans: seq<seq<nat>>, pic: P.Coefficients, lvs: seq<Levels>)
    requires GoodImage(m)
  {
    && GoodHeader(m, order, sp) && |lvs| == |m.planes| && TablesThere(t, ScanOf(order, sp), order)
    && (sp.first > 0 ==> Legal(lvs[order[0].index], KindOf(sp)))
    && ShapeOf(m, order).Valid() && |ShapeOf(m, order).hs| == |order|
    && var s := ShapeOf(m, order);
       var us := s.UnitsFrom(0);
    && |us| >= 1 && GoodUnits(us, |order|) && (forall b :: 0 <= b < |us| ==> Kinds(us, order)[b] < |order|)
    && forall last :: Encoded(t, order, sp, plans, Kinds(us, order), Wanted(pic, s, order, us, Product(s.Count(), |us|)), last).Some?
  }

  ghost function PassBytes(t: M.Tables, m: F.Image, order: seq<M.Component>, sp: P.Spectrum, plans: seq<seq<nat>>, pic: P.Coefficients,
                           lvs: seq<Levels>, last: Byte): seq<Byte>
    requires GoodImage(m) && Sendable(t, m, order, sp, plans, pic, lvs)
  {
    var s := ShapeOf(m, order);
    var us := s.UnitsFrom(0);
    Encoded(t, order, sp, plans, Kinds(us, order), Wanted(pic, s, order, us, Product(s.Count(), |us|)), last).value
  }

  ghost predicate CodablePicture(pic: P.Coefficients)
  {
    forall i, cx, cy :: Codable(pic(i, cx, cy))
  }

  // ----- storing -----

  /** What a place holds after a scan: the last block that was stored there, or what it
      held before. */
  lemma {:induction false} StoreFetch(planes: seq<Plane>, mem: Memory, s: Shape, order: seq<M.Component>, us: seq<Unit>, bs: seq<Cells>, n: nat,
                                      place: (nat, nat, nat)) returns (x: int)
    requires s.Valid() && |s.hs| == |order| && GoodUnits(us, |order|) && |us| > 0 && n <= |bs| && place.0 < |planes|
    requires forall k :: 0 <= k < |order| ==> order[k].index < |planes|
    ensures -1 <= x < n
    ensures x >= 0 ==> PlaceOf(s, order, us, x) == place && Fetch(Store(planes, s, order, us, bs, n), mem, place) == bs[x]
    ensures x < 0 ==> Fetch(Store(planes, s, order, us, bs, n), mem, place) == Fetch(planes, mem, place)
    ensures x < 0 ==> forall y :: 0 <= y < n ==> PlaceOf(s, order, us, y) != place
    decreases n
  {
    hide PlaceIn, Quot, Rem;
    if n == 0 {
      x := -1;
    } else {
      P.PlaneOf(s, order, us, n - 1);
      if PlaceOf(s, order, us, n - 1) == place {
        x := n - 1;
      } else {
        x := StoreFetch(planes, mem, s, order, us, bs, n - 1, place);
      }
    }
  }

  /** The scan goes over every own block of the components that it names. */
  lemma OwnIsCovered(m: F.Image, order: seq<M.Component>, k: nat, cx: nat, cy: nat) returns (x: nat)
    requires GoodImage(m) && GoodOrder(m, order) && k < |order| && Own(m, order[k].index, cx, cy)
    ensures var s := ShapeOf(m, order);
            && s.Valid() && |s.hs| == |order| && GoodUnits(s.UnitsFrom(0), |order|) && |s.UnitsFrom(0)| > 0
            && x < Product(s.Count(), |s.UnitsFrom(0)|) && PlaceOf(s, order, s.UnitsFrom(0), x) == (order[k].index, cx, cy)
  {
    hide GoodImage, Shape.UnitsFrom, GoodUnits, PlaceOf, ShapeOf;
    ShapeIsValid(m, order);
    var s := ShapeOf(m, order);
    var u0 := P.UnitAt(s, 0, 0, 0, 0);
    OwnInShape(m, order, k);
    x := P.BlockAt(s, order, k, cx, cy);
  }

  lemma OwnInShape(m: F.Image, order: seq<M.Component>, k: nat)
    requires GoodImage(m) && GoodOrder(m, order) && k < |order|
    ensures var s, i := ShapeOf(m, order), order[k].index;
            && |s.hs| == |s.vs| == |order|
            && AxisX(m, i).OwnBlocks() <= s.mx * s.hs[k] && AxisY(m, i).OwnBlocks() <= s.my * s.vs[k]
  {
    hide F.MaxH, F.MaxV;
    var i := order[k].index;
    OwnBlocksFit(AxisX(m, i));
    OwnBlocksFit(AxisY(m, i));
    SameMcus(AxisX(m, i), AxisX(m, order[0].index));
    SameMcus(AxisY(m, i), AxisY(m, order[0].index));
  }

  lemma {:induction false} UnitCount(s: Shape, k: nat)
    requires s.Valid() && k <= |s.hs|
    ensures |s.UnitsFrom(k)| <= 16 * (|s.hs| - k)
    decreases |s.hs| - k
  {
    if k < |s.hs| {
      UnitCount(s, k + 1);
      assert s.hs[k] * s.vs[k] <= 16 by {
        MulMono(s.hs[k], 4, s.vs[k]);
      }
    }
  }

  lemma EffectiveIsOrder(order: seq<M.Component>)
    requires Distinct(order)
    ensures Effective(order) == order
  {
  }

  // ----- one written scan -----

  /** Blocks that were at their levels are at the next ones. */
  ghost predicate Advances(lv: seq<Levels>, k: Kind, was: seq<Cells>, now: seq<Cells>, zzs: seq<Cells>)
  {
    && |lv| == |was| == |now| == |zzs|
    && forall x :: 0 <= x < |zzs| && Shows(lv[x], was[x], zzs[x]) ==> Shows(Track(lv[x], k), now[x], zzs[x])
  }

  lemma DcAdvances(lv: seq<Levels>, k: Kind, p: DcPass, was: seq<Cells>, now: seq<Cells>, zzs: seq<Cells>)
    requires k.Dc() && k.Formed() && p.refine == k.refining && p.al == k.low
    requires |lv| == |zzs| && AllSharper(p, was, now, DcValues(zzs))
    ensures Advances(lv, k, was, now, zzs)
  {
    hide Shows, Sharper, Track;
    forall x | 0 <= x < |zzs| && Shows(lv[x], was[x], zzs[x])
      ensures Shows(Track(lv[x], k), now[x], zzs[x])
    {
      assert Sharper(p, was[x], now[x], DcValues(zzs)[x]);
      TrackDc(lv[x], k, p, was[x], now[x], zzs[x]);
    }
  }

  lemma BandAdvances(lv: seq<Levels>, k: Kind, p: Pass, was: seq<Cells>, now: seq<Cells>, zzs: seq<Cells>)
    requires !k.Dc() && p.ss == k.ss && p.se == k.se && p.al == k.low && p.ss <= p.se < 64
    requires |lv| == |zzs| && (forall x :: 0 <= x < |lv| ==> Legal(lv[x], k)) && AllAfter(p, was, now, zzs)
    ensures Advances(lv, k, was, now, zzs)
  {
    hide Shows, Legal, After;
    forall x | 0 <= x < |zzs| && Shows(lv[x], was[x], zzs[x])
      ensures Shows(Track(lv[x], k), now[x], zzs[x])
    {
      AcShows(lv[x], k, p, was[x], now[x], zzs[x]);
    }
  }

  lemma BandIsReady(lv: seq<Levels>, k: Kind, p: Pass, was: seq<Cells>, zzs: seq<Cells>)
    requires !k.Dc() && p.ss == k.ss && p.se == k.se && p.al == k.low && p.refine == k.refining && p.ss <= p.se < 64
    requires |lv| == |was| == |zzs| && (forall x :: 0 <= x < |lv| ==> Legal(lv[x], k) && Shows(lv[x], was[x], zzs[x])) && AllCodable(zzs)
    ensures AllBefore(p, was, zzs)
  {
    hide Shows, Legal, Before, Codable;
    forall x | 0 <= x < |zzs|
      ensures Codable(zzs[x]) && Before(p, was[x], zzs[x])
    {
      AcIsReady(lv[x], k, p, was[x], zzs[x]);
    }
  }

  lemma DcCodesAreSafe(t: M.Tables, order: seq<M.Component>, sp: P.Spectrum)
    requires TablesThere(t, ScanOf(order, sp), order) && !OfBand(ScanOf(order, sp)) && sp.low <= 13
    ensures AllSafeCodes(DcPassOf(t, order, sp.high > 0, sp.low))
  {
    hide CodeOf, HuffCode.Safe;
    NoDefIsSafe();
  }

  /** The written bytes of a scan, read from their first one: every block comes to the
      next level, and the marker stands behind them. */
  lemma PassIsRead(d: seq<Byte>, start: nat, t: M.Tables, order: seq<M.Component>, sp: P.Spectrum, plans: seq<seq<nat>>, mcu: seq<nat>,
                   zzs: seq<Cells>, blocks: seq<Cells>, lv: seq<Levels>, last: Byte)
    requires TablesThere(t, ScanOf(order, sp), order) && sp.first <= sp.last < 64 && KindOf(sp).Formed() && (sp.first > 0 ==> |order| == 1)
    requires |mcu| >= 1 && (forall b :: 0 <= b < |mcu| ==> mcu[b] < |order|) && |zzs| == |blocks| == |lv| <= 0x7fff_ffff && AllCodable(zzs)
    requires sp.first > 0 ==> forall x :: 0 <= x < |lv| ==> Legal(lv[x], KindOf(sp)) && Shows(lv[x], blocks[x], zzs[x])
    requires IsMarker(last) && !Restart(last) && start <= |d|
    requires Encoded(t, order, sp, plans, mcu, zzs, last).Some? && BytesHere(d, start, Encoded(t, order, sp, plans, mcu, zzs, last).value)
    ensures var r := RunPass(d, start, t, ScanOf(order, sp), order, mcu, blocks);
            && r.Passed? && Advances(lv, KindOf(sp), blocks, r.blocks, zzs)
            && NextMarker(d, r.last) == Some((last, start + |Encoded(t, order, sp, plans, mcu, zzs, last).value| as nat))
  {
    hide BandFrom, DcFrom, EncodeBandScan, EncodeDcScan, Usable, CodeOf, AllSafeCodes, Shows, Legal, AllBefore, AllAfter, AllSharper, Advances,
         BytesHere, NextMarker, Codable;
    var k, scan := KindOf(sp), ScanOf(order, sp);
    if OfBand(scan) {
      UsableIsSafe(t.ac[order[0].ha]);
      var p := BandOf(t, scan, order[0]);
      BandIsReady(lv, k, p, blocks, zzs);
      BandScanRoundTrip(p, t.restart, zzs, plans, 0, last, blocks, d, start);
      BandAdvances(lv, k, p, blocks, RunPass(d, start, t, scan, order, mcu, blocks).blocks, zzs);
    } else {
      UsableAll(t, order, sp.high > 0);
      var p := DcPassOf(t, order, sp.high > 0, sp.low);
      DcCodesAreSafe(t, order, sp);
      ShortValues(zzs);
      DcScanRoundTrip(p, mcu, t.restart, DcValues(zzs), 0, last, blocks, d, start);
      DcAdvances(lv, k, p, blocks, RunPass(d, start, t, scan, order, mcu, blocks).blocks, zzs);
    }
  }

  lemma UsableIsSafe(def: Option<M.HuffDef>)
    requires Usable(def)
    ensures GoodDef(def) && CodeOf(def.value).Safe()
  {
  }

  lemma ShortValues(zzs: seq<Cells>)
    requires AllCodable(zzs)
    ensures AllShort(DcValues(zzs))
  {
  }

  /** The levels of the blocks of a scan, in its order. */
  ghost function LevelsAlong(lvs: seq<Levels>, s: Shape, order: seq<M.Component>, us: seq<Unit>, n: nat): (lv: seq<Levels>)
    requires s.Valid() && |s.hs| == |order| && GoodUnits(us, |order|) && |us| > 0
    requires forall k :: 0 <= k < |order| ==> order[k].index < |lvs|
    ensures |lv| == n && forall x :: 0 <= x < n ==> PlaceOf(s, order, us, x).0 < |lvs| && lv[x] == lvs[PlaceOf(s, order, us, x).0]
  {
    seq(n, x requires 0 <= x < n => lvs[PlaceOf(s, order, us, x).0])
  }

  /** A band goes over own blocks only. */
  lemma BandShows(lvs: seq<Levels>, planes: seq<Plane>, mem: Memory, m: F.Image, pic: P.Coefficients, order: seq<M.Component>, s: Shape, us: seq<Unit>, x: nat)
    requires GoodImage(m) && GoodOrder(m, order) && |order| == 1 && AllShow(lvs, planes, mem, m, pic)
    requires s == ShapeOf(m, order) && us == s.UnitsFrom(0) && s.Valid() && |s.hs| == 1 && GoodUnits(us, 1) && |us| > 0 && x < Product(s.Count(), |us|)
    ensures var place := PlaceOf(s, order, us, x);
            place.0 == order[0].index && Shows(lvs[place.0], Fetch(planes, mem, place), P.Coef(pic, place))
  {
    hide Shows, Fetch, PlaceOf, Shape.UnitsFrom, Shape.Count, Axis.OwnBlocks, F.MaxH, F.MaxV;
    UnitsAreSmall(s, 0);
    var k := PlaceInShape(order, s, us, x);
    var (i, cx, cy) := PlaceOf(s, order, us, x);
    assert Own(m, i, cx, cy);
  }

  /** After the blocks of a scan are stored, every plane is at its new level. */
  lemma StoredShow(lvs: seq<Levels>, k: Kind, planes: seq<Plane>, mem: Memory, m: F.Image, pic: P.Coefficients, order: seq<M.Component>,
                   s: Shape, us: seq<Unit>, bs: seq<Cells>, n: nat)
    requires GoodImage(m) && GoodOrder(m, order) && AllShow(lvs, planes, mem, m, pic)
    requires s == ShapeOf(m, order) && us == s.UnitsFrom(0) && s.Valid() && |s.hs| == |order| && GoodUnits(us, |order|) && |us| > 0
    requires n == |bs| == Product(s.Count(), |us|)
    requires Advances(LevelsAlong(lvs, s, order, us, n), k, Fetched(planes, mem, s, order, us, n), bs, Wanted(pic, s, order, us, n))
    ensures AllShow(TrackAll(lvs, order, k), Store(planes, s, order, us, bs, n), mem, m, pic)
  {
    hide Shows, Fetch, PlaceOf, Shape.UnitsFrom, Shape.Count, ShapeOf, Track, GoodImage, Product, Store, Own;
    var now := Store(planes, s, order, us, bs, n);
    forall i: nat, cx: nat, cy: nat | Own(m, i, cx, cy)
      ensures i < |planes| && Shows(TrackAll(lvs, order, k)[i], Fetch(now, mem, (i, cx, cy)), pic(i, cx, cy))
    {
      InImage(m, i, cx, cy);
      var x := StoreFetch(planes, mem, s, order, us, bs, n, (i, cx, cy));
      if x >= 0 {
        P.PlaneOf(s, order, us, x);
        assert P.Names(order, i);
        assert Fetched(planes, mem, s, order, us, n)[x] == Fetch(planes, mem, (i, cx, cy));
        assert Wanted(pic, s, order, us, n)[x] == pic(i, cx, cy);
      } else if P.Names(order, i) {
        var j :| 0 <= j < |order| && order[j].index == i;
        var y := OwnIsCovered(m, order, j, cx, cy);
        assert false;
      }
    }
  }

  lemma InImage(m: F.Image, i: nat, cx: nat, cy: nat)
    requires GoodImage(m) && Own(m, i, cx, cy)
    ensures i < |m.planes|
  {
  }

  lemma FewBlocks(m: F.Image, order: seq<M.Component>)
    requires GoodImage(m) && GoodOrder(m, order) && |order| <= 4 && m.x <= F.MAX_DIMENSIONS && m.y <= F.MAX_DIMENSIONS
    ensures ShapeOf(m, order).Valid() && Product(ShapeOf(m, order).Count(), |ShapeOf(m, order).UnitsFrom(0)|) <= 0x7fff_ffff
  {
    hide ShapeOf, Shape.UnitsFrom, Shape.Count, GoodImage;
    ShapeIsValid(m, order);
    var s := ShapeOf(m, order);
    P.CountIsSmall(m, order);
    UnitCount(s, 0);
    MulMono(s.Count(), 4000000, |s.UnitsFrom(0)|);
  }

  lemma CodableBlocks(pic: P.Coefficients, s: Shape, order: seq<M.Component>, us: seq<Unit>, n: nat)
    requires CodablePicture(pic) && s.Valid() && |s.hs| == |order| && GoodUnits(us, |order|) && |us| > 0
    ensures AllCodable(Wanted(pic, s, order, us, n))
  {
    hide Codable;
  }

  /** A written scan is decoded: every plane that it names comes to its next level, and
      the others stay. */
  lemma PassIsStored(d: seq<Byte>, p: nat, t: M.Tables, m: F.Image, order: seq<M.Component>, sp: P.Spectrum, plans: seq<seq<nat>>,
                     pic: P.Coefficients, lvs: seq<Levels>, last: Byte, mem: Memory, planes: seq<Plane>)
    requires P.Writable(m) && GoodImage(m) && CodablePicture(pic) && Sendable(t, m, order, sp, plans, pic, lvs)
    requires AllShow(lvs, planes, mem, m, pic) && IsMarker(last) && !Restart(last)
    requires BytesHere(d, p, P.ScanBytes(m, order, sp) + PassBytes(t, m, order, sp, plans, pic, lvs, last))
    ensures var r := DecodePass(d, p, t, m, mem, planes);
            && r.Placed? && r.mark == last && AllShow(TrackAll(lvs, order, KindOf(sp)), r.planes, mem, m, pic)
            && r.pos == p + |P.ScanBytes(m, order, sp)| + |PassBytes(t, m, order, sp, plans, pic, lvs, last)|
  {
    hide GoodImage, P.Writable, CodablePicture, TablesThere, Encoded, RunPass, ShapeOf, Shape.UnitsFrom, Shape.Count, BytesHere, NextMarker, M.ScanReadable,
         M.ScanAt, M.Adv, Store, Advances, Track, Legal, Shows, Kinds, Distinct, Effective, PlaceOf, Product, GoodUnits, Fetch, Own;
    var s := ShapeOf(m, order);
    var us := s.UnitsFrom(0);
    var n := Product(s.Count(), |us|);
    var head, data := P.ScanBytes(m, order, sp), PassBytes(t, m, order, sp, plans, pic, lvs, last);
    BytesConcat(d, p, head, data);
    H.Fits(d, p, head);
    P.ScanFieldsFit(m, order, sp, true);
    P.ScanHeaderRoundTrip(d, p, m, order, sp, true);
    EffectiveIsOrder(order);
    ShapeIsValid(m, order);
    P.Dimensions(m);
    FewBlocks(m, order);
    CodableBlocks(pic, s, order, us, n);
    var blocks, zzs, lv := Fetched(planes, mem, s, order, us, n), Wanted(pic, s, order, us, n), LevelsAlong(lvs, s, order, us, n);
    if sp.first > 0 {
      forall x | 0 <= x < n
        ensures Legal(lv[x], KindOf(sp)) && Shows(lv[x], blocks[x], zzs[x])
      {
        BandShows(lvs, planes, mem, m, pic, order, s, us, x);
      }
    }
    PassIsRead(d, p + |head|, t, order, sp, plans, Kinds(us, order), zzs, blocks, lv, last);
    StoredShow(lvs, KindOf(sp), planes, mem, m, pic, order, s, us, RunPass(d, p + |head|, t, ScanOf(order, sp), order, Kinds(us, order), blocks).blocks, n);
  }

  /** A progressive scan with both DC and AC coefficients, or with AC coefficients of
      several components, is refused. */
  lemma MixedIsRefused(d: seq<Byte>, p: nat, t: M.Tables, m: F.Image, order: seq<M.Component>, sp: P.Spectrum, mem: Memory, planes: seq<Plane>)
    requires GoodImage(m) && |planes| == |m.planes| && P.ScanFields(m, order, sp) && BytesHere(d, p, P.ScanBytes(m, order, sp))
    requires sp.last > 0 && (sp.first == 0 || |order| > 1)
    ensures DecodePass(d, p, t, m, mem, planes) == BadScan
  {
    hide GoodImage, M.ScanReadable, M.ScanAt, M.Adv, BytesHere, Effective, P.ScanFields, TablesThere;
    P.ScanHeaderRoundTrip(d, p, m, order, sp, true);
  }
}
