/** Progressive scans over the coefficient planes of an image, and what becomes of the
    coefficients at the end. */
module ProgressivePicture {
  import opened Wrappers
  import opened Bits
  import opened Machine
  import opened Zigzag
  import opened Canonical
  import opened Huffman
  import opened BitReader
  import opened Scans
  import opened BaselineScan
  import opened BandIntervals
  import opened DcIntervals
  import opened Picture
  import M = Markers
  import F = Frames

  /** What the coefficient planes hold at first: they are allocated, not cleared. */
  type Memory = (nat, nat, nat) -> Cells

  function Fetch(planes: seq<Plane>, mem: Memory, place: (nat, nat, nat)): Cells
    requires place.0 < |planes|
  {
    var (i, cx, cy) := place;
    if (cx, cy) in planes[i] then planes[i][(cx, cy)] else mem(i, cx, cy)
  }

  /** The first n blocks of a scan, in its order. */
  function Fetched(planes: seq<Plane>, mem: Memory, s: Shape, order: seq<M.Component>, us: seq<Unit>, n: nat): (bs: seq<Cells>)
    requires s.Valid() && |s.hs| == |order| && GoodUnits(us, |order|) && |us| > 0
    requires forall k :: 0 <= k < |order| ==> order[k].index < |planes|
    ensures |bs| == n && forall x :: 0 <= x < n ==> PlaceOf(s, order, us, x).0 < |planes| && bs[x] == Fetch(planes, mem, PlaceOf(s, order, us, x))
  {
    seq(n, x requires 0 <= x < n => Fetch(planes, mem, PlaceOf(s, order, us, x)))
  }

  // ----- one scan -----

  predicate Distinct(order: seq<M.Component>)
  {
    forall j, k :: 0 <= j < k < |order| ==> order[j].index != order[k].index
  }

  /** The scan is a band of AC coefficients of one component. */
  predicate OfBand(scan: M.Scan)
  {
    |scan.order| == 1 && scan.first > 0
  }

  ghost predicate Usable(def: Option<M.HuffDef>)
  {
    GoodDef(def) && CodeOf(def.value).Safe()
  }

  /** The code tables that the scan reads have been defined; refinements of DC values
      read none. */
  ghost predicate TablesThere(t: M.Tables, scan: M.Scan, order: seq<M.Component>)
  {
    if OfBand(scan) then |order| == 1 && order[0].ha < |t.ac| && Usable(t.ac[order[0].ha])
    else scan.high > 0 || forall k :: 0 <= k < |order| ==> order[k].hd < |t.dc| && Usable(t.dc[order[k].hd])
  }

  function NoDef(): M.HuffDef
  {
    M.HuffDef(seq(16, _ => 0), [])
  }

  lemma {:induction false} NothingCounted(j: nat)
    requires j <= 16
    ensures Num(NoDef().counts, j) == 0 && Kraft(NoDef().counts, j) == 0
  {
    if j > 0 {
      NothingCounted(j - 1);
      ShlZero(16 - j);
    }
  }

  lemma ShlZero(n: nat)
    ensures Shl(0, n) == 0
  {
  }

  lemma NoDefIsSafe()
    ensures CodeOf(NoDef()).Safe()
  {
    hide Num, Kraft, Len;
    NothingCounted(16);
  }

  lemma UsableAll(t: M.Tables, order: seq<M.Component>, refine: bool)
    requires refine || forall k :: 0 <= k < |order| ==> order[k].hd < |t.dc| && Usable(t.dc[order[k].hd])
    ensures refine || forall k :: 0 <= k < |order| ==> order[k].hd < |t.dc| && GoodDef(t.dc[order[k].hd])
  {
    hide CodeOf, HuffCode.Safe;
  }

  /** The definition of the DC code of a component; a refinement needs none. */
  function DcDef(t: M.Tables, c: M.Component, refine: bool): (def: M.HuffDef)
    requires refine || (c.hd < |t.dc| && GoodDef(t.dc[c.hd]))
    ensures |def.values| <= 256
  {
    if refine then NoDef() else t.dc[c.hd].value
  }

  function DcPassOf(t: M.Tables, order: seq<M.Component>, refine: bool, al: nat): (p: DcPass)
    requires refine || forall k :: 0 <= k < |order| ==> order[k].hd < |t.dc| && GoodDef(t.dc[order[k].hd])
    ensures |p.codes| == |order|
  {
    DcPass(seq(|order|, k requires 0 <= k < |order| => CodeOf(DcDef(t, order[k], refine))), refine, al)
  }

  function BandOf(t: M.Tables, scan: M.Scan, c: M.Component): Pass
    requires c.ha < |t.ac| && GoodDef(t.ac[c.ha])
  {
    Pass(CodeOf(t.ac[c.ha].value), scan.high > 0, scan.first, scan.last, scan.low)
  }

  /** A progressive scan goes from spectral start to end at its low bit position, and
      refines if its high position is not zero; AC bands use the AC table that the second
      selector names, first DC scans the DC tables of the first selectors. */
  lemma SelectedPass(t: M.Tables, scan: M.Scan, order: seq<M.Component>, k: nat)
    requires TablesThere(t, scan, order) && k < |order|
    ensures OfBand(scan) ==>
              && order[0].ha < |t.ac| && GoodDef(t.ac[order[0].ha])
              && var p := BandOf(t, scan, order[0]);
                 IsCodeOf(p.code, t.ac[order[0].ha]) && p.ss == scan.first && p.se == scan.last && p.al == scan.low && (p.refine <==> scan.high != 0)
    ensures !OfBand(scan) ==>
              && (scan.high > 0 || forall i :: 0 <= i < |order| ==> order[i].hd < |t.dc| && GoodDef(t.dc[order[i].hd]))
              && var p := DcPassOf(t, order, scan.high > 0, scan.low);
                 p.al == scan.low && (p.refine <==> scan.high != 0) && (scan.high == 0 ==> IsCodeOf(p.codes[k], t.dc[order[k].hd]))
  {
    hide HuffCode.Safe;
  }

  /** The pass over the blocks of a scan, in its order. */
  ghost function RunPass(d: seq<Byte>, start: nat, t: M.Tables, scan: M.Scan, order: seq<M.Component>, mcu: seq<nat>, blocks: seq<Cells>): (r: PassResult)
    requires start <= |d| && TablesThere(t, scan, order) && scan.first <= scan.last < 64
    requires |mcu| >= 1 && forall b :: 0 <= b < |mcu| ==> mcu[b] < |order|
    ensures r.Passed? ==> start <= r.last <= |d| && |r.blocks| == |blocks|
  {
    if OfBand(scan) then BandFrom(BandOf(t, scan, order[0]), t.restart, d, start, 0, blocks, 0, Todo(t.restart))
    else DcFrom(DcPassOf(t, order, scan.high > 0, scan.low), mcu, t.restart, d, start, 0, Zeroes(|order|), 0, Todo(t.restart), blocks)
  }

  /** The entropy-coded data from `start` on. */
  ghost function StorePass(d: seq<Byte>, start: nat, t: M.Tables, m: F.Image, scan: M.Scan, order: seq<M.Component>,
                           mem: Memory, planes: seq<Plane>, s: Shape, us: seq<Unit>): (r: ScanStep)
    requires |planes| == |m.planes| && GoodOrder(m, order) && start <= |d| && TablesThere(t, scan, order) && scan.first <= scan.last < 64
    requires s.Valid() && |s.hs| == |order| && GoodUnits(us, |order|)
    ensures r.Placed? ==> |r.planes| == |planes| && start <= r.pos <= |d|
  {
    if |us| == 0 then VagueScan else
    KindsInRange(us, order);
    match RunPass(d, start, t, scan, order, Kinds(us, order), Fetched(planes, mem, s, order, us, Product(s.Count(), |us|)))
    case PassCorrupt => BadScan
    case PassUnclear => VagueScan
    case Passed(bs, last) =>
      var (mark, pos) := Behind(d, NextMarker(d, last));
      Placed(Store(planes, s, order, us, bs, |bs|), mark, pos)
  }

  /** A scan with the given header.  DC and AC coefficients together are refused at
      the first block; a scan that visits blocks twice is left open. */
  ghost function PassFrom(d: seq<Byte>, start: nat, t: M.Tables, m: F.Image, scan: M.Scan, order: seq<M.Component>,
                          mem: Memory, planes: seq<Plane>): (r: ScanStep)
    requires GoodImage(m) && |planes| == |m.planes| && GoodOrder(m, order) && start <= |d| && scan.first <= scan.last < 64
    ensures r.Placed? ==> |r.planes| == |planes| && start <= r.pos <= |d|
  {
    if scan.last > 0 && !OfBand(scan) then BadScan
    else if !Distinct(order) || !TablesThere(t, scan, order) then VagueScan else
    ShapeIsValid(m, order);
    var s := ShapeOf(m, order);
    StorePass(d, start, t, m, scan, order, mem, planes, s, s.UnitsFrom(0))
  }

  /** The progressive scan whose header stands at p. */
  ghost function DecodePass(d: seq<Byte>, p: nat, t: M.Tables, m: F.Image, mem: Memory, planes: seq<Plane>): (r: ScanStep)
    requires GoodImage(m) && |planes| == |m.planes|
    ensures r.Placed? ==> |r.planes| == |planes| && p < |d| && p < r.pos <= |d|
  {
    if !M.ScanReadable(d, p, Ids(m), true) then BadScan else
    M.ScanIsGood(d, p, Ids(m), true);
    var scan := M.ScanAt(d, p, Ids(m), true);
    PassFrom(d, M.Adv(d, p, 6 + 2 * |scan.order|), t, m, scan, Effective(scan.order), mem, planes)
  }

  // ----- the end -----

  /** The coefficients of a block times the quantisation steps, as shorts. */
  function Scaled(cells: Cells, q: seq<nat>): (r: Cells)
    requires |q| == 64
    ensures forall x :: 0 <= x < 64 ==> r[x] == ToShort(cells[x] * q[x])
  {
    seq(64, x requires 0 <= x < 64 => ToShort(cells[x] * q[x]))
  }

  /** The blocks of plane i that go on to the inverse transform. */
  ghost function FinishedPlane(planes: seq<Plane>, mem: Memory, m: F.Image, t: M.Tables, i: nat): Plane
    requires GoodImage(m) && M.Shaped(t) && i < |planes| == |m.planes|
  {
    map cx: nat, cy: nat | 0 <= cx < AxisX(m, i).OwnBlocks() && 0 <= cy < AxisY(m, i).OwnBlocks() ::
      (cx, cy) := Scaled(Fetch(planes, mem, (i, cx, cy)), t.quant[m.planes[i].tq])
  }

  ghost function FinishedPlanes(planes: seq<Plane>, mem: Memory, m: F.Image, t: M.Tables): (r: seq<Plane>)
    requires GoodImage(m) && M.Shaped(t) && |planes| == |m.planes|
    ensures |r| == |planes|
  {
    seq(|planes|, i requires 0 <= i < |planes| => FinishedPlane(planes, mem, m, t, i))
  }
}
