/** Planes of blocks, the shape of a scan, and what a sequential scan leaves in
    which plane. */
module Picture {
  import opened Wrappers
  import opened Bits
  import opened Zigzag
  import opened Huffman
  import opened BitReader
  import opened BaselineScan
  import opened Geometry
  import M = Markers
  import F = Frames

  // ----- components of a scan -----

  /** The Huffman code of a definition; symbols that it does not define are zero. */
  function CodeOf(def: M.HuffDef): HuffCode
    requires |def.values| <= 256
  {
    HuffCode(def.counts, def.values + seq<Byte>(256 - |def.values|, _ => 0))
  }

  predicate GoodSteps(q: seq<nat>)
  {
    |q| == 64 && forall i :: 0 <= i < 64 ==> q[i] < 65536
  }

  predicate GoodDef(def: Option<M.HuffDef>)
  {
    def.Some? && |def.value.values| <= 256
  }

  /** Tables and plane of a scan component have been defined. */
  predicate Defined(t: M.Tables, m: F.Image, c: M.Component)
  {
    && c.index < |m.planes| && c.hd < |t.dc| && c.ha < |t.ac| && m.planes[c.index].tq < |t.quant|
    && GoodDef(t.dc[c.hd]) && GoodDef(t.ac[c.ha]) && GoodSteps(t.quant[m.planes[c.index].tq])
  }

  function CompOf(t: M.Tables, m: F.Image, c: M.Component): Comp
    requires Defined(t, m, c)
  {
    Comp(CodeOf(t.dc[c.hd].value), CodeOf(t.ac[c.ha].value), t.quant[m.planes[c.index].tq])
  }

  function CompsOf(t: M.Tables, m: F.Image, order: seq<M.Component>): (cs: seq<Comp>)
    requires forall k :: 0 <= k < |order| ==> Defined(t, m, order[k])
    ensures |cs| == |order|
  {
    seq(|order|, k requires 0 <= k < |order| => CompOf(t, m, order[k]))
  }

  /** The code of a definition: its counts, and its symbols in order. */
  ghost predicate IsCodeOf(code: HuffCode, def: Option<M.HuffDef>)
  {
    && def.Some? && code.counts == def.value.counts && |def.value.values| <= 256
    && forall n :: 0 <= n < |def.value.values| ==> code.values[n] == def.value.values[n]
  }

  /** A component of a scan is decoded with the DC table of its first selector, the AC
      table of its second one and the quantisation table of its plane. */
  lemma SelectedTables(t: M.Tables, m: F.Image, order: seq<M.Component>, k: nat)
    requires (forall i :: 0 <= i < |order| ==> Defined(t, m, order[i])) && k < |order|
    ensures var c := CompsOf(t, m, order)[k];
            && IsCodeOf(c.dc, t.dc[order[k].hd]) && IsCodeOf(c.ac, t.ac[order[k].ha])
            && c.dq == t.quant[m.planes[order[k].index].tq]
  {
  }

  // ----- the shape of a scan -----

  lemma Positive(a: nat, b: nat)
    ensures a * b >= 0
  {
  }

  function Product(a: nat, b: nat): (p: nat)
  {
    Positive(a, b);
    a * b
  }

  lemma ProductStep(a: nat, b: nat)
    requires a > 0
    ensures Product(a, b) == b + Product(a - 1, b)
  {
    assert a * b == b + (a - 1) * b;
  }

  /** A block of an MCU: its component in the scan, and its place in the MCU. */
  datatype Unit = Unit(k: nat, dx: nat, dy: nat)

  /** MCUs across and down, and for each component its blocks across and down in an
      MCU. */
  datatype Shape = Shape(mx: nat, my: nat, hs: seq<nat>, vs: seq<nat>) {
    predicate Valid()
    {
      && |hs| == |vs| && mx >= 1 && my >= 1
      && forall k :: 0 <= k < |hs| ==> 1 <= hs[k] <= 4 && 1 <= vs[k] <= 4
    }

    /** The number of MCUs. */
    function Count(): nat
    {
      Positive(mx, my);
      mx * my
    }

    /** The blocks of component k in an MCU, row by row. */
    function UnitsOf(k: nat): (us: seq<Unit>)
      requires Valid() && k < |hs|
    {
      seq(hs[k] * vs[k], i requires 0 <= i < hs[k] * vs[k] => Unit(k, i % hs[k], i / hs[k]))
    }

    /** The blocks of the components from k on. */
    function UnitsFrom(k: nat): seq<Unit>
      requires Valid() && k <= |hs|
      decreases |hs| - k
    {
      if k == |hs| then [] else UnitsOf(k) + UnitsFrom(k + 1)
    }
  }

  ghost predicate GoodImage(m: F.Image)
  {
    && m.x >= 1 && m.y >= 1 && |m.planes| >= 1
    && forall i :: 0 <= i < |m.planes| ==> AxisX(m, i).Valid() && AxisY(m, i).Valid() && m.planes[i].tq <= 3
  }

  function AxisX(m: F.Image, i: nat): Axis
    requires i < |m.planes|
  {
    Axis(m.x, m.planes[i].h, F.MaxH(m.planes))
  }

  function AxisY(m: F.Image, i: nat): Axis
    requires i < |m.planes|
  {
    Axis(m.y, m.planes[i].v, F.MaxV(m.planes))
  }

  /** One component alone goes block by block over its own blocks; several go by
      the MCUs of the image. */
  function ShapeOf(m: F.Image, order: seq<M.Component>): (s: Shape)
    requires GoodImage(m) && |order| >= 1 && forall k :: 0 <= k < |order| ==> order[k].index < |m.planes|
  {
    var i := order[0].index;
    if |order| == 1 then Shape(AxisX(m, i).OwnBlocks(), AxisY(m, i).OwnBlocks(), [1], [1])
    else Shape(AxisX(m, i).Mcus(), AxisY(m, i).Mcus(),
               seq(|order|, k requires 0 <= k < |order| => m.planes[order[k].index].h),
               seq(|order|, k requires 0 <= k < |order| => m.planes[order[k].index].v))
  }

  /** A header may name a plane more than once.  The plane has one predictor, and
      the last selector decides its tables. */
  function LastNamed(order: seq<M.Component>, index: nat, n: nat): (j: nat)
    requires n <= |order|
    ensures n > 0 ==> j < n
    ensures forall k :: 0 <= k < n && order[k].index == index ==> k <= j < n && order[j].index == index
  {
    if n == 0 then 0
    else if order[n - 1].index == index then n - 1
    else LastNamed(order, index, n - 1)
  }

  /** The selectors as the decoder keeps them: position by position the plane that
      was named, with the tables that were named for it last. */
  function Effective(order: seq<M.Component>): (e: seq<M.Component>)
    ensures |e| == |order| && forall k :: 0 <= k < |order| ==> e[k].index == order[k].index
  {
    seq(|order|, k requires 0 <= k < |order| => order[LastNamed(order, order[k].index, |order|)])
  }

  /** The list of components that the MCU loop goes through: every position of a
      plane stands for the same predictor. */
  function Kinds(us: seq<Unit>, order: seq<M.Component>): (mcu: seq<nat>)
    requires GoodUnits(us, |order|)
    ensures |mcu| == |us|
  {
    seq(|us|, u requires 0 <= u < |us| => LastNamed(order, order[us[u].k].index, |order|))
  }

  /** Every position has the tables that were named last for its plane. */
  lemma LastTablesWin(order: seq<M.Component>, k: nat, j: nat)
    requires k < |order| && j < |order| && order[j].index == order[k].index
    requires forall l :: j < l < |order| ==> order[l].index != order[j].index
    ensures Effective(order)[k] == order[j]
  {
  }

  /** Two blocks of an MCU share a predictor exactly if they belong to one plane. */
  lemma OnePredictorPerPlane(us: seq<Unit>, order: seq<M.Component>, a: nat, b: nat)
    requires GoodUnits(us, |order|) && a < |us| && b < |us|
    ensures Kinds(us, order)[a] == Kinds(us, order)[b] <==> order[us[a].k].index == order[us[b].k].index
  {
    LastOfPlane(order, order[us[a].k].index, order[us[b].k].index);
  }

  lemma LastOfPlane(order: seq<M.Component>, a: nat, b: nat)
    requires exists k :: 0 <= k < |order| && order[k].index == a
    requires exists k :: 0 <= k < |order| && order[k].index == b
    ensures LastNamed(order, a, |order|) == LastNamed(order, b, |order|) <==> a == b
  {
  }

  lemma KindsInRange(us: seq<Unit>, order: seq<M.Component>)
    requires GoodUnits(us, |order|)
    ensures forall b :: 0 <= b < |us| ==> Kinds(us, order)[b] < |order| && order[Kinds(us, order)[b]].index == order[us[b].k].index
  {
  }

  // ----- where blocks go -----

  type Plane = map<(nat, nat), Cells>

  predicate GoodUnits(us: seq<Unit>, n: nat)
  {
    forall u :: 0 <= u < |us| ==> us[u].k < n
  }

  /** Plane number, column and row of a block of an MCU. */
  function PlaceIn(s: Shape, order: seq<M.Component>, u: Unit, mcu: nat): (nat, nat, nat)
    requires s.Valid() && u.k < |s.hs| == |order|
  {
    (order[u.k].index, Rem(mcu, s.mx) * s.hs[u.k] + u.dx, Quot(mcu, s.mx) * s.vs[u.k] + u.dy)
  }

  /** Plane number, column and row of block t of a scan. */
  function PlaceOf(s: Shape, order: seq<M.Component>, us: seq<Unit>, t: nat): (nat, nat, nat)
    requires s.Valid() && |s.hs| == |order| && |us| > 0 && GoodUnits(us, |order|)
  {
    PlaceIn(s, order, us[Rem(t, |us|)], Quot(t, |us|))
  }

  /** The planes after the first t blocks of a scan. */
  function Store(planes: seq<Plane>, s: Shape, order: seq<M.Component>, us: seq<Unit>, bs: seq<Cells>, t: nat): (r: seq<Plane>)
    requires s.Valid() && |s.hs| == |order| && GoodUnits(us, |order|) && t <= |bs| && (t > 0 ==> |us| > 0)
    requires forall k :: 0 <= k < |order| ==> order[k].index < |planes|
    ensures |r| == |planes|
    decreases t
  {
    if t == 0 then planes else
    var q := Store(planes, s, order, us, bs, t - 1);
    var (i, cx, cy) := PlaceOf(s, order, us, t - 1);
    q[i := q[i][(cx, cy) := bs[t - 1]]]
  }

  // ----- one scan -----

  ghost predicate AllDefined(t: M.Tables, m: F.Image, order: seq<M.Component>)
  {
    forall k :: 0 <= k < |order| ==>
      Defined(t, m, order[k]) && CompOf(t, m, order[k]).dc.Safe() && CompOf(t, m, order[k]).ac.Safe()
  }

  function Ids(m: F.Image): seq<Byte>
  {
    seq(|m.planes|, i requires 0 <= i < |m.planes| => m.planes[i].id)
  }

  /** What follows a scan: the marker that ended it, and one more behind a restart
      marker; nothing at the end of the data. */
  function Behind(d: seq<Byte>, end: Option<(Byte, nat)>): (r: (Byte, nat))
    requires end.Some? ==> end.value.1 <= |d|
  {
    if end.None? then (M.NONE, |d|)
    else if Restart(end.value.0) then M.MarkerAt(d, end.value.1)
    else end.value
  }

  ghost predicate GoodOrder(m: F.Image, order: seq<M.Component>)
  {
    |order| >= 1 && forall k :: 0 <= k < |order| ==> order[k].index < |m.planes|
  }

  lemma ShapeIsValid(m: F.Image, order: seq<M.Component>)
    requires GoodImage(m) && GoodOrder(m, order)
    ensures var s := ShapeOf(m, order);
            s.Valid() && |s.hs| == |order| && GoodUnits(s.UnitsFrom(0), |order|)
  {
    var i := order[0].index;
    AxisCounts(AxisX(m, i));
    AxisCounts(AxisY(m, i));
    var s := ShapeOf(m, order);
    forall k | 0 <= k < |s.hs|
      ensures 1 <= s.hs[k] <= 4 && 1 <= s.vs[k] <= 4
    {
      if |order| > 1 {
        assert AxisX(m, order[k].index).Valid() && AxisY(m, order[k].index).Valid();
      }
    }
    UnitsAreGood(s, 0);
  }

  lemma AxisCounts(a: Axis)
    requires a.Valid()
    ensures a.Mcus() >= 1 && a.OwnBlocks() >= 1
  {
    CeilDivIsLeast(a.size, a.top * 8, 0);
    MulMono(1, a.factor, a.size);
    CeilDivIsLeast(a.size * a.factor, a.top, 0);
    assert a.Samples() == CeilDiv(a.size * a.factor, a.top);
    assert a.Mcus() == CeilDiv(a.size, a.top * 8);
  }

  lemma {:induction false} UnitsAreGood(s: Shape, k: nat)
    requires s.Valid() && k <= |s.hs|
    ensures GoodUnits(s.UnitsFrom(k), |s.hs|)
    decreases |s.hs| - k
  {
    if k < |s.hs| {
      UnitsAreGood(s, k + 1);
    }
  }

  datatype ScanStep = Placed(planes: seq<Plane>, mark: Byte, pos: nat) | BadScan | VagueScan

  /** The blocks of a scan of the given shape, as ScanFrom decodes them. */
  ghost function BlocksOf(d: seq<Byte>, start: nat, cs: seq<Comp>, mcu: seq<nat>, interval: nat, s: Shape): ScanResult
    requires start <= |d| && forall b :: 0 <= b < |mcu| ==> mcu[b] < |cs|
  {
    ScanFrom(cs, mcu, interval, d, start, 0, Zeroes(|cs|), Todo(interval), s.Count())
  }

  ghost function MarkBehind(d: seq<Byte>, start: nat, cs: seq<Comp>, mcu: seq<nat>, interval: nat, s: Shape): (r: (Byte, nat))
    requires start <= |d| && forall b :: 0 <= b < |mcu| ==> mcu[b] < |cs|
    ensures start <= r.1 <= |d|
  {
    Behind(d, NextMarker(d, LastStart(cs, mcu, interval, d, start, 0, Zeroes(|cs|), Todo(interval), s.Count())))
  }

  /** The entropy-coded data from `start` on, for the given components. */
  ghost function RunScan(d: seq<Byte>, start: nat, m: F.Image, order: seq<M.Component>, cs: seq<Comp>, interval: nat,
                         planes: seq<Plane>, s: Shape, us: seq<Unit>): (r: ScanStep)
    requires |planes| == |m.planes| && GoodOrder(m, order) && start <= |d|
    requires s.Valid() && |s.hs| == |order| == |cs| && GoodUnits(us, |order|)
    ensures r.Placed? ==> |r.planes| == |planes| && start <= r.pos <= |d|
  {
    KindsInRange(us, order);
    match BlocksOf(d, start, cs, Kinds(us, order), interval, s)
    case ScanCorrupt => BadScan
    case Unclear => VagueScan
    case Finished(bs) =>
      var (mark, pos) := MarkBehind(d, start, cs, Kinds(us, order), interval, s);
      if |us| == 0 then VagueScan else Placed(Store(planes, s, order, us, bs, |bs|), mark, pos)
  }

  /** The scan whose header stands at p: its blocks are stored, and decoding goes on
      behind it. */
  ghost function DecodeScan(d: seq<Byte>, p: nat, t: M.Tables, m: F.Image, planes: seq<Plane>): (r: ScanStep)
    requires GoodImage(m) && |planes| == |m.planes|
    ensures r.Placed? ==> |r.planes| == |planes| && p < |d| && p < r.pos <= |d|
  {
    if !M.ScanReadable(d, p, Ids(m), false) then BadScan else
    M.ScanIsGood(d, p, Ids(m), false);
    var order := Effective(M.ScanAt(d, p, Ids(m), false).order);
    if !AllDefined(t, m, order) then VagueScan else
    ShapeIsValid(m, order);
    var s := ShapeOf(m, order);
    RunScan(d, M.Adv(d, p, 6 + 2 * |order|), m, order, CompsOf(t, m, order), t.restart, planes, s, s.UnitsFrom(0))
  }
}
