/** On any bytes, no block is ever stored outside the plane that was allocated for
    its component. */
module PictureBounds {
  import opened Bits
  import opened Zigzag
  import opened Huffman
  import opened BitReader
  import opened BaselineScan
  import opened Geometry
  import opened Picture
  import opened ProgressivePicture
  import opened JpegFile
  import M = Markers
  import F = Frames

  /** Every stored block lies inside its plane. */
  ghost predicate Inside(planes: seq<Plane>, m: F.Image)
    requires GoodImage(m)
  {
    && |planes| == |m.planes|
    && forall i, cx, cy :: 0 <= i < |planes| && (cx, cy) in planes[i] ==> InPlane(m, i, cx, cy)
  }

  ghost predicate InPlane(m: F.Image, i: nat, cx: nat, cy: nat)
    requires GoodImage(m) && i < |m.planes|
  {
    cx < AxisX(m, i).Extent() / 8 && cy < AxisY(m, i).Extent() / 8
  }

  // ----- how many blocks a scan delivers -----

  lemma {:induction false} BlockCount(comps: seq<Comp>, mcu: seq<nat>, interval: nat, d: seq<Byte>,
                                      start: nat, at: nat, preds: seq<int>, todo: int, left: nat)
    requires start <= |d| && |preds| == |comps| && forall b :: 0 <= b < |mcu| ==> mcu[b] < |comps|
    ensures var r := ScanFrom(comps, mcu, interval, d, start, at, preds, todo, left);
            r.Finished? ==> |r.blocks| <= Product(left, |mcu|)
    decreases left
  {
    hide DecodeUnits, Destuff, NextMarker, Product;
    if left > 0 {
      ProductStep(left, |mcu|);
      var r := DecodeUnits(comps, mcu, Destuff(d, start), at, preds);
      if r.Units? {
        if todo > 1 {
          BlockCount(comps, mcu, interval, d, start, r.next, r.preds, todo - 1, left - 1);
        } else {
          var m := NextMarker(d, start);
          if m.Some? {
            BlockCount(comps, mcu, interval, d, m.value.1, 0, Zeroes(|comps|), Todo(interval), left - 1);
          }
        }
      }
    }
  }

  // ----- where they go -----

  /** Units lie inside the MCU. */
  ghost predicate SmallUnits(us: seq<Unit>, s: Shape)
    requires s.Valid()
  {
    forall u :: 0 <= u < |us| ==> us[u].k < |s.hs| && us[u].dx < s.hs[us[u].k] && us[u].dy < s.vs[us[u].k]
  }

  lemma {:induction false} UnitsAreSmall(s: Shape, k: nat)
    requires s.Valid() && k <= |s.hs|
    ensures SmallUnits(s.UnitsFrom(k), s)
    decreases |s.hs| - k
  {
    if k < |s.hs| {
      OwnUnitsAreSmall(s, k);
      UnitsAreSmall(s, k + 1);
    }
  }

  lemma OwnUnitsAreSmall(s: Shape, k: nat)
    requires s.Valid() && k < |s.hs|
    ensures SmallUnits(s.UnitsOf(k), s)
  {
    var h, v := s.hs[k], s.vs[k];
    forall i | 0 <= i < h * v
      ensures i % h < h && i / h < v
    {
      DivSplit(i, h);
      assert h * v == v * h;
      Less(i / h, i % h, h, v);
    }
  }

  /** The place of a block is that of its rank in the grid of its component. */
  lemma PlaceIsGridPlace(s: Shape, order: seq<M.Component>, u: Unit, mcu: nat)
    requires s.Valid() && u.k < |s.hs| == |order| && u.dx < s.hs[u.k] && u.dy < s.vs[u.k]
    ensures var g := Grid(s.mx, s.my, s.hs[u.k], s.vs[u.k]);
            var place := g.Place(g.Rank(Quot(mcu, s.mx), Rem(mcu, s.mx), u.dy, u.dx));
            g.Valid() && PlaceIn(s, order, u, mcu) == (order[u.k].index, place.0, place.1)
  {
    hide Quot, Rem, Grid.Place, Grid.Rank;
    var g := Grid(s.mx, s.my, s.hs[u.k], s.vs[u.k]);
    RankPlaces(g, Quot(mcu, s.mx), Rem(mcu, s.mx), u.dy, u.dx);
  }

  // ----- how large -----

  /** The largest factors of an image. */
  ghost predicate Largest(m: F.Image, mh: nat, mv: nat)
  {
    && (exists i :: 0 <= i < |m.planes| && m.planes[i].h == mh) && (forall i :: 0 <= i < |m.planes| ==> m.planes[i].h <= mh)
    && (exists i :: 0 <= i < |m.planes| && m.planes[i].v == mv) && (forall i :: 0 <= i < |m.planes| ==> m.planes[i].v <= mv)
  }

  lemma LargestAre(m: F.Image, mh: nat, mv: nat)
    requires GoodImage(m) && Largest(m, mh, mv)
    ensures mh == F.MaxH(m.planes) && mv == F.MaxV(m.planes)
  {
    hide F.MaxH, F.MaxV;
    forall i | 0 <= i < |m.planes|
      ensures F.GoodPlane(m.planes[i])
    {
      assert AxisX(m, i).Valid() && AxisY(m, i).Valid();
    }
    F.MaximaExactly(m.planes, mh, mv);
  }

  /** How many MCUs and blocks there are: the least that cover the image, a component
      counting with its share of the largest factors. */
  lemma PlaneSizes(m: F.Image, i: nat, mh: nat, mv: nat, n: nat)
    requires GoodImage(m) && Largest(m, mh, mv) && i < |m.planes|
    ensures AxisX(m, i).Mcus() <= n <==> m.x <= n * (mh * 8)
    ensures AxisY(m, i).Mcus() <= n <==> m.y <= n * (mv * 8)
    ensures AxisX(m, i).OwnBlocks() <= n <==> m.x * m.planes[i].h <= n * 8 * mh
    ensures AxisY(m, i).OwnBlocks() <= n <==> m.y * m.planes[i].v <= n * 8 * mv
    ensures AxisX(m, i).Extent() == 8 * m.planes[i].h * AxisX(m, i).Mcus()
    ensures AxisY(m, i).Extent() == 8 * m.planes[i].v * AxisY(m, i).Mcus()
  {
    hide F.MaxH, F.MaxV, Largest, Axis.Mcus, Axis.OwnBlocks, Axis.Extent;
    LargestAre(m, mh, mv);
    SizesAreLeast(AxisX(m, i), n);
    SizesAreLeast(AxisY(m, i), n);
  }

  /** How many blocks a scan goes over: the own blocks of a single component, or whole
      MCUs with the factors of each. */
  lemma ScanSizes(m: F.Image, order: seq<M.Component>, mh: nat, mv: nat, n: nat)
    requires GoodImage(m) && GoodOrder(m, order) && Largest(m, mh, mv)
    ensures var s, p := ShapeOf(m, order), m.planes[order[0].index];
            if |order| == 1 then
              && s.hs == s.vs == [1]
              && (s.mx <= n <==> m.x * p.h <= n * 8 * mh) && (s.my <= n <==> m.y * p.v <= n * 8 * mv)
            else
              && |s.hs| == |s.vs| == |order|
              && (forall k :: 0 <= k < |order| ==> s.hs[k] == m.planes[order[k].index].h && s.vs[k] == m.planes[order[k].index].v)
              && (s.mx <= n <==> m.x <= n * (mh * 8)) && (s.my <= n <==> m.y <= n * (mv * 8))
  {
    hide AxisX, AxisY, Largest;
    PlaneSizes(m, order[0].index, mh, mv, n);
  }

  // ----- in which order -----

  /** A turn of the nested loops of a scan: MCU row and column, position in the scan
      header, row and column in the MCU. */
  datatype Visit = Visit(j: nat, i: nat, k: nat, y: nat, x: nat)

  /** The innermost loop runs fastest. */
  predicate Precedes(a: Visit, b: Visit)
  {
    || a.j < b.j
    || (a.j == b.j && a.i < b.i)
    || (a.j == b.j && a.i == b.i && UnitPrecedes(Unit(a.k, a.x, a.y), Unit(b.k, b.x, b.y)))
  }

  predicate UnitPrecedes(a: Unit, b: Unit)
  {
    a.k < b.k || (a.k == b.k && (a.dy < b.dy || (a.dy == b.dy && a.dx < b.dx)))
  }

  lemma {:induction false} UnitsInOrder(s: Shape, k: nat, a: nat, b: nat)
    requires s.Valid() && k <= |s.hs| && a < b < |s.UnitsFrom(k)|
    ensures UnitPrecedes(s.UnitsFrom(k)[a], s.UnitsFrom(k)[b]) && s.UnitsFrom(k)[a].k >= k && s.UnitsFrom(k)[b].k >= k
    decreases |s.hs| - k
  {
    hide Shape.UnitsOf;
    var n := |s.UnitsOf(k)|;
    OwnUnits(s, k);
    if a < n && b < n {
      OwnInOrder(s, k, a, b);
    } else if b >= n {
      UnitsBehind(s, k + 1, b - n);
      if a >= n {
        UnitsInOrder(s, k + 1, a - n, b - n);
      }
    }
  }

  lemma OwnUnits(s: Shape, k: nat)
    requires s.Valid() && k < |s.hs|
    ensures forall a :: 0 <= a < |s.UnitsOf(k)| ==> s.UnitsOf(k)[a].k == k
  {
  }

  lemma OwnInOrder(s: Shape, k: nat, a: nat, b: nat)
    requires s.Valid() && k < |s.hs| && a < b < |s.UnitsOf(k)|
    ensures UnitPrecedes(s.UnitsOf(k)[a], s.UnitsOf(k)[b])
  {
    var h := s.hs[k];
    DivSplit(a, h);
    DivSplit(b, h);
    if a / h > b / h {
      MulMono(b / h + 1, a / h, h);
    }
  }

  lemma {:induction false} UnitsBehind(s: Shape, k: nat, a: nat)
    requires s.Valid() && k <= |s.hs| && a < |s.UnitsFrom(k)|
    ensures s.UnitsFrom(k)[a].k >= k
    decreases |s.hs| - k
  {
    hide Shape.UnitsOf;
    OwnUnits(s, k);
    if a >= |s.UnitsOf(k)| {
      UnitsBehind(s, k + 1, a - |s.UnitsOf(k)|);
    }
  }

  /** The turn in which block t of a scan is visited. */
  function VisitAt(s: Shape, us: seq<Unit>, t: nat): Visit
    requires s.Valid() && |us| > 0
  {
    var u, mcu := us[Rem(t, |us|)], Quot(t, |us|);
    Visit(Quot(mcu, s.mx), Rem(mcu, s.mx), u.k, u.dy, u.dx)
  }

  /** Blocks come in the order of the nested loops over MCU rows, MCUs, components, rows
      and columns, and each goes to the place that its turn names. */
  lemma ScanOrder(s: Shape, order: seq<M.Component>, t: nat, later: nat)
    requires s.Valid() && |s.hs| == |order| && |s.UnitsFrom(0)| > 0 && GoodUnits(s.UnitsFrom(0), |order|) && t < later
    ensures Precedes(VisitAt(s, s.UnitsFrom(0), t), VisitAt(s, s.UnitsFrom(0), later))
    ensures var v := VisitAt(s, s.UnitsFrom(0), t);
            v.k < |order| && PlaceOf(s, order, s.UnitsFrom(0), t) == (order[v.k].index, v.i * s.hs[v.k] + v.x, v.j * s.vs[v.k] + v.y)
  {
    hide Quot, Rem, Shape.UnitsFrom;
    var us := s.UnitsFrom(0);
    QuotGrows(t, later, |us|);
    var a, b := Quot(t, |us|), Quot(later, |us|);
    if a < b {
      QuotGrows(a, b, s.mx);
    } else {
      UnitsInOrder(s, 0, Rem(t, |us|), Rem(later, |us|));
    }
  }

  lemma QuotGrows(a: nat, b: nat, n: nat)
    requires a < b && n > 0
    ensures Quot(a, n) < Quot(b, n) || (Quot(a, n) == Quot(b, n) && Rem(a, n) < Rem(b, n))
  {
    DivSplit(a, n);
    DivSplit(b, n);
    if a / n > b / n {
      MulMono(b / n + 1, a / n, n);
    }
  }

  /** The blocks of a component fit its plane. */
  lemma ShapeFits(m: F.Image, order: seq<M.Component>, k: nat)
    requires GoodImage(m) && GoodOrder(m, order) && k < |order|
    ensures var s, i := ShapeOf(m, order), order[k].index;
            && |s.hs| == |s.vs| == |order|
            && s.mx * s.hs[k] <= AxisX(m, i).Extent() / 8 && s.my * s.vs[k] <= AxisY(m, i).Extent() / 8
  {
    hide F.MaxH, F.MaxV;
    var i := order[k].index;
    OwnBlocksFit(AxisX(m, i));
    OwnBlocksFit(AxisY(m, i));
    SameMcus(AxisX(m, i), AxisX(m, order[0].index));
    SameMcus(AxisY(m, i), AxisY(m, order[0].index));
  }

  lemma SameMcus(a: Axis, b: Axis)
    requires a.Valid() && b.Valid() && a.size == b.size && a.top == b.top
    ensures a.Mcus() == b.Mcus()
  {
  }

  /** A block of a scan lies in the part of its plane that the scan goes over. */
  lemma PlaceInShape(order: seq<M.Component>, s: Shape, us: seq<Unit>, x: nat) returns (k: nat)
    requires s.Valid() && |s.hs| == |order| && SmallUnits(us, s) && |us| > 0 && GoodUnits(us, |order|) && x < Product(s.Count(), |us|)
    ensures k < |order|
    ensures var (i, cx, cy) := PlaceOf(s, order, us, x); i == order[k].index && cx < s.mx * s.hs[k] && cy < s.my * s.vs[k]
  {
    hide Quot, Rem;
    var mcu, u := Quot(x, |us|), us[Rem(x, |us|)];
    RankInside(x, |us|, s.Count());
    RankInside(mcu, s.mx, s.my);
    k := u.k;
    Nest(Rem(mcu, s.mx), u.dx, s.hs[u.k], s.mx);
    Nest(Quot(mcu, s.mx), u.dy, s.vs[u.k], s.my);
  }

  lemma PlaceIsInside(m: F.Image, order: seq<M.Component>, s: Shape, us: seq<Unit>, x: nat)
    requires GoodImage(m) && GoodOrder(m, order) && s == ShapeOf(m, order) && s.Valid() && |s.hs| == |order|
    requires SmallUnits(us, s) && |us| > 0 && GoodUnits(us, |order|) && x < Product(s.Count(), |us|)
    ensures var (i, cx, cy) := PlaceOf(s, order, us, x); i < |m.planes| && InPlane(m, i, cx, cy)
  {
    hide ShapeOf, GoodImage, PlaceOf;
    var k := PlaceInShape(order, s, us, x);
    ShapeFits(m, order, k);
  }

  lemma RankInside(x: nat, n: nat, c: nat)
    requires n > 0 && (x < c * n || x < n * c)
    ensures Quot(x, n) < c
  {
    assert c * n == n * c;
    DivSplit(x, n);
    Less(x / n, x % n, n, c);
  }

  lemma {:induction false} StoreIsInside(planes: seq<Plane>, m: F.Image, order: seq<M.Component>, s: Shape, us: seq<Unit>, bs: seq<Cells>, t: nat)
    requires GoodImage(m) && GoodOrder(m, order) && s == ShapeOf(m, order) && s.Valid() && |s.hs| == |order|
    requires SmallUnits(us, s) && |us| > 0 && GoodUnits(us, |order|) && Inside(planes, m)
    requires t <= |bs| <= Product(s.Count(), |us|)
    ensures Inside(Store(planes, s, order, us, bs, t), m)
    decreases t
  {
    hide ShapeOf, GoodImage, InPlane, PlaceIn, Product, Shape.Count, SmallUnits;
    if t > 0 {
      StoreIsInside(planes, m, order, s, us, bs, t - 1);
      PlaceIsInside(m, order, s, us, t - 1);
    }
  }

  // ----- any file -----

  lemma ScanIsInside(d: seq<Byte>, p: nat, t: M.Tables, m: F.Image, planes: seq<Plane>)
    requires GoodImage(m) && Inside(planes, m)
    ensures var r := DecodeScan(d, p, t, m, planes); r.Placed? ==> Inside(r.planes, m)
  {
    hide Inside, ShapeOf, GoodImage, Shape.UnitsFrom, M.ScanAt, M.ScanReadable, Defined, HuffCode.Safe, CompsOf, ScanFrom, LastStart, NextMarker, Store, Kinds, Effective, GoodUnits, Shape.Count;
    Sized(planes, m);
    if DecodeScan(d, p, t, m, planes).Placed? {
      M.ScanIsGood(d, p, Ids(m), false);
      var order := Effective(M.ScanAt(d, p, Ids(m), false).order);
      ShapeIsValid(m, order);
      var s := ShapeOf(m, order);
      var us := s.UnitsFrom(0);
      var cs, start := CompsOf(t, m, order), M.Adv(d, p, 6 + 2 * |order|);
      KindsInRange(us, order);
      BlockCount(cs, Kinds(us, order), t.restart, d, start, 0, Zeroes(|cs|), Todo(t.restart), s.Count());
      UnitsAreSmall(s, 0);
      var bs := BlocksOf(d, start, cs, Kinds(us, order), t.restart, s).blocks;
      StoreIsInside(planes, m, order, s, us, bs, |bs|);
    }
  }

  lemma Sized(planes: seq<Plane>, m: F.Image)
    requires GoodImage(m) && Inside(planes, m)
    ensures |planes| == |m.planes|
  {
  }

  lemma PassIsInside(d: seq<Byte>, p: nat, t: M.Tables, m: F.Image, mem: Memory, planes: seq<Plane>)
    requires GoodImage(m) && Inside(planes, m)
    ensures var r := DecodePass(d, p, t, m, mem, planes); r.Placed? ==> Inside(r.planes, m)
  {
    hide Inside, ShapeOf, GoodImage, Shape.UnitsFrom, M.ScanAt, M.ScanReadable, RunPass, NextMarker, Store, Kinds, Effective, GoodUnits, Shape.Count,
         TablesThere, Product, Fetch;
    Sized(planes, m);
    if DecodePass(d, p, t, m, mem, planes).Placed? {
      M.ScanIsGood(d, p, Ids(m), true);
      var scan := M.ScanAt(d, p, Ids(m), true);
      var order := Effective(scan.order);
      ShapeIsValid(m, order);
      var s := ShapeOf(m, order);
      var us := s.UnitsFrom(0);
      KindsInRange(us, order);
      UnitsAreSmall(s, 0);
      var blocks := Fetched(planes, mem, s, order, us, Product(s.Count(), |us|));
      var bs := RunPass(d, M.Adv(d, p, 6 + 2 * |order|), t, scan, order, Kinds(us, order), blocks).blocks;
      StoreIsInside(planes, m, order, s, us, bs, |bs|);
    }
  }

  /** The blocks that are transformed at the end lie inside their planes. */
  lemma FinishIsInside(planes: seq<Plane>, mem: Memory, m: F.Image, t: M.Tables)
    requires GoodImage(m) && M.Shaped(t) && |planes| == |m.planes|
    ensures Inside(FinishedPlanes(planes, mem, m, t), m)
  {
    hide F.MaxH, F.MaxV, M.Shaped, Scaled, Fetch;
    forall i, cx, cy | 0 <= i < |planes| && (cx, cy) in FinishedPlanes(planes, mem, m, t)[i]
      ensures InPlane(m, i, cx, cy)
    {
      OwnBlocksFit(AxisX(m, i));
      OwnBlocksFit(AxisY(m, i));
    }
  }

  lemma NextIsInside(mode: Mode, d: seq<Byte>, p: nat, t: M.Tables, m: F.Image, planes: seq<Plane>)
    requires GoodImage(m) && Inside(planes, m)
    ensures var r := NextScan(mode, d, p, t, m, planes); r.Placed? ==> Inside(r.planes, m)
  {
    hide Inside, GoodImage, DecodeScan, DecodePass;
    Sized(planes, m);
    match mode {
      case Sequential => ScanIsInside(d, p, t, m, planes);
      case Progressive(mem) => PassIsInside(d, p, t, m, mem, planes);
    }
  }

  lemma EndIsInside(mode: Mode, t: M.Tables, m: F.Image, planes: seq<Plane>)
    requires GoodImage(m) && M.Shaped(t) && Inside(planes, m)
    ensures Inside(AtEnd(mode, t, m, planes), m) && Inside(AtRefusal(mode, planes), m)
  {
    hide GoodImage, M.Shaped, FinishedPlanes, InPlane;
    if mode.Progressive? {
      FinishIsInside(planes, mode.mem, m, t);
    }
  }

  lemma {:induction false} ScansAreInside(d: seq<Byte>, p: nat, mark: Byte, t: M.Tables, m: F.Image, mode: Mode, planes: seq<Plane>)
    requires M.Shaped(t) && GoodImage(m) && |planes| == |m.planes| && Inside(planes, m)
    ensures var r := ScansFrom(d, p, mark, t, m, mode, planes); r.Picture? ==> Inside(r.planes, m)
    decreases |d| - p
  {
    hide Inside, GoodImage, M.Shaped, NextScan, M.Process, M.MarkerAt;
    EndIsInside(mode, t, m, planes);
    if mark == 0xd9 {
    } else if mark == 0xda {
      NextIsInside(mode, d, p, t, m, planes);
      var r := NextScan(mode, d, p, t, m, planes);
      if r.Placed? {
        ScansAreInside(d, r.pos, r.mark, t, m, mode, r.planes);
      }
    } else if mark == 0xdc {
      if M.Word(d, p) == 4 && M.Word(d, p + 2) == m.y {
        var (next, pos) := M.MarkerAt(d, M.Adv(d, p, 4));
        ScansAreInside(d, pos, next, t, m, mode, planes);
      }
    } else {
      var s := M.Process(d, p, mark, t);
      if s.Done? {
        M.SegmentIsFramed(d, p, mark, t);
        var (next, pos) := M.MarkerAt(d, s.pos);
        ScansAreInside(d, pos, next, s.tables, m, mode, planes);
      }
    }
  }

  /** The image that the frame header of a file describes, where there is one. */
  ghost function ImageOf(d: seq<Byte>): F.Image
  {
    var (soi, p) := M.MarkerAt(d, 0);
    var (first, q) := M.MarkerAt(d, p);
    var h := M.HeaderFrom(d, q, first, M.NoTables());
    if h.NoFrame? then F.Image(0, 0, []) else F.ImageAt(d, h.pos)
  }

  /** Whatever the bytes of a file: every block that decoding stores lies inside the
      plane of its component. */
  lemma FileIsInside(d: seq<Byte>, mem: Memory)
    requires DecodeFile(d, mem).Picture?
    ensures GoodImage(ImageOf(d)) && Inside(DecodeFile(d, mem).planes, ImageOf(d))
  {
    hide M.HeaderFrom, M.MarkerAt, F.FrameReadable, F.ImageAt, ScansFrom, GoodImage, InPlane;
    var (soi, p) := M.MarkerAt(d, 0);
    var (first, q) := M.MarkerAt(d, p);
    var h := M.HeaderFrom(d, q, first, M.NoTables());
    AcceptedIsGood(d, h.pos);
    var m := ImageOf(d);
    var (mark, pos) := M.MarkerAt(d, M.Adv(d, h.pos, 8 + 3 * |m.planes|));
    ScansAreInside(d, pos, mark, h.tables, m, if h.kind == 0xc2 then Progressive(mem) else Sequential, NoBlocks(|m.planes|));
  }
}
