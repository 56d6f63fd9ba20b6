/** Sizes of components and planes, and the order in which a scan visits their
    blocks (sections A.1 and A.2 of T.81). */
module Geometry {

  // ----- arithmetic of quotients -----

  /** Smallest q with q * d >= n. */
  function CeilDiv(n: nat, d: nat): nat
    requires d > 0
  {
    (n + d - 1) / d
  }

  function Quot(n: nat, d: nat): nat
    requires d > 0
  {
    n / d
  }

  function Rem(n: nat, d: nat): (r: nat)
    requires d > 0
    ensures r < d
  {
    n % d
  }

  lemma QuotRem(q: nat, d: nat, r: nat)
    requires r < d
    ensures (q * d + r) / d == q && (q * d + r) % d == r
    ensures Quot(q * d + r, d) == q && Rem(q * d + r, d) == r
  {
    var n := q * d + r;
    assert n == (n / d) * d + n % d;
    if n / d < q {
      MulMono(n / d + 1, q, d);
    } else if q < n / d {
      MulMono(q + 1, n / d, d);
    }
  }

  lemma MulMono(a: int, b: int, d: nat)
    requires a <= b
    ensures a * d <= b * d
    ensures (a + 1) * d == a * d + d && (a - 1) * d == a * d - d
  {
  }

  lemma DivSplit(n: nat, d: nat)
    requires d > 0
    ensures n == (n / d) * d + n % d && n % d < d
  {
  }

  lemma CeilDivIsLeast(n: nat, d: nat, q: nat)
    requires d > 0
    ensures CeilDiv(n, d) <= q <==> n <= q * d
  {
    var c := CeilDiv(n, d);
    DivSplit(n + d - 1, d);
    assert c * d + (n + d - 1) % d == n + d - 1;
    if c <= q {
      MulMono(c, q, d);
    } else {
      MulMono(q + 1, c, d);
      MulMono(q, q, d);
    }
  }

  // ----- sizes (stbi__process_frame_header) -----

  /** One axis of a component: image size, sampling factor and largest factor. */
  datatype Axis = Axis(size: nat, factor: nat, top: nat) {
    predicate Valid()
    {
      1 <= factor <= top <= 4 && top % factor == 0 && size >= 1
    }

    /** Number of MCUs along the axis. */
    function Mcus(): nat
      requires Valid()
    {
      (size + top * 8 - 1) / (top * 8)
    }

    /** Samples of the component along the axis. */
    function Samples(): nat
      requires Valid()
    {
      (size * factor + top - 1) / top
    }

    /** Extent of the allocated plane, in samples. */
    function Extent(): nat
      requires Valid()
    {
      Mcus() * factor * 8
    }

    /** Blocks that a scan of this component alone visits. */
    function OwnBlocks(): nat
      requires Valid()
    {
      (Samples() + 7) / 8
    }
  }

  lemma Commute(a: nat, b: nat, c: nat)
    ensures a * (b * 8) * c == (a * c * 8) * b
  {
    assert a * (b * 8) * c == a * b * 8 * c;
    assert a * b * 8 * c == (a * c * 8) * b;
  }

  /** ceil(ceil(X*h/H)/8) <= h * ceil(X/(8H)): the blocks of a non-interleaved
      scan lie inside the plane that interleaved MCUs need. */
  lemma OwnBlocksFit(a: Axis)
    requires a.Valid()
    ensures a.OwnBlocks() <= a.Extent() / 8 == a.Mcus() * a.factor
    ensures a.Samples() <= a.Extent()
  {
    var m := a.Mcus();
    CeilDivIsLeast(a.size, a.top * 8, m);
    assert a.size <= m * (a.top * 8);
    MulMono(a.size, m * (a.top * 8), a.factor);
    Commute(m, a.top, a.factor);
    assert a.size * a.factor <= (m * a.factor * 8) * a.top;
    CeilDivIsLeast(a.size * a.factor, a.top, m * a.factor * 8);
    assert a.Samples() == CeilDiv(a.size * a.factor, a.top);
    CeilDivIsLeast(a.Samples(), 8, m * a.factor);
  }

  /** Each size is the least that suffices: MCUs for the image, samples for the
      image at the component's share, own blocks for those samples, and no MCU more
      than the image needs for the plane. */
  lemma SizesAreLeast(a: Axis, n: nat)
    requires a.Valid()
    ensures a.Mcus() <= n <==> a.size <= n * (a.top * 8)
    ensures a.Samples() <= n <==> a.size * a.factor <= n * a.top
    ensures a.OwnBlocks() <= n <==> a.size * a.factor <= n * 8 * a.top
    ensures a.Extent() == 8 * a.factor * a.Mcus()
  {
    CeilDivIsLeast(a.size, a.top * 8, n);
    CeilDivIsLeast(a.size * a.factor, a.top, n);
    CeilDivIsLeast(a.Samples(), 8, n);
    CeilDivIsLeast(a.size * a.factor, a.top, n * 8);
    assert a.Samples() == CeilDiv(a.size * a.factor, a.top);
  }

  /** Upsampling by top/factor never needs more than three extra columns. */
  lemma LineBufferFits(a: Axis)
    requires a.Valid()
    ensures var hs := a.top / a.factor;
            1 <= hs <= 4 && CeilDiv(a.size, hs) * hs <= a.size + 3 && CeilDiv(a.size, hs) == a.Samples()
  {
    var hs := a.top / a.factor;
    DivSplit(a.top, a.factor);
    assert hs * a.factor == a.top;
    assert hs >= 1;
    MulMono(1, a.factor, hs);
    DivSplit(a.size + hs - 1, hs);
    // ceil(size * factor / (hs * factor)) == ceil(size / hs)
    SameCeil(a.size, hs, a.factor);
  }

  lemma SameCeil(n: nat, d: nat, f: nat)
    requires d > 0 && f > 0 && d * f > 0
    ensures CeilDiv(n * f, d * f) == CeilDiv(n, d)
  {
    var p, q := CeilDiv(n * f, d * f), CeilDiv(n, d);
    CeilDivIsLeast(n, d, q);
    CeilDivIsLeast(n * f, d * f, q);
    MulMono(n, q * d, f);
    assert q * d * f == q * (d * f);
    CeilDivIsLeast(n * f, d * f, p);
    CeilDivIsLeast(n, d, p);
    assert n * f <= p * (d * f);
    assert p * (d * f) == p * d * f;
    if n > p * d {
      MulMono(p * d + 1, n, f);
      MulMono(p * d, p * d, f);
    }
  }

  // ----- the order of an interleaved scan -----

  /** MCUs of the image and blocks of one component in each of them. */
  datatype Grid = Grid(mx: nat, my: nat, h: nat, v: nat) {
    predicate Valid()
    {
      mx >= 1 && my >= 1 && h >= 1 && v >= 1
    }

    /** How many blocks of the component come before block (x, y) of MCU (i, j). */
    function Rank(j: nat, i: nat, y: nat, x: nat): nat
    {
      ((j * mx + i) * v + y) * h + x
    }

    function Total(): nat
    {
      my * mx * v * h
    }

    function Columns(): nat { mx * h }

    function Rows(): nat { my * v }

    /** Where the block of rank t goes, in blocks. */
    function Place(t: nat): (nat, nat)
      requires Valid()
    {
      var row := Quot(t, h);
      var mcu := Quot(row, v);
      (Rem(mcu, mx) * h + Rem(t, h), Quot(mcu, mx) * v + Rem(row, v))
    }

    /** The rank of the block at a place. */
    function RankOf(cx: nat, cy: nat): nat
      requires Valid()
    {
      Rank(cy / v, cx / h, cy % v, cx % h)
    }
  }

  lemma RankPlaces(g: Grid, j: nat, i: nat, y: nat, x: nat)
    requires g.Valid() && i < g.mx && y < g.v && x < g.h
    ensures g.Place(g.Rank(j, i, y, x)) == (i * g.h + x, j * g.v + y)
  {
    hide Quot, Rem, Grid.Place;
    var mcu := j * g.mx + i;
    var row := mcu * g.v + y;
    QuotRem(row, g.h, x);
    QuotRem(mcu, g.v, y);
    QuotRem(j, g.mx, i);
    PlaceFrom(g, g.Rank(j, i, y, x), row, mcu, j, i, y, x);
  }

  lemma PlaceFrom(g: Grid, t: nat, row: nat, mcu: nat, j: nat, i: nat, y: nat, x: nat)
    requires g.Valid() && Quot(t, g.h) == row && Rem(t, g.h) == x
    requires Quot(row, g.v) == mcu && Rem(row, g.v) == y && Quot(mcu, g.mx) == j && Rem(mcu, g.mx) == i
    ensures g.Place(t) == (i * g.h + x, j * g.v + y)
  {
    hide Quot, Rem;
  }

  /** Rank and place are inverse: the scan visits every block of the component
      inside the plane exactly once and no other. */
  lemma VisitsEveryBlockOnce(g: Grid, t: nat, cx: nat, cy: nat)
    requires g.Valid()
    ensures t < g.Total() ==> g.Place(t).0 < g.Columns() && g.Place(t).1 < g.Rows() && g.RankOf(g.Place(t).0, g.Place(t).1) == t
    ensures cx < g.Columns() && cy < g.Rows() ==> g.RankOf(cx, cy) < g.Total() && g.Place(g.RankOf(cx, cy)) == (cx, cy)
  {
    hide Grid.Place, Grid.RankOf, Grid.Total, Grid.Columns, Grid.Rows;
    if t < g.Total() {
      PlaceInside(g, t);
    }
    if cx < g.Columns() && cy < g.Rows() {
      BlockIsVisited(g, cx, cy);
    }
  }

  lemma BlockIsVisited(g: Grid, cx: nat, cy: nat)
    requires g.Valid() && cx < g.Columns() && cy < g.Rows()
    ensures g.RankOf(cx, cy) < g.Total() && g.Place(g.RankOf(cx, cy)) == (cx, cy)
  {
    hide Grid.Place, Grid.Rank, Grid.Total;
    var j, i, y, x := cy / g.v, cx / g.h, cy % g.v, cx % g.h;
    DivSplit(cx, g.h);
    DivSplit(cy, g.v);
    Less(i, x, g.h, g.mx);
    Less(j, y, g.v, g.my);
    RankPlaces(g, j, i, y, x);
    RankBound(g, j, i, y, x);
  }

  /** q * d + r < n * d with r < d forces q < n. */
  lemma Less(q: nat, r: nat, d: nat, n: nat)
    requires q * d + r < n * d && r < d
    ensures q < n
  {
    if q >= n {
      MulMono(n, q, d);
    }
  }

  lemma RankBound(g: Grid, j: nat, i: nat, y: nat, x: nat)
    requires g.Valid() && j < g.my && i < g.mx && y < g.v && x < g.h
    ensures g.Rank(j, i, y, x) < g.Total()
  {
    Nest(j, i, g.mx, g.my);
    Nest(j * g.mx + i, y, g.v, g.my * g.mx);
    Nest((j * g.mx + i) * g.v + y, x, g.h, g.my * g.mx * g.v);
  }

  lemma Nest(q: nat, r: nat, d: nat, n: nat)
    requires q < n && r < d
    ensures q * d + r < n * d
  {
    MulMono(q + 1, n, d);
    MulMono(q, q, d);
  }

  lemma PlaceInside(g: Grid, t: nat)
    requires g.Valid() && t < g.Total()
    ensures g.Place(t).0 < g.Columns() && g.Place(t).1 < g.Rows()
    ensures g.RankOf(g.Place(t).0, g.Place(t).1) == t
  {
    var row := t / g.h;
    var mcu := row / g.v;
    DivSplit(t, g.h);
    DivSplit(row, g.v);
    DivSplit(mcu, g.mx);
    var x, y, i, j := t % g.h, row % g.v, mcu % g.mx, mcu / g.mx;
    Less(row, x, g.h, g.my * g.mx * g.v);
    Less(mcu, y, g.v, g.my * g.mx);
    Less(j, i, g.mx, g.my);
    Nest(i, x, g.h, g.mx);
    Nest(j, y, g.v, g.my);
    QuotRem(i, g.h, x);
    QuotRem(j, g.v, y);
  }

  /** The four nested loops of an interleaved scan, for one component: the
      places of its blocks in the order they are decoded. */
  method InterleavedOrder(g: Grid) returns (order: seq<(nat, nat)>)
    requires g.Valid()
    ensures |order| == g.Total()
    ensures forall t :: 0 <= t < |order| ==> order[t] == g.Place(t)
  {
    hide Grid.Place;
    order := [];
    assert g.Rank(0, 0, 0, 0) == 0;
    for j := 0 to g.my
      invariant |order| == g.Rank(j, 0, 0, 0)
      invariant forall t :: 0 <= t < |order| ==> order[t] == g.Place(t)
    {
      for i := 0 to g.mx
        invariant |order| == g.Rank(j, i, 0, 0)
        invariant forall t :: 0 <= t < |order| ==> order[t] == g.Place(t)
      {
        order := McuOrder(g, j, i, order);
      }
      RankCarry(j * g.mx, g.mx, g.v, g.h);
      assert (j + 1) * g.mx == j * g.mx + g.mx;
    }
  }

  lemma RankCarry(a: nat, b: nat, v: nat, h: nat)
    ensures ((a + b) * v + 0) * h == (a + b) * v * h
  {
  }

  method McuOrder(g: Grid, j: nat, i: nat, before: seq<(nat, nat)>) returns (order: seq<(nat, nat)>)
    requires g.Valid() && i < g.mx && |before| == g.Rank(j, i, 0, 0)
    requires forall t :: 0 <= t < |before| ==> before[t] == g.Place(t)
    ensures |order| == g.Rank(j, i + 1, 0, 0)
    ensures forall t :: 0 <= t < |order| ==> order[t] == g.Place(t)
  {
    hide Grid.Place, Grid.Rank;
    order := before;
    for y := 0 to g.v
      invariant |order| == g.Rank(j, i, y, 0)
      invariant forall t :: 0 <= t < |order| ==> order[t] == g.Place(t)
    {
      for x := 0 to g.h
        invariant |order| == g.Rank(j, i, y, x)
        invariant forall t :: 0 <= t < |order| ==> order[t] == g.Place(t)
      {
        RankPlaces(g, j, i, y, x);
        RankNext(g, j, i, y, x);
        order := order + [(i * g.h + x, j * g.v + y)];
      }
      RankRow(g, j, i, y);
    }
    RankMcu(g, j, i);
  }

  lemma RankNext(g: Grid, j: nat, i: nat, y: nat, x: nat)
    ensures g.Rank(j, i, y, x + 1) == g.Rank(j, i, y, x) + 1
  {
  }

  lemma RankRow(g: Grid, j: nat, i: nat, y: nat)
    ensures g.Rank(j, i, y, g.h) == g.Rank(j, i, y + 1, 0)
  {
    var m := (j * g.mx + i) * g.v;
    MulMono(m + y, m + y, g.h);
  }

  lemma RankMcu(g: Grid, j: nat, i: nat)
    ensures g.Rank(j, i, g.v, 0) == g.Rank(j, i + 1, 0, 0)
  {
    MulMono(j * g.mx + i, j * g.mx + i, g.v);
  }

  // ----- bytes of a plane -----

  /** Byte offset of sample (c, r) of block (cx, cy) in a plane w2 wide. */
  function Offset(w2: nat, cx: nat, cy: nat, r: nat, c: nat): nat
  {
    w2 * (cy * 8) + cx * 8 + r * w2 + c
  }

  /** Every sample of every block lies inside the plane, and its offset determines
      block, row and column. */
  lemma PlaneIsTiled(cols: nat, rows: nat, cx: nat, cy: nat, r: nat, c: nat)
    requires cx < cols && cy < rows && r < 8 && c < 8
    ensures var w2, o := cols * 8, Offset(cols * 8, cx, cy, r, c);
            && o < w2 * (rows * 8)
            && o / w2 == cy * 8 + r && o % w2 == cx * 8 + c
            && (o / w2) / 8 == cy && (o / w2) % 8 == r && (o % w2) / 8 == cx && (o % w2) % 8 == c
  {
    var w2 := cols * 8;
    OffsetIs(w2, cx, cy, r, c);
    OffsetSplits(w2, rows * 8, cy * 8 + r, cx * 8 + c);
    QuotRem(cy, 8, r);
    QuotRem(cx, 8, c);
  }

  lemma OffsetIs(w2: nat, cx: nat, cy: nat, r: nat, c: nat)
    ensures Offset(w2, cx, cy, r, c) == (cy * 8 + r) * w2 + (cx * 8 + c)
  {
    assert (cy * 8 + r) * w2 == (cy * 8) * w2 + r * w2;
  }

  lemma OffsetSplits(w2: nat, h2: nat, row: nat, col: nat)
    requires row < h2 && col < w2
    ensures row * w2 + col < w2 * h2 && (row * w2 + col) / w2 == row && (row * w2 + col) % w2 == col
  {
    QuotRem(row, w2, col);
    Nest(row, col, w2, h2);
  }

  /** Every byte of the plane belongs to a sample of a block. */
  lemma EveryByteIsASample(cols: nat, rows: nat, o: nat) returns (cx: nat, cy: nat, r: nat, c: nat)
    requires o < (cols * 8) * (rows * 8)
    ensures cx < cols && cy < rows && r < 8 && c < 8 && Offset(cols * 8, cx, cy, r, c) == o
  {
    hide Offset;
    var row, col := RowAndColumn(cols * 8, rows * 8, o);
    cx, cy, r, c := col / 8, row / 8, row % 8, col % 8;
    OffsetOfSample(cols * 8, row, col);
  }

  lemma RowAndColumn(w: nat, h: nat, o: nat) returns (row: nat, col: nat)
    requires o < w * h
    ensures row < h && col < w && row * w + col == o
  {
    Nonempty(w, h, o);
    row, col := o / w, o % w;
    DivSplit(o, w);
    assert w * h == h * w;
    Less(row, col, w, h);
  }

  lemma Nonempty(w: nat, h: nat, o: nat)
    requires o < w * h
    ensures w > 0
  {
  }

  lemma OffsetOfSample(w2: nat, row: nat, col: nat)
    ensures Offset(w2, col / 8, row / 8, row % 8, col % 8) == row * w2 + col
  {
    var cy, r := row / 8, row % 8;
    assert row == cy * 8 + r;
    assert row * w2 == (cy * 8) * w2 + r * w2;
  }
}
