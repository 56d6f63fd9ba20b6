/** The integer inverse DCT: the decoder's butterflies against the plain
    matrix product they stand for, and the range of their 32-bit arithmetic. */
module Idct {
  import opened Zigzag
  import opened Machine

  /** C int: the verifier checks that every operation stays in range. */
  newtype int32 = x: int | -0x8000_0000 <= x < 0x8000_0000

  /** Coefficients up to this magnitude keep every intermediate in range. */
  const LIMIT: int := 2328

  /** Largest result of the column pass for such coefficients. */
  const MIDDLE: int := 69590

  // ----- the transform as a matrix -----

  /** Row k of the 8-point transform, in units of 1/4096. */
  function Dot(k: nat, s: seq<int>): int
    requires k < 8 && |s| == 8
  {
    match k
    case 0 => 4096 * s[0] + 5683 * s[1] + 5352 * s[2] + 4816 * s[3] + 4096 * s[4] + 3219 * s[5] + 2217 * s[6] + 1131 * s[7]
    case 1 => 4096 * s[0] + 4816 * s[1] + 2217 * s[2] - 1129 * s[3] - 4096 * s[4] - 5681 * s[5] - 5350 * s[6] - 3218 * s[7]
    case 2 => 4096 * s[0] + 3219 * s[1] - 2217 * s[2] - 5681 * s[3] - 4096 * s[4] + 1132 * s[5] + 5350 * s[6] + 4816 * s[7]
    case 3 => 4096 * s[0] + 1131 * s[1] - 5352 * s[2] - 3218 * s[3] + 4096 * s[4] + 4816 * s[5] - 2217 * s[6] - 5680 * s[7]
    case 4 => 4096 * s[0] - 1131 * s[1] - 5352 * s[2] + 3218 * s[3] + 4096 * s[4] - 4816 * s[5] - 2217 * s[6] + 5680 * s[7]
    case 5 => 4096 * s[0] - 3219 * s[1] - 2217 * s[2] + 5681 * s[3] - 4096 * s[4] - 1132 * s[5] + 5350 * s[6] - 4816 * s[7]
    case 6 => 4096 * s[0] - 4816 * s[1] + 2217 * s[2] + 1129 * s[3] - 4096 * s[4] + 5681 * s[5] - 5350 * s[6] + 3218 * s[7]
    case _ => 4096 * s[0] - 5683 * s[1] + 5352 * s[2] - 4816 * s[3] + 4096 * s[4] - 3219 * s[5] + 2217 * s[6] - 1131 * s[7]
  }

  function ColumnOf(d: Cells, c: nat): (r: seq<int>)
    requires c < 8
    ensures |r| == 8
  {
    [d[c], d[8 + c], d[16 + c], d[24 + c], d[32 + c], d[40 + c], d[48 + c], d[56 + c]]
  }

  /** Column pass: two extra bits of precision, rounded. */
  function Middle(d: Cells, r: nat, c: nat): int
    requires r < 8 && c < 8
  {
    (Dot(r, ColumnOf(d, c)) + 512) / 1024
  }

  function MiddleRow(d: Cells, r: nat): (s: seq<int>)
    requires r < 8
    ensures |s| == 8
    ensures forall c :: 0 <= c < 8 ==> s[c] == Middle(d, r, c)
  {
    [Middle(d, r, 0), Middle(d, r, 1), Middle(d, r, 2), Middle(d, r, 3), Middle(d, r, 4), Middle(d, r, 5), Middle(d, r, 6), Middle(d, r, 7)]
  }

  function Clamp(x: int): (r: int)
    ensures 0 <= r <= 255
    ensures 0 <= x <= 255 ==> r == x
    ensures x < 0 ==> r == 0
    ensures x > 255 ==> r == 255
  {
    if x < 0 then 0 else if x > 255 then 255 else x
  }

  /** Bias by 128 with rounding, shift and clamp. */
  function Pixel(d: int): int
  {
    Clamp((d + 65536 + 16777216) / 131072)
  }

  /** Sample (r, c) of the block: both passes by matrix product. */
  function Sample(d: Cells, r: nat, c: nat): int
    requires r < 8 && c < 8
  {
    Pixel(Dot(c, MiddleRow(d, r)))
  }

  // ----- the butterflies -----

  ghost predicate Within(s: int32, b: int)
  {
    -b <= s as int <= b
  }

  /** Even part of STBI__IDCT_1D. */
  method EvenPart(s0: int32, s2: int32, s4: int32, s6: int32) returns (x0: int32, x1: int32, x2: int32, x3: int32)
    requires Within(s0, MIDDLE) && Within(s2, MIDDLE) && Within(s4, MIDDLE) && Within(s6, MIDDLE)
    ensures x0 as int == 4096 * s0 as int + 5352 * s2 as int + 4096 * s4 as int + 2217 * s6 as int
    ensures x1 as int == 4096 * s0 as int + 2217 * s2 as int - 4096 * s4 as int - 5350 * s6 as int
    ensures x2 as int == 4096 * s0 as int - 2217 * s2 as int - 4096 * s4 as int + 5350 * s6 as int
    ensures x3 as int == 4096 * s0 as int - 5352 * s2 as int + 4096 * s4 as int - 2217 * s6 as int
  {
    var p2, p3 := s2, s6;
    var p1 := (p2 + p3) * 2217;
    var t2 := p1 + p3 * -7567;
    var t3 := p1 + p2 * 3135;
    p2, p3 := s0, s4;
    var t0 := (p2 + p3) * 4096;
    var t1 := (p2 - p3) * 4096;
    x0 := t0 + t3;
    x3 := t0 - t3;
    x1 := t1 + t2;
    x2 := t1 - t2;
  }

  /** Odd part of STBI__IDCT_1D. */
  method OddPart(s1: int32, s3: int32, s5: int32, s7: int32) returns (t0: int32, t1: int32, t2: int32, t3: int32)
    requires Within(s1, MIDDLE) && Within(s3, MIDDLE) && Within(s5, MIDDLE) && Within(s7, MIDDLE)
    ensures t3 as int == 5683 * s1 as int + 4816 * s3 as int + 3219 * s5 as int + 1131 * s7 as int
    ensures t2 as int == 4816 * s1 as int - 1129 * s3 as int - 5681 * s5 as int - 3218 * s7 as int
    ensures t1 as int == 3219 * s1 as int - 5681 * s3 as int + 1132 * s5 as int + 4816 * s7 as int
    ensures t0 as int == 1131 * s1 as int - 3218 * s3 as int + 4816 * s5 as int - 5680 * s7 as int
  {
    t0, t1, t2, t3 := s7, s5, s3, s1;
    var p3 := t0 + t2;
    var p4 := t1 + t3;
    var p1 := t0 + t3;
    var p2 := t1 + t2;
    var p5 := (p3 + p4) * 4816;
    t0 := t0 * 1223;
    t1 := t1 * 8410;
    t2 := t2 * 12586;
    t3 := t3 * 6149;
    p1 := p5 + p1 * -3685;
    p2 := p5 + p2 * -10497;
    p3 := p3 * -8034;
    p4 := p4 * -1597;
    t3 := t3 + (p1 + p4);
    t2 := t2 + (p2 + p3);
    t1 := t1 + (p2 + p4);
    t0 := t0 + (p1 + p3);
  }

  ghost predicate Bounded(d: Cells)
  {
    forall i :: 0 <= i < 64 ==> -LIMIT <= d[i] <= LIMIT
  }

  ghost predicate Small(s: seq<int>, b: int)
  {
    |s| == 8 && forall i :: 0 <= i < 8 ==> -b <= s[i] <= b
  }

  /** Both halves: their sums and differences are the rows of the matrix. */
  method Butterfly(s: seq<int>)
    returns (x0: int32, x1: int32, x2: int32, x3: int32, t0: int32, t1: int32, t2: int32, t3: int32)
    requires Small(s, MIDDLE)
    ensures Within(x0, 1_100_000_000) && Within(x1, 1_100_000_000) && Within(x2, 1_100_000_000) && Within(x3, 1_100_000_000)
    ensures x0 as int + t3 as int == Dot(0, s) && x0 as int - t3 as int == Dot(7, s)
    ensures x1 as int + t2 as int == Dot(1, s) && x1 as int - t2 as int == Dot(6, s)
    ensures x2 as int + t1 as int == Dot(2, s) && x2 as int - t1 as int == Dot(5, s)
    ensures x3 as int + t0 as int == Dot(3, s) && x3 as int - t0 as int == Dot(4, s)
  {
    x0, x1, x2, x3 := EvenPart(s[0] as int32, s[2] as int32, s[4] as int32, s[6] as int32);
    t0, t1, t2, t3 := OddPart(s[1] as int32, s[3] as int32, s[5] as int32, s[7] as int32);
  }

  lemma DotBound(k: nat, s: seq<int>, b: nat)
    requires k < 8 && Small(s, b)
    ensures -30610 * b <= Dot(k, s) <= 30610 * b
  {
  }

  lemma DotBounds(s: seq<int>, b: nat)
    requires Small(s, b)
    ensures forall k :: 0 <= k < 8 ==> -30610 * b <= Dot(k, s) <= 30610 * b
  {
    hide Dot;
    forall k | 0 <= k < 8 ensures -30610 * b <= Dot(k, s) <= 30610 * b {
      DotBound(k, s, b);
    }
  }

  /** One column: the shortcut for a constant column, else the butterflies. */
  method Column(s: seq<int>) returns (v: seq<int>)
    requires Small(s, LIMIT)
    ensures Small(v, MIDDLE)
    ensures forall k :: 0 <= k < 8 ==> v[k] == (Dot(k, s) + 512) / 1024
  {
    hide Dot;
    if s[1] == 0 && s[2] == 0 && s[3] == 0 && s[4] == 0 && s[5] == 0 && s[6] == 0 && s[7] == 0 {
      var dcterm := s[0] as int32 * 4;
      var c := dcterm as int;
      ConstantColumn(s);
      v := [c, c, c, c, c, c, c, c];
    } else {
      var x0, x1, x2, x3, t0, t1, t2, t3 := Butterfly(s);
      DotBounds(s, LIMIT);
      x0 := x0 + 512;
      x1 := x1 + 512;
      x2 := x2 + 512;
      x3 := x3 + 512;
      v := [((x0 + t3) / 1024) as int, ((x1 + t2) / 1024) as int, ((x2 + t1) / 1024) as int, ((x3 + t0) / 1024) as int,
            ((x3 - t0) / 1024) as int, ((x2 - t1) / 1024) as int, ((x1 - t2) / 1024) as int, ((x0 - t3) / 1024) as int];
    }
  }

  /** The shortcut is what the full transform gives for a constant column. */
  lemma ConstantColumn(s: seq<int>)
    requires |s| == 8 && forall i :: 1 <= i < 8 ==> s[i] == 0
    ensures forall k :: 0 <= k < 8 ==> Dot(k, s) == 4096 * s[0] && (Dot(k, s) + 512) / 1024 == 4 * s[0]
  {
    forall k | 0 <= k < 8 ensures Dot(k, s) == 4096 * s[0] {
    }
    assert (4096 * s[0] + 512) / 1024 == 4 * s[0];
  }

  method Finish(sum: int32, ghost d: int) returns (p: int)
    requires sum as int == d + 65536 + 16777216
    ensures p == Pixel(d)
  {
    p := Clamp((sum / 131072) as int);
  }

  /** One row of samples. */
  method Row(s: seq<int>) returns (o: seq<int>)
    requires Small(s, MIDDLE)
    ensures |o| == 8
    ensures forall c :: 0 <= c < 8 ==> o[c] == Pixel(Dot(c, s))
  {
    hide Dot, Pixel;
    var x0, x1, x2, x3, t0, t1, t2, t3 := Butterfly(s);
    DotBounds(s, MIDDLE);
    x0 := x0 + (65536 + 16777216);
    x1 := x1 + (65536 + 16777216);
    x2 := x2 + (65536 + 16777216);
    x3 := x3 + (65536 + 16777216);
    var o0 := Finish(x0 + t3, Dot(0, s));
    var o7 := Finish(x0 - t3, Dot(7, s));
    var o1 := Finish(x1 + t2, Dot(1, s));
    var o6 := Finish(x1 - t2, Dot(6, s));
    var o2 := Finish(x2 + t1, Dot(2, s));
    var o5 := Finish(x2 - t1, Dot(5, s));
    var o3 := Finish(x3 + t0, Dot(3, s));
    var o4 := Finish(x3 - t0, Dot(4, s));
    o := [o0, o1, o2, o3, o4, o5, o6, o7];
  }

  /** The whole block.  No 32-bit operation overflows, and the samples are
      those of the two matrix products. */
  method IdctBlock(data: array<int>) returns (o: seq<seq<int>>)
    requires data.Length == 64 && Bounded(data[..])
    ensures |o| == 8
    ensures forall r, c :: 0 <= r < 8 && 0 <= c < 8 ==> |o[r]| == 8 && o[r][c] == Sample(data[..], r, c)
  {
    hide Dot, Pixel;
    ghost var d := data[..];
    var cols: seq<seq<int>> := [];
    for i := 0 to 8
      invariant |cols| == i
      invariant forall c :: 0 <= c < i ==> Small(cols[c], MIDDLE) && forall r :: 0 <= r < 8 ==> cols[c][r] == Middle(d, r, c)
    {
      var s := [data[i], data[8 + i], data[16 + i], data[24 + i], data[32 + i], data[40 + i], data[48 + i], data[56 + i]];
      assert s == ColumnOf(d, i);
      var v := Column(s);
      cols := cols + [v];
    }
    o := [];
    for r := 0 to 8
      invariant |o| == r
      invariant forall q :: 0 <= q < r ==> |o[q]| == 8 && forall c :: 0 <= c < 8 ==> o[q][c] == Sample(d, q, c)
    {
      var s := [cols[0][r], cols[1][r], cols[2][r], cols[3][r], cols[4][r], cols[5][r], cols[6][r], cols[7][r]];
      assert s == MiddleRow(d, r);
      var row := Row(s);
      o := o + [row];
    }
  }

  // ----- what the transform means -----

  /** The range is exact: one more and the first sum of a row overflows. */
  lemma LimitIsTight()
    ensures var d: Cells := seq(64, _ => LIMIT + 1);
            Dot(0, MiddleRow(d, 0)) + 65536 + 16777216 > 0x7fff_ffff
  {
    var d: Cells := seq(64, _ => LIMIT + 1);
    assert forall c :: 0 <= c < 8 ==> Middle(d, 0, c) == 69620;
  }

  /** A block with only a DC coefficient is flat. */
  lemma DcOnlyIsFlat(d: Cells, r: nat, c: nat)
    requires r < 8 && c < 8 && forall i :: 1 <= i < 64 ==> d[i] == 0
    ensures Sample(d, r, c) == Clamp(128 + (d[0] + 4) / 8)
  {
    hide Dot, Clamp;
    forall k | 0 <= k < 8 ensures Middle(d, r, k) == if k == 0 then 4 * d[0] else 0 {
      ConstantColumn(ColumnOf(d, k));
    }
    ConstantColumn(MiddleRow(d, r));
    assert Dot(c, MiddleRow(d, r)) == 16384 * d[0];
    Round(d[0]);
  }

  lemma Round(x: int)
    ensures (16384 * x + 65536 + 16777216) / 131072 == 128 + (x + 4) / 8
  {
  }

  /** 4096 * sqrt(2) * cos(n * pi / 16) for n <= 8, rounded. */
  function Cosine(n: nat): int
  {
    match n
    case 0 => 5793 case 1 => 5681 case 2 => 5352 case 3 => 4816
    case 4 => 4096 case 5 => 3218 case 6 => 2217 case 7 => 1130
    case _ => 0
  }

  /** The same for any n below 32, by the symmetries of the cosine. */
  function Fold(n: nat): int
    requires n < 32
  {
    if n <= 8 then Cosine(n) else if n <= 16 then -Cosine(16 - n)
    else if n <= 24 then -Cosine(n - 16) else Cosine(32 - n)
  }

  /** The coefficients of the inverse DCT of section A.3.3 of T.81, scaled. */
  function Ideal(k: nat, u: nat): int
  {
    if u == 0 then 4096 else Fold(((2 * k + 1) * u) % 32)
  }

  function Unit(u: nat): (s: seq<int>)
    requires u < 8
    ensures |s| == 8 && forall i :: 0 <= i < 8 ==> s[i] == if i == u then 1 else 0
  {
    seq(8, i => if i == u then 1 else 0)
  }

  /** Every coefficient of the integer transform is within 2/4096 of the cosine that
      section A.3.3 of T.81 prescribes. */
  lemma MatrixIsDct(k: nat, u: nat)
    requires k < 8 && u < 8
    ensures -2 <= Dot(k, Unit(u)) - Ideal(k, u) <= 2
  {
    hide Unit, Ideal;
    match k {
      case 0 => Angles0(u);
      case 1 => Angles1(u);
      case 2 => Angles2(u);
      case 3 => Angles3(u);
      case 4 => Angles4(u);
      case 5 => Angles5(u);
      case 6 => Angles6(u);
      case _ => Angles7(u);
    }
  }

  /** The lower half mirrors it: reversing the output is the same as negating
      the odd coefficients. */
  lemma Mirror(k: nat, s: seq<int>)
    requires k < 8 && |s| == 8
    ensures Dot(7 - k, s) == Dot(k, [s[0], -s[1], s[2], -s[3], s[4], -s[5], s[6], -s[7]])
  {
  }

  lemma Angles0(u: nat)
    requires u < 8
    ensures Ideal(0, u) == (match u case 0 => 4096 case 1 => 5681 case 2 => 5352 case 3 => 4816 case 4 => 4096 case 5 => 3218 case 6 => 2217 case _ => 1130)
  {
    assert (1 * u) % 32 == (match u case 0 => 0 case 1 => 1 case 2 => 2 case 3 => 3 case 4 => 4 case 5 => 5 case 6 => 6 case _ => 7);
  }

  lemma Angles1(u: nat)
    requires u < 8
    ensures Ideal(1, u) == (match u case 0 => 4096 case 1 => 4816 case 2 => 2217 case 3 => -1130 case 4 => -4096 case 5 => -5681 case 6 => -5352 case _ => -3218)
  {
    assert (3 * u) % 32 == (match u case 0 => 0 case 1 => 3 case 2 => 6 case 3 => 9 case 4 => 12 case 5 => 15 case 6 => 18 case _ => 21);
  }

  lemma Angles2(u: nat)
    requires u < 8
    ensures Ideal(2, u) == (match u case 0 => 4096 case 1 => 3218 case 2 => -2217 case 3 => -5681 case 4 => -4096 case 5 => 1130 case 6 => 5352 case _ => 4816)
  {
    assert (5 * u) % 32 == (match u case 0 => 0 case 1 => 5 case 2 => 10 case 3 => 15 case 4 => 20 case 5 => 25 case 6 => 30 case _ => 3);
  }

  lemma Angles3(u: nat)
    requires u < 8
    ensures Ideal(3, u) == (match u case 0 => 4096 case 1 => 1130 case 2 => -5352 case 3 => -3218 case 4 => 4096 case 5 => 4816 case 6 => -2217 case _ => -5681)
  {
    assert (7 * u) % 32 == (match u case 0 => 0 case 1 => 7 case 2 => 14 case 3 => 21 case 4 => 28 case 5 => 3 case 6 => 10 case _ => 17);
  }

  lemma Angles4(u: nat)
    requires u < 8
    ensures Ideal(4, u) == (match u case 0 => 4096 case 1 => -1130 case 2 => -5352 case 3 => 3218 case 4 => 4096 case 5 => -4816 case 6 => -2217 case _ => 5681)
  {
    assert (9 * u) % 32 == (match u case 0 => 0 case 1 => 9 case 2 => 18 case 3 => 27 case 4 => 4 case 5 => 13 case 6 => 22 case _ => 31);
  }

  lemma Angles5(u: nat)
    requires u < 8
    ensures Ideal(5, u) == (match u case 0 => 4096 case 1 => -3218 case 2 => -2217 case 3 => 5681 case 4 => -4096 case 5 => -1130 case 6 => 5352 case _ => -4816)
  {
    assert (11 * u) % 32 == (match u case 0 => 0 case 1 => 11 case 2 => 22 case 3 => 1 case 4 => 12 case 5 => 23 case 6 => 2 case _ => 13);
  }

  lemma Angles6(u: nat)
    requires u < 8
    ensures Ideal(6, u) == (match u case 0 => 4096 case 1 => -4816 case 2 => 2217 case 3 => 1130 case 4 => -4096 case 5 => 5681 case 6 => -5352 case _ => 3218)
  {
    assert (13 * u) % 32 == (match u case 0 => 0 case 1 => 13 case 2 => 26 case 3 => 7 case 4 => 20 case 5 => 1 case 6 => 14 case _ => 27);
  }

  lemma Angles7(u: nat)
    requires u < 8
    ensures Ideal(7, u) == (match u case 0 => 4096 case 1 => -5681 case 2 => 5352 case 3 => -4816 case 4 => 4096 case 5 => -3218 case 6 => 2217 case _ => -1130)
  {
    assert (15 * u) % 32 == (match u case 0 => 0 case 1 => 15 case 2 => 30 case 3 => 13 case 4 => 28 case 5 => 11 case 6 => 26 case _ => 9);
  }

  // ----- both passes as one transform -----

  /** Coefficient (k, u) of the integer transform. */
  function Matrix(k: nat, u: nat): int
    requires k < 8 && u < 8
  {
    Dot(k, Unit(u))
  }

  /** The first n terms of the two-dimensional transform of a block: coefficient x is
      number x % 8 across and x / 8 down. */
  function Product(d: Cells, r: nat, c: nat, n: nat): int
    requires r < 8 && c < 8 && n <= 64
  {
    if n == 0 then 0 else Product(d, r, c, n - 1) + Matrix(r, (n - 1) / 8) * Matrix(c, (n - 1) % 8) * d[n - 1]
  }

  /** The same with the cosines of section A.3.3 of T.81. */
  function Dct(d: Cells, r: nat, c: nat, n: nat): int
    requires r < 8 && c < 8 && n <= 64
  {
    if n == 0 then 0 else Dct(d, r, c, n - 1) + Ideal(r, (n - 1) / 8) * Ideal(c, (n - 1) % 8) * d[n - 1]
  }

  /** The sum of the magnitudes of the first n coefficients. */
  function Weight(d: Cells, n: nat): nat
    requires n <= 64
  {
    if n == 0 then 0 else Weight(d, n - 1) + Abs(d[n - 1])
  }

  /** Eight coefficients under row k. */
  function Sum(k: nat, s: seq<int>): int
    requires k < 8 && |s| == 8
  {
    Matrix(k, 0) * s[0] + Matrix(k, 1) * s[1] + Matrix(k, 2) * s[2] + Matrix(k, 3) * s[3]
    + Matrix(k, 4) * s[4] + Matrix(k, 5) * s[5] + Matrix(k, 6) * s[6] + Matrix(k, 7) * s[7]
  }

  lemma Row0Coefficients()
    ensures Matrix(0, 0) == 4096 && Matrix(0, 1) == 5683 && Matrix(0, 2) == 5352 && Matrix(0, 3) == 4816
    ensures Matrix(0, 4) == 4096 && Matrix(0, 5) == 3219 && Matrix(0, 6) == 2217 && Matrix(0, 7) == 1131
  {
  }

  lemma Row1Coefficients()
    ensures Matrix(1, 0) == 4096 && Matrix(1, 1) == 4816 && Matrix(1, 2) == 2217 && Matrix(1, 3) == -1129
    ensures Matrix(1, 4) == -4096 && Matrix(1, 5) == -5681 && Matrix(1, 6) == -5350 && Matrix(1, 7) == -3218
  {
  }

  lemma Row2Coefficients()
    ensures Matrix(2, 0) == 4096 && Matrix(2, 1) == 3219 && Matrix(2, 2) == -2217 && Matrix(2, 3) == -5681
    ensures Matrix(2, 4) == -4096 && Matrix(2, 5) == 1132 && Matrix(2, 6) == 5350 && Matrix(2, 7) == 4816
  {
  }

  lemma Row3Coefficients()
    ensures Matrix(3, 0) == 4096 && Matrix(3, 1) == 1131 && Matrix(3, 2) == -5352 && Matrix(3, 3) == -3218
    ensures Matrix(3, 4) == 4096 && Matrix(3, 5) == 4816 && Matrix(3, 6) == -2217 && Matrix(3, 7) == -5680
  {
  }

  lemma Row4Coefficients()
    ensures Matrix(4, 0) == 4096 && Matrix(4, 1) == -1131 && Matrix(4, 2) == -5352 && Matrix(4, 3) == 3218
    ensures Matrix(4, 4) == 4096 && Matrix(4, 5) == -4816 && Matrix(4, 6) == -2217 && Matrix(4, 7) == 5680
  {
  }

  lemma Row5Coefficients()
    ensures Matrix(5, 0) == 4096 && Matrix(5, 1) == -3219 && Matrix(5, 2) == -2217 && Matrix(5, 3) == 5681
    ensures Matrix(5, 4) == -4096 && Matrix(5, 5) == -1132 && Matrix(5, 6) == 5350 && Matrix(5, 7) == -4816
  {
  }

  lemma Row6Coefficients()
    ensures Matrix(6, 0) == 4096 && Matrix(6, 1) == -4816 && Matrix(6, 2) == 2217 && Matrix(6, 3) == 1129
    ensures Matrix(6, 4) == -4096 && Matrix(6, 5) == 5681 && Matrix(6, 6) == -5350 && Matrix(6, 7) == 3218
  {
  }

  lemma Row7Coefficients()
    ensures Matrix(7, 0) == 4096 && Matrix(7, 1) == -5683 && Matrix(7, 2) == 5352 && Matrix(7, 3) == -4816
    ensures Matrix(7, 4) == 4096 && Matrix(7, 5) == -3219 && Matrix(7, 6) == 2217 && Matrix(7, 7) == -1131
  {
  }

  /** A row of the transform is linear. */
  lemma DotIsSum(k: nat, s: seq<int>)
    requires k < 8 && |s| == 8
    ensures Dot(k, s) == Sum(k, s)
  {
    hide Matrix;
    match k {
      case 0 => Row0Coefficients();
      case 1 => Row1Coefficients();
      case 2 => Row2Coefficients();
      case 3 => Row3Coefficients();
      case 4 => Row4Coefficients();
      case 5 => Row5Coefficients();
      case 6 => Row6Coefficients();
      case _ => Row7Coefficients();
    }
  }

  /** Columns of partial sums: the first n rows of the block under row r. */
  function Part(d: Cells, r: nat, u: nat, n: nat): int
    requires r < 8 && u < 8 && n <= 8
  {
    if n == 0 then 0 else Part(d, r, u, n - 1) + Matrix(r, n - 1) * d[8 * (n - 1) + u]
  }

  lemma PartIsDot(d: Cells, r: nat, u: nat)
    requires r < 8 && u < 8
    ensures Part(d, r, u, 8) == Dot(r, ColumnOf(d, u))
  {
    hide Dot, Matrix;
    DotIsSum(r, ColumnOf(d, u));
    assert Part(d, r, u, 1) == Matrix(r, 0) * d[u];
    assert Part(d, r, u, 2) == Part(d, r, u, 1) + Matrix(r, 1) * d[8 + u];
    assert Part(d, r, u, 3) == Part(d, r, u, 2) + Matrix(r, 2) * d[16 + u];
    assert Part(d, r, u, 4) == Part(d, r, u, 3) + Matrix(r, 3) * d[24 + u];
    assert Part(d, r, u, 5) == Part(d, r, u, 4) + Matrix(r, 4) * d[32 + u];
    assert Part(d, r, u, 6) == Part(d, r, u, 5) + Matrix(r, 5) * d[40 + u];
    assert Part(d, r, u, 7) == Part(d, r, u, 6) + Matrix(r, 6) * d[48 + u];
    assert Part(d, r, u, 8) == Part(d, r, u, 7) + Matrix(r, 7) * d[56 + u];
  }

  /** Eight columns of partial sums under row c. */
  function Across(d: Cells, r: nat, c: nat, n: nat, u: nat): int
    requires r < 8 && c < 8 && n <= 8 && u <= 8
  {
    if u == 0 then 0 else Across(d, r, c, n, u - 1) + Matrix(c, u - 1) * Part(d, r, u - 1, n)
  }

  lemma Distribute(a: int, p: int, m: int, x: int)
    ensures a * (p + m * x) == a * p + m * a * x
  {
  }

  /** One more row of the block: eight more terms. */
  lemma {:induction false} AcrossStep(d: Cells, r: nat, c: nat, n: nat, u: nat)
    requires r < 8 && c < 8 && n < 8 && u <= 8
    ensures Across(d, r, c, n + 1, u) - Across(d, r, c, n, u) == Product(d, r, c, 8 * n + u) - Product(d, r, c, 8 * n)
    decreases u
  {
    hide Matrix;
    if u > 0 {
      AcrossStep(d, r, c, n, u - 1);
      Distribute(Matrix(c, u - 1), Part(d, r, u - 1, n), Matrix(r, n), d[8 * n + u - 1]);
      TermAt(d, r, c, n, u);
    }
  }

  lemma TermAt(d: Cells, r: nat, c: nat, n: nat, u: nat)
    requires r < 8 && c < 8 && n < 8 && 1 <= u <= 8
    ensures Product(d, r, c, 8 * n + u) == Product(d, r, c, 8 * n + (u - 1)) + Matrix(r, n) * Matrix(c, u - 1) * d[8 * n + u - 1]
  {
    hide Matrix;
    assert (8 * n + u - 1) / 8 == n && (8 * n + u - 1) % 8 == u - 1;
  }

  lemma {:induction false} AcrossIsProduct(d: Cells, r: nat, c: nat, n: nat)
    requires r < 8 && c < 8 && n <= 8
    ensures Across(d, r, c, n, 8) == Product(d, r, c, 8 * n)
    decreases n
  {
    hide Matrix;
    if n == 0 {
      NothingAcross(d, r, c, 8);
    } else {
      AcrossIsProduct(d, r, c, n - 1);
      AcrossStep(d, r, c, n - 1, 8);
    }
  }

  lemma {:induction false} NothingAcross(d: Cells, r: nat, c: nat, u: nat)
    requires r < 8 && c < 8 && u <= 8
    ensures Across(d, r, c, 0, u) == 0
    decreases u
  {
    hide Matrix;
    if u > 0 {
      NothingAcross(d, r, c, u - 1);
    }
  }

  // ----- rounding -----

  lemma DotLinear(k: nat, s: seq<int>, a: seq<int>, b: seq<int>)
    requires k < 8 && |s| == |a| == |b| == 8 && forall i :: 0 <= i < 8 ==> 1024 * s[i] == a[i] + b[i]
    ensures 1024 * Dot(k, s) == Dot(k, a) + Dot(k, b)
  {
  }

  /** The exact column sums that the column pass rounds. */
  function Exact(d: Cells, r: nat): (s: seq<int>)
    requires r < 8
    ensures |s| == 8 && forall u :: 0 <= u < 8 ==> s[u] == Dot(r, ColumnOf(d, u))
  {
    seq(8, u requires 0 <= u < 8 => Dot(r, ColumnOf(d, u)))
  }

  lemma ExactIsProduct(d: Cells, r: nat, c: nat)
    requires r < 8 && c < 8
    ensures Dot(c, Exact(d, r)) == Product(d, r, c, 64)
  {
    hide Dot, Matrix, ColumnOf;
    DotIsSum(c, Exact(d, r));
    AcrossIsProduct(d, r, c, 8);
    forall u | 0 <= u < 8
      ensures Part(d, r, u, 8) == Exact(d, r)[u]
    {
      PartIsDot(d, r, u);
    }
    AcrossIsSum(d, r, c, Exact(d, r));
  }

  lemma AcrossIsSum(d: Cells, r: nat, c: nat, s: seq<int>)
    requires r < 8 && c < 8 && |s| == 8 && forall u :: 0 <= u < 8 ==> s[u] == Part(d, r, u, 8)
    ensures Across(d, r, c, 8, 8) == Sum(c, s)
  {
    hide Matrix, Part;
    assert Across(d, r, c, 8, 0) == 0;
    assert Across(d, r, c, 8, 1) == Matrix(c, 0) * s[0];
    assert Across(d, r, c, 8, 2) == Across(d, r, c, 8, 1) + Matrix(c, 1) * s[1];
    assert Across(d, r, c, 8, 3) == Across(d, r, c, 8, 2) + Matrix(c, 2) * s[2];
    assert Across(d, r, c, 8, 4) == Across(d, r, c, 8, 2) + Matrix(c, 2) * s[2] + Matrix(c, 3) * s[3];
    assert Across(d, r, c, 8, 5) == Across(d, r, c, 8, 4) + Matrix(c, 4) * s[4];
    assert Across(d, r, c, 8, 6) == Across(d, r, c, 8, 4) + Matrix(c, 4) * s[4] + Matrix(c, 5) * s[5];
    assert Across(d, r, c, 8, 7) == Across(d, r, c, 8, 6) + Matrix(c, 6) * s[6];
    assert Across(d, r, c, 8, 8) == Across(d, r, c, 8, 6) + Matrix(c, 6) * s[6] + Matrix(c, 7) * s[7];
  }

  /** The column pass is off by at most half a unit in each of its results. */
  lemma MiddleIsExact(d: Cells, r: nat, c: nat)
    requires r < 8 && c < 8
    ensures -15672320 <= 1024 * Dot(c, MiddleRow(d, r)) - Product(d, r, c, 64) <= 15672320
  {
    hide Dot, ColumnOf;
    var s, a := MiddleRow(d, r), Exact(d, r);
    var b := seq(8, i requires 0 <= i < 8 => 1024 * s[i] - a[i]);
    forall i | 0 <= i < 8
      ensures -512 <= b[i] <= 512
    {
      Rounded(a[i]);
    }
    DotLinear(c, s, a, b);
    DotBound(c, b, 512);
    ExactIsProduct(d, r, c);
  }

  lemma Rounded(x: int)
    ensures -512 <= 1024 * ((x + 512) / 1024) - x <= 512
  {
  }

  lemma Descaled(x: int) returns (u: int)
    ensures u == (x + 65536 + 16777216) / 131072 && -65536 <= 131072 * (u - 128) - x <= 65536
  {
    u := (x + 65536 + 16777216) / 131072;
  }

  lemma Scaled1024(y: int, x: int)
    requires -65536 <= 131072 * y - x <= 65536
    ensures -67108864 <= 134217728 * y - 1024 * x <= 67108864
  {
  }

  /** Magnitudes of the integer transform and of the cosines. */
  lemma MatrixBound(k: nat, u: nat)
    requires k < 8 && u < 8
    ensures Abs(Matrix(k, u)) <= 5683 && Abs(Ideal(k, u)) <= 5793 && Abs(Matrix(k, u) - Ideal(k, u)) <= 2
  {
    hide Dot;
    MatrixIsDct(k, u);
    hide Ideal;
    hide Matrix;
    match k {
      case 0 => Row0Coefficients();
      case 1 => Row1Coefficients();
      case 2 => Row2Coefficients();
      case 3 => Row3Coefficients();
      case 4 => Row4Coefficients();
      case 5 => Row5Coefficients();
      case 6 => Row6Coefficients();
      case _ => Row7Coefficients();
    }
  }

  /** Products of near factors are near. */
  lemma NearProduct(a: int, a': int, b: int, b': int, x: int)
    requires Abs(a) <= 5683 && Abs(b') <= 5793 && Abs(a - a') <= 2 && Abs(b - b') <= 2
    ensures Abs(a * b * x - a' * b' * x) <= 22952 * Abs(x)
  {
    AbsProduct(a, b - b', 5683, 2);
    AbsProduct(a - a', b', 2, 5793);
    assert a * b - a' * b' == a * (b - b') + (a - a') * b';
    AbsProduct(a * b - a' * b', x, 22952, Abs(x));
    assert (a * b - a' * b') * x == a * b * x - a' * b' * x;
  }

  lemma AbsProduct(a: int, b: int, m: nat, n: nat)
    requires Abs(a) <= m && Abs(b) <= n
    ensures Abs(a * b) <= m * n
  {
    AbsTimes(a, b);
    NatMono(Abs(a), m, Abs(b));
    NatMono(Abs(b), n, m);
  }

  lemma AbsTimes(a: int, b: int)
    ensures Abs(a * b) == Abs(a) * Abs(b)
  {
    if a >= 0 && b >= 0 {
      NatMono(0, a, b);
    } else if a >= 0 {
      NatMono(0, a, -b);
    } else if b >= 0 {
      NatMono(0, -a, b);
    } else {
      NatMono(0, -a, -b);
    }
  }

  lemma NatMono(a: nat, b: nat, n: nat)
    requires a <= b
    ensures 0 <= a * n <= b * n && a * n == n * a && b * n == n * b
  {
  }

  lemma {:induction false} ProductIsDct(d: Cells, r: nat, c: nat, n: nat)
    requires r < 8 && c < 8 && n <= 64
    ensures Abs(Product(d, r, c, n) - Dct(d, r, c, n)) <= 22952 * Weight(d, n)
    decreases n
  {
    hide Matrix, Ideal;
    if n > 0 {
      var v, u := (n - 1) / 8, (n - 1) % 8;
      ProductIsDct(d, r, c, n - 1);
      MatrixBound(r, v);
      MatrixBound(c, u);
      NearProduct(Matrix(r, v), Ideal(r, v), Matrix(c, u), Ideal(c, u), d[n - 1]);
    }
  }

  /** Every sample is the two-dimensional inverse DCT of the block, level-shifted and
      clamped: coefficient x counts with the cosines of row r and frequency x / 8 down,
      and of column c and frequency x % 8 across.  Rounding contributes less than two
      thirds of a sample, and the integer cosines at most 22952 / 2^27 of each
      coefficient. */
  lemma SampleIsDct(d: Cells, r: nat, c: nat) returns (u: int)
    requires r < 8 && c < 8
    ensures Sample(d, r, c) == (if u < 0 then 0 else if u > 255 then 255 else u)
    ensures Abs(0x800_0000 * (u - 128) - Product(d, r, c, 64)) <= 82781184
    ensures Abs(0x800_0000 * (u - 128) - Dct(d, r, c, 64)) <= 82781184 + 22952 * Weight(d, 64)
  {
    hide Dot, MiddleRow, Product, Dct, Weight;
    var x := Dot(c, MiddleRow(d, r));
    u := Descaled(x);
    Scaled1024(u - 128, x);
    MiddleIsExact(d, r, c);
    ProductIsDct(d, r, c, 64);
  }

  /** A block with coefficients in its first row only: all its rows of samples are that
      row's transform. */
  lemma FirstRowOnly(d: Cells, r: nat, c: nat)
    requires r < 8 && c < 8 && forall x :: 8 <= x < 64 ==> d[x] == 0
    ensures Sample(d, r, c) == Clamp((4 * Dot(c, d[..8]) + 65536 + 16777216) / 131072)
  {
    hide Dot, Clamp;
    forall k | 0 <= k < 8 ensures MiddleRow(d, r)[k] == 4 * d[k] {
      ConstantColumn(ColumnOf(d, k));
    }
    FourTimes(c, MiddleRow(d, r), d[..8]);
  }

  lemma FourTimes(k: nat, s: seq<int>, a: seq<int>)
    requires k < 8 && |s| == |a| == 8 && forall i :: 0 <= i < 8 ==> s[i] == 4 * a[i]
    ensures Dot(k, s) == 4 * Dot(k, a)
  {
  }
}
