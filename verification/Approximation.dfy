/** Successive approximation (section G.1.2 of T.81): the value a coefficient
    has when only its bits from position al up are known. */
module Approximation {
  import opened Bits
  import opened Machine
  import opened Progressive

  /** Point transform of AC coefficients: division by 2^al towards zero. */
  function Trunc(v: int, al: nat): int
  {
    if v >= 0 then Shr(v, al) else -Shr(-v, al)
  }

  function Approx(v: int, al: nat): int
  {
    Shl(Trunc(v, al), al)
  }

  /** The bit that the refinement at position al adds. */
  function CorrBit(v: int, al: nat): bool
  {
    Abs(Trunc(v, al)) % 2 == 1
  }

  lemma {:induction false} ShrBounds(v: int, n: nat)
    ensures v >= 0 ==> 0 <= Shr(v, n) && Shl(Shr(v, n), n) <= v
  {
    if n > 0 {
      ShrBounds(v, n - 1);
      var h := Shr(v, n - 1);
      ShlShl(h / 2, 1, n - 1);
      ShlFacts(2 * (h / 2), h, n - 1);
      assert Shl(h / 2, 1) == 2 * (h / 2);
    }
  }

  lemma {:induction false} ShrShl(x: int, n: nat)
    ensures Shr(Shl(x, n), n) == x
    decreases n
  {
    if n > 0 {
      ShlShl(x, 1, n - 1);
      assert Shl(x, 1) == 2 * x;
      ShrShl(2 * x, n - 1);
    }
  }

  lemma ShlOdd(v: int, n: nat)
    ensures Shl(-v, n) == -Shl(v, n)
  {
    ShlFacts(v, -v, n);
    ShlOne(n);
  }

  lemma TruncStep(v: int, al: nat)
    ensures Abs(Trunc(v, al)) == 2 * Abs(Trunc(v, al + 1)) + if CorrBit(v, al) then 1 else 0
    ensures v > 0 ==> Trunc(v, al) >= 0
    ensures v < 0 ==> Trunc(v, al) <= 0
  {
    ShrBounds(Abs(v), al);
    ShrBounds(Abs(v), al + 1);
  }

  lemma ApproxBound(v: int, al: nat)
    ensures Abs(Approx(v, al)) <= Abs(v)
    ensures Approx(v, al) == 0 <==> Trunc(v, al) == 0
    ensures Approx(v, 0) == v
    ensures Approx(v, al) > 0 ==> v > 0
    ensures Approx(v, al) < 0 ==> v < 0
  {
    ShrBounds(Abs(v), al);
    if v < 0 {
      ShlOdd(Shr(-v, al), al);
    }
    ShlOne(al);
    ShlFacts(0, Shr(Abs(v), al), al);
  }

  /** A correction bit moves an approximation to the next finer one. */
  lemma FixRefines(v: int, al: nat)
    requires Abs(v) <= 32767 && Trunc(v, al + 1) != 0
    ensures Fix(Approx(v, al + 1), CorrBit(v, al), al) == Approx(v, al)
  {
    hide Shl, Shr, ToShort;
    var t := Trunc(v, al + 1);
    TruncStep(v, al);
    TruncStep(v, al + 1);
    ShlShl(t, 1, al);
    assert Shl(t, 1) == 2 * t by { DoubleShl(t); }
    ShrShl(2 * t, al);
    ApproxBound(v, al);
    ApproxBound(v, al + 1);
    ShlFacts(2 * t, 1, al);
    ShlFacts(2 * t - 1, 1, al);
    ShlOne(al);
  }

  lemma DoubleShl(t: int)
    ensures Shl(t, 1) == 2 * t
  {
  }

  /** A newly significant coefficient is plus or minus one bit. */
  lemma NewValue(v: int, al: nat)
    requires Trunc(v, al + 1) == 0 && Trunc(v, al) != 0
    ensures Approx(v, al) == if v > 0 then Pow2(al) else 0 - Pow2(al)
  {
    TruncStep(v, al);
    ApproxBound(v, al);
    ShlOne(al);
    ShlOdd(1, al);
  }

  lemma StaysZero(v: int, al: nat)
    requires Trunc(v, al) == 0
    ensures Trunc(v, al + 1) == 0 && Approx(v, al) == 0
  {
    TruncStep(v, al);
    ApproxBound(v, al);
  }

  // ----- what any refinement keeps -----

  predicate Multiple(p: int, n: nat)
  {
    p == Shl(Shr(p, n), n)
  }

  /** Whatever the stream says, a correction leaves a multiple of the scan's
      bit; it keeps the sign of every coefficient except the one value whose
      magnitude does not fit a short. */
  lemma FixKeeps(p: int, bit: bool, al: nat)
    requires Int16(p) && p != 0 && Multiple(p, al + 1) && al <= 13
    ensures Int16(Fix(p, bit, al))
    ensures Multiple(Fix(p, bit, al), al)
    ensures Fix(p, bit, al) != 0
    ensures (p > 0 <==> Fix(p, bit, al) > 0) <==> !(bit && p == SHRT_MIN)
  {
    hide Shl, Shr, Pow2, ToShort;
    var t := Shr(p, al + 1);
    ShlShl(t, 1, al);
    DoubleShl(t);
    ShrShl(2 * t, al);
    ShlFacts(2 * t, 1, al);
    ShlFacts(2 * t - 1, 1, al);
    ShlOne(al);
    ShrShl(2 * t + 1, al);
    ShrShl(2 * t - 1, al);
    assert p == Shl(2 * t, al);
    FitsBit(p, t, al);
    SmallestFlips(al);
  }

  /** The smallest short, one bit further down, wraps to a positive multiple. */
  lemma SmallestFlips(al: nat)
    requires al <= 13
    ensures ToShort(SHRT_MIN - Pow2(al)) == 32768 - Pow2(al) && Multiple(32768 - Pow2(al), al)
  {
    hide Shl, Shr, Pow2;
    Pow2Range(al);
    var q: int := Pow2(15 - al);
    ShlOne(15 - al);
    ShlShl(1, 15 - al, al);
    ShlOne(15);
    Powers();
    ShlOne(al);
    ShlFacts(q - 1, 1, al);
    ShrShl(q - 1, al);
  }

  lemma ShlOrder(a: int, b: int, n: nat)
    ensures Shl(a, n) < Shl(b, n) <==> a < b
    ensures a < b ==> Shl(a, n) + Pow2(n) <= Shl(b, n)
  {
    hide Shl, Pow2;
    ShlFacts(a, b, n);
    ShlFacts(b, a, n);
    ShlFacts(a + 1, b, n);
    ShlSucc(a, n);
  }

  lemma FitsBit(p: int, t: int, al: nat)
    requires Int16(p) && p == Shl(2 * t, al) && al <= 13
    ensures p + Pow2(al) <= SHRT_MAX
    ensures p != SHRT_MIN ==> p - Pow2(al) >= SHRT_MIN
    ensures p == SHRT_MIN ==> ToShort(p - Pow2(al)) > 0
    ensures p > 0 ==> t > 0
    ensures p < 0 ==> t < 0
    ensures t != 0 ==> p != 0
  {
    hide Shl, ToShort, Pow2;
    ShlShl(t, 1, al);
    DoubleShl(t);
    assert p == Shl(t, al + 1);
    RoomAbove(t, al);
    if p != SHRT_MIN {
      RoomBelow(t, al);
    }
    SameSign(t, al + 1);
    Pow2Range(al);
  }

  /** 2^15 as a shifted power. */
  lemma Fifteen(al: nat) returns (q: int)
    requires al <= 13
    ensures Shl(q, al + 1) == 32768 && Shl(-q, al + 1) == -32768 && 2 * Pow2(al) == Pow2(al + 1)
  {
    hide Shl;
    q := Pow2(14 - al);
    ShlOne(14 - al);
    ShlShl(1, 14 - al, al + 1);
    ShlOne(15);
    Powers();
    ShlOdd(q, al + 1);
  }

  lemma RoomAbove(t: int, al: nat)
    requires Shl(t, al + 1) <= SHRT_MAX && al <= 13
    ensures Shl(t, al + 1) + Pow2(al) <= SHRT_MAX
  {
    hide Shl, Pow2;
    var q := Fifteen(al);
    ShlOrder(t, q, al + 1);
    Pow2Range(al);
  }

  lemma RoomBelow(t: int, al: nat)
    requires Shl(t, al + 1) > SHRT_MIN && al <= 13
    ensures Shl(t, al + 1) - Pow2(al) >= SHRT_MIN
  {
    hide Shl, Pow2;
    var q := Fifteen(al);
    ShlOrder(-q, t, al + 1);
  }

  lemma SameSign(t: int, n: nat)
    ensures Shl(t, n) > 0 <==> t > 0
    ensures Shl(t, n) < 0 <==> t < 0
  {
    hide Shl;
    ShlOne(n);
    ShlOrder(t, 0, n);
    ShlOrder(0, t, n);
  }

  lemma Pow2Range(al: nat)
    requires al <= 13
    ensures Pow2(al) <= 8192
    ensures ToShort(SHRT_MIN - Pow2(al)) == 32768 - Pow2(al) > 0
  {
    hide Pow2;
    Pow2Mono(al, 13);
    Powers();
  }
}
