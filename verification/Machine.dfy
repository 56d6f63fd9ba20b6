/** C integers: truncation to sixteen bits, division towards zero, and the
    overflow guards of the decoder. */
module Machine {

  const INT_MAX: int := 0x7fff_ffff
  const INT_MIN: int := -0x8000_0000
  const SHRT_MAX: int := 32767
  const SHRT_MIN: int := -32768

  predicate Int32(x: int) { INT_MIN <= x <= INT_MAX }

  predicate Int16(x: int) { SHRT_MIN <= x <= SHRT_MAX }

  function Abs(x: int): nat { if x < 0 then -x else x }

  /** Conversion of an int to a short. */
  function ToShort(x: int): (r: int)
    ensures Int16(r)
    ensures Int16(x) ==> r == x
  {
    (x + 32768) % 65536 - 32768
  }

  /** A conversion to short keeps the low sixteen bits, and only one short does. */
  lemma ToShortWraps(x: int, y: int)
    ensures (ToShort(x) - x) % 65536 == 0
    ensures Int16(y) && (y - x) % 65536 == 0 ==> y == ToShort(x)
  {
  }

  /** C division, which truncates. */
  function TDiv(a: int, b: int): int
    requires b != 0
  {
    if a >= 0 then (if b > 0 then a / b else -(a / -b))
    else if b > 0 then -(-a / b) else -a / -b
  }

  /** stbi__addints_valid */
  predicate AddIntsValid(a: int, b: int)
  {
    if (a >= 0) != (b >= 0) then true
    else if a < 0 && b < 0 then a >= INT_MIN - b
    else a <= INT_MAX - b
  }

  /** stbi__mul2shorts_valid */
  predicate Mul2ShortsValid(a: int, b: int)
  {
    if b == 0 || b == -1 then true
    else if (a >= 0) == (b >= 0) then a <= TDiv(SHRT_MAX, b)
    else if b < 0 then a <= TDiv(SHRT_MIN, b)
    else a >= TDiv(SHRT_MIN, b)
  }

  /** The sum guard rejects exactly the sums that do not fit an int. */
  lemma AddIntsExact(a: int, b: int)
    requires Int32(a) && Int32(b)
    ensures AddIntsValid(a, b) <==> Int32(a + b)
  {
  }

  lemma DivBound(x: nat, q: nat, b: nat)
    requires b > 0
    ensures q <= x / b <==> q * b <= x
  {
    var d := x / b;
    assert x == d * b + x % b;
    if q <= d {
      assert q * b <= d * b;
    } else {
      assert (d + 1) * b <= q * b;
      assert (d + 1) * b == d * b + b;
    }
  }

  /** The product guard is exact for the multipliers the decoder passes. */
  lemma Mul2ShortsExact(a: int, b: int)
    requires b >= 0
    ensures Mul2ShortsValid(a, b) <==> Int16(a * b)
  {
    if b > 0 {
      if a >= 0 {
        DivBound(32767, a, b);
        assert a * b >= 0;
      } else {
        DivBound(32768, -a, b);
        assert -a * b == -(a * b) && a * b < 0;
      }
    }
  }

  /** ... and for no negative multiplier at all. */
  lemma Mul2ShortsScope(b: int)
    requires Int32(b)
    ensures (forall a {:trigger Mul2ShortsValid(a, b)} :: Int32(a) ==> (Mul2ShortsValid(a, b) <==> Int16(a * b))) <==> b >= 0
  {
    if b >= 0 {
      forall a | Int32(a) ensures Mul2ShortsValid(a, b) <==> Int16(a * b) {
        Mul2ShortsExact(a, b);
      }
    } else {
      var a := if b == -1 then 40000 else if -16383 <= b || b <= -32768 then -1 else -2;
      GuardWrong(a, b);
      assert Int32(a) && (Mul2ShortsValid(a, b) <==> !Int16(a * b));
    }
  }

  lemma GuardWrong(a: int, b: int)
    requires b < 0 && Int32(b)
    requires a == if b == -1 then 40000 else if -16383 <= b || b <= -32768 then -1 else -2
    ensures Mul2ShortsValid(a, b) <==> !Int16(a * b)
  {
    if b < -1 {
      var q := 32767 / -b;
      DivBound(32767, 1, -b);
      DivBound(32767, 2, -b);
      if a == -1 {
        assert a * b == -b;
      } else {
        assert a * b == -2 * b;
      }
    }
  }

  // ----- the guards of allocation sizes -----

  /** stbi__addsizes_valid */
  predicate AddSizesValid(a: int, b: int)
  {
    b >= 0 && a <= INT_MAX - b
  }

  /** stbi__mul2sizes_valid */
  predicate Mul2SizesValid(a: int, b: int)
  {
    a >= 0 && b >= 0 && (b == 0 || a <= INT_MAX / b)
  }

  /** stbi__mad2sizes_valid */
  predicate Mad2SizesValid(a: int, b: int, add: int)
  {
    Mul2SizesValid(a, b) && AddSizesValid(a * b, add)
  }

  /** stbi__mad3sizes_valid */
  predicate Mad3SizesValid(a: int, b: int, c: int, add: int)
  {
    Mul2SizesValid(a, b) && Mul2SizesValid(a * b, c) && AddSizesValid(a * b * c, add)
  }

  lemma Mul2SizesExact(a: int, b: int)
    ensures Mul2SizesValid(a, b) <==> a >= 0 && b >= 0 && a * b <= INT_MAX
    ensures a >= 0 && b >= 0 ==> a * b >= 0
  {
    if a >= 0 && b > 0 {
      DivBound(INT_MAX, a, b);
    }
  }

  /** The guards accept exactly non-negative sizes whose total fits an int; with
      three factors the product of the first two must fit as well. */
  lemma MadSizesExact(a: int, b: int, c: int, add: int)
    ensures Mad2SizesValid(a, b, add) <==> a >= 0 && b >= 0 && add >= 0 && a * b + add <= INT_MAX
    ensures Mad3SizesValid(a, b, c, add) <==>
              a >= 0 && b >= 0 && c >= 0 && add >= 0 && a * b <= INT_MAX && a * b * c + add <= INT_MAX
  {
    hide Mul2SizesValid;
    Mul2SizesExact(a, b);
    Mul2SizesExact(a * b, c);
  }
}
