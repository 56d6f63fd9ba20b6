/** Bit strings, most significant bit first: the common vocabulary of the
    entropy-coded stream, the 32-bit code buffer and the Huffman codes. */
module Bits {

  type Bitstring = seq<bool>

  type Byte = x: int | 0 <= x < 256

  /** v << n on unbounded integers; defined by doubling so that every fact
      about it is linear. */
  function Shl(v: int, n: nat): int
  {
    if n == 0 then v else 2 * Shl(v, n - 1)
  }

  function Pow2(n: nat): (r: nat)
    ensures r >= 1
  {
    if n == 0 then 1 else 2 * Pow2(n - 1)
  }

  lemma Powers()
    ensures Pow2(8) == 256 && Pow2(9) == 512 && Pow2(13) == 8192 && Pow2(15) == 32768 && Pow2(16) == 65536
  {
    assert Pow2(4) == 16;
    assert Pow2(6) == 64;
    assert Pow2(8) == 256;
    assert Pow2(10) == 1024;
    assert Pow2(12) == 4096;
    assert Pow2(14) == 16384;
  }

  function BitOf(b: bool): nat { if b then 1 else 0 }

  /** The unsigned number written by a bit string. */
  function Val(b: Bitstring): (r: nat)
    ensures r < Pow2(|b|)
  {
    if |b| == 0 then 0 else 2 * Val(b[..|b| - 1]) + BitOf(b[|b| - 1])
  }

  /** The low n bits of v. */
  function ToBits(v: nat, n: nat): (r: Bitstring)
    ensures |r| == n
  {
    if n == 0 then [] else ToBits(v / 2, n - 1) + [v % 2 == 1]
  }

  function Zeros(n: nat): (r: Bitstring)
    ensures |r| == n
    ensures forall i :: 0 <= i < n ==> !r[i]
  {
    seq(n, _ => false)
  }

  lemma {:induction false} ValToBits(v: nat, n: nat)
    requires v < Pow2(n)
    ensures Val(ToBits(v, n)) == v
  {
    if n > 0 {
      ValToBits(v / 2, n - 1);
      assert ToBits(v, n)[..n - 1] == ToBits(v / 2, n - 1);
    }
  }

  lemma {:induction false} ToBitsVal(b: Bitstring)
    ensures ToBits(Val(b), |b|) == b
  {
    if |b| > 0 {
      ToBitsVal(b[..|b| - 1]);
      assert Val(b) / 2 == Val(b[..|b| - 1]);
    }
  }

  lemma {:induction false} ShlFacts(a: int, b: int, n: nat)
    ensures Shl(a + b, n) == Shl(a, n) + Shl(b, n)
    ensures a <= b ==> Shl(a, n) <= Shl(b, n)
    ensures a < b ==> Shl(a, n) < Shl(b, n)
  {
    if n > 0 {
      ShlFacts(a, b, n - 1);
    }
  }

  lemma {:induction false} ShlOne(n: nat)
    ensures Shl(1, n) == Pow2(n)
    ensures Shl(0, n) == 0
  {
    if n > 0 {
      ShlOne(n - 1);
    }
  }

  lemma {:induction false} ShlShl(v: int, m: nat, n: nat)
    ensures Shl(Shl(v, m), n) == Shl(v, m + n)
  {
    if n > 0 {
      ShlShl(v, m, n - 1);
    }
  }

  lemma {:induction false} Pow2Mono(a: nat, b: nat)
    requires a <= b
    ensures Pow2(a) <= Pow2(b)
    decreases b
  {
    if a < b {
      Pow2Mono(a, b - 1);
    }
  }

  lemma ShlSucc(v: int, n: nat)
    ensures Shl(v + 1, n) == Shl(v, n) + Pow2(n)
  {
    ShlFacts(v, 1, n);
    ShlOne(n);
  }

  lemma {:induction false} ValConcat(a: Bitstring, b: Bitstring)
    ensures Val(a + b) == Shl(Val(a), |b|) + Val(b)
  {
    if |b| == 0 {
      assert a + b == a;
    } else {
      var b' := b[..|b| - 1];
      assert (a + b)[..|a + b| - 1] == a + b';
      ValConcat(a, b');
    }
  }

  lemma ValDetermines(a: Bitstring, b: Bitstring)
    requires |a| == |b|
    ensures Val(a) == Val(b) <==> a == b
  {
    ToBitsVal(a);
    ToBitsVal(b);
  }

  predicate StartsWith(w: Bitstring, p: Bitstring)
  {
    |p| <= |w| && w[..|p|] == p
  }

  /** A bit string w starts with p exactly when its value lies in the interval
      of width 2^(|w|-|p|) that starts at p's value scaled up. */
  lemma PrefixInterval(w: Bitstring, p: Bitstring)
    requires |p| <= |w|
    ensures StartsWith(w, p) <==> Shl(Val(p), |w| - |p|) <= Val(w) < Shl(Val(p) + 1, |w| - |p|)
  {
    hide Val, Shl;
    var hi, lo := w[..|p|], w[|p|..];
    assert w == hi + lo;
    ValConcat(hi, lo);
    ScaledInterval(Val(hi), Val(p), Val(lo), |lo|);
    ValDetermines(hi, p);
  }

  lemma ScaledInterval(h: int, p: int, l: nat, n: nat)
    requires l < Pow2(n)
    ensures h == p <==> Shl(p, n) <= Shl(h, n) + l < Shl(p + 1, n)
  {
    ShlSucc(h, n);
    ShlFacts(h + 1, p, n);
    ShlFacts(p + 1, h, n);
  }
}
