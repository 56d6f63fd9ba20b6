/** Canonical Huffman codes as Annex C of ITU-T T.81 assigns them from the
    sixteen code-length counts, and the bit-at-a-time DECODE procedure of
    section F.2.2.3.  Nothing here knows about the decoder's tables. */
module Canonical {
  import opened Bits

  type Counts = c: seq<nat> | |c| == 16 witness seq(16, _ => 0)

  /** Number of symbols whose code has at most j bits. */
  function Num(c: Counts, j: nat): nat
    requires j <= 16
  {
    if j == 0 then 0 else Num(c, j - 1) + c[j - 1]
  }

  /** Number of symbols in the table. */
  function Total(c: Counts): nat
  {
    Num(c, 16)
  }

  /** One more than the largest code of length at most j, as a j-bit number. */
  function Top(c: Counts, j: nat): nat
    requires j <= 16
  {
    if j == 0 then 0 else 2 * Top(c, j - 1) + c[j - 1]
  }

  /** Top, aligned to sixteen bits. */
  function Limit(c: Counts, j: nat): int
    requires j <= 16
  {
    Shl(Top(c, j), 16 - j)
  }

  /** The Kraft sum of the lengths up to j, in units of 2^-16. */
  function Kraft(c: Counts, j: nat): int
    requires j <= 16
  {
    if j == 0 then 0 else Kraft(c, j - 1) + Shl(c[j - 1], 16 - j)
  }

  ghost predicate Acceptable(c: Counts)
  {
    Total(c) <= 256 && Kraft(c, 16) <= Pow2(16)
  }

  function LenFrom(c: Counts, k: nat, j: nat): (r: nat)
    requires j < 16 && Num(c, j) <= k < Total(c)
    ensures j < r <= 16 && Num(c, r - 1) <= k < Num(c, r)
    decreases 16 - j
  {
    if k < Num(c, j + 1) then j + 1 else LenFrom(c, k, j + 1)
  }

  /** Code length of symbol k (symbols are numbered by increasing length). */
  function Len(c: Counts, k: nat): (r: nat)
    requires k < Total(c)
    ensures 1 <= r <= 16 && Num(c, r - 1) <= k < Num(c, r)
  {
    LenFrom(c, k, 0)
  }

  function Code(c: Counts, k: nat): nat
    requires k < Total(c)
  {
    2 * Top(c, Len(c, k) - 1) + k - Num(c, Len(c, k) - 1)
  }

  function CodeBits(c: Counts, k: nat): (r: Bitstring)
    requires k < Total(c)
    ensures |r| == Len(c, k)
  {
    ToBits(Code(c, k), Len(c, k))
  }

  // ----- counting -----

  lemma {:induction false} NumMono(c: Counts, i: nat, j: nat)
    requires i <= j <= 16
    ensures Num(c, i) <= Num(c, j)
  {
    if i < j {
      NumMono(c, i, j - 1);
    }
  }

  lemma LenUnique(c: Counts, k: nat, j: nat)
    requires 1 <= j <= 16 && Num(c, j - 1) <= k < Num(c, j)
    ensures k < Total(c) && Len(c, k) == j
  {
    NumMono(c, j, 16);
    var r := Len(c, k);
    if r < j {
      NumMono(c, r, j - 1);
    } else if j < r {
      NumMono(c, j, r - 1);
    }
  }

  lemma LenMono(c: Counts, i: nat, k: nat)
    requires i <= k < Total(c)
    ensures Len(c, i) <= Len(c, k)
  {
    if Len(c, k) < Len(c, i) {
      NumMono(c, Len(c, k), Len(c, i) - 1);
    }
  }

  // ----- limits -----

  lemma LimitStep(c: Counts, j: nat)
    requires 1 <= j <= 16
    ensures Limit(c, j) == Limit(c, j - 1) + Shl(c[j - 1], 16 - j)
    ensures Limit(c, j - 1) == Shl(2 * Top(c, j - 1), 16 - j)
    ensures Shl(c[j - 1], 16 - j) >= 0
  {
    ShlFacts(2 * Top(c, j - 1), c[j - 1], 16 - j);
    ShlShl(Top(c, j - 1), 1, 16 - j);
    assert Shl(Top(c, j - 1), 1) == 2 * Top(c, j - 1);
    ShlOne(16 - j);
    ShlFacts(0, c[j - 1], 16 - j);
  }

  lemma {:induction false} LimitMono(c: Counts, i: nat, j: nat)
    requires i <= j <= 16
    ensures Limit(c, i) <= Limit(c, j)
  {
    if i < j {
      LimitMono(c, i, j - 1);
      LimitStep(c, j);
    }
  }

  /** The running code value of the table builder is the Kraft sum. */
  lemma {:induction false} KraftIsLimit(c: Counts, j: nat)
    requires j <= 16
    ensures Kraft(c, j) == Limit(c, j)
  {
    if j == 0 {
      ShlOne(16);
    } else {
      KraftIsLimit(c, j - 1);
      LimitStep(c, j);
    }
  }

  lemma TopFits(c: Counts, j: nat)
    requires j <= 16
    ensures Top(c, j) <= Pow2(j) <==> Limit(c, j) <= Pow2(16)
  {
    ShlOne(j);
    ShlShl(1, j, 16 - j);
    ShlOne(16);
    ShlFacts(Pow2(j), Top(c, j), 16 - j);
    ShlFacts(Top(c, j), Pow2(j), 16 - j);
  }

  /** Kraft's inequality for the whole list is the same as every level fitting. */
  lemma AcceptableLevels(c: Counts, j: nat)
    requires Acceptable(c) && j <= 16
    ensures Top(c, j) <= Pow2(j)
  {
    KraftIsLimit(c, 16);
    LimitMono(c, j, 16);
    TopFits(c, j);
  }

  lemma OverflowRejects(c: Counts, j: nat)
    requires j <= 16 && Top(c, j) > Pow2(j)
    ensures Kraft(c, 16) > Pow2(16)
  {
    KraftIsLimit(c, 16);
    LimitMono(c, j, 16);
    TopFits(c, j);
  }

  // ----- code intervals -----

  /** The interval of 16-bit windows that begin with the code of symbol k. */
  function Start(c: Counts, k: nat): int
    requires k < Total(c)
  {
    Shl(Code(c, k), 16 - Len(c, k))
  }

  function End(c: Counts, k: nat): int
    requires k < Total(c)
  {
    Shl(Code(c, k) + 1, 16 - Len(c, k))
  }

  lemma IntervalWithinLevel(c: Counts, k: nat)
    requires k < Total(c)
    ensures Limit(c, Len(c, k) - 1) <= Start(c, k) < End(c, k) <= Limit(c, Len(c, k))
  {
    hide Shl, Len, LenFrom, Total;
    var j := Len(c, k);
    LimitStep(c, j);
    ShlFacts(2 * Top(c, j - 1), Code(c, k), 16 - j);
    ShlFacts(Code(c, k), Code(c, k) + 1, 16 - j);
    ShlFacts(Code(c, k) + 1, Top(c, j), 16 - j);
  }

  /** Intervals of different symbols are disjoint and in symbol order. */
  lemma IntervalsOrdered(c: Counts, i: nat, k: nat)
    requires i < k < Total(c)
    ensures End(c, i) <= Start(c, k)
  {
    hide Shl, Len, LenFrom, Total;
    LenMono(c, i, k);
    if Len(c, i) == Len(c, k) {
      ShlFacts(Code(c, i) + 1, Code(c, k), 16 - Len(c, k));
    } else {
      IntervalWithinLevel(c, i);
      IntervalWithinLevel(c, k);
      LimitMono(c, Len(c, i), Len(c, k) - 1);
    }
  }

  /** Lengths without symbols double the counter. */
  lemma {:induction false} EmptyLevels(c: Counts, a: nat, b: nat)
    requires a <= b <= 16 && Num(c, a) == Num(c, b)
    ensures Top(c, b) == Shl(Top(c, a), b - a)
    decreases b - a
  {
    if a < b {
      NumMono(c, a, b - 1);
      EmptyLevels(c, a, b - 1);
    }
  }

  /** The assignment of Annex C of T.81: codes count upwards from zero, and a longer code
      is the next value shifted to its length. */
  lemma CodesFollow(c: Counts, k: nat)
    requires k < Total(c)
    ensures k == 0 ==> Code(c, k) == 0
    ensures k + 1 < Total(c) ==> Len(c, k) <= Len(c, k + 1) && Code(c, k + 1) == Shl(Code(c, k) + 1, Len(c, k + 1) - Len(c, k))
  {
    hide Len, LenFrom, Total;
    var a := Len(c, k);
    if k == 0 {
      NumMono(c, 0, a - 1);
      EmptyLevels(c, 0, a - 1);
      ShlFacts(0, 0, a - 1);
      ZeroShift(a - 1);
    }
    if k + 1 < Total(c) {
      var b := Len(c, k + 1);
      LenMono(c, k, k + 1);
      if a < b {
        NumMono(c, a, b - 1);
        EmptyLevels(c, a, b - 1);
      }
    }
  }

  lemma ZeroShift(n: nat)
    ensures Shl(0, n) == 0
  {
  }

  /** The two conditions on the sixteen counts, written out. */
  lemma AcceptableExactly(c: Counts)
    ensures Acceptable(c) <==>
              && c[0] + c[1] + c[2] + c[3] + c[4] + c[5] + c[6] + c[7] + c[8] + c[9] + c[10] + c[11] + c[12] + c[13] + c[14] + c[15] <= 256
              && 32768 * c[0] + 16384 * c[1] + 8192 * c[2] + 4096 * c[3] + 2048 * c[4] + 1024 * c[5] + 512 * c[6] + 256 * c[7]
                 + 128 * c[8] + 64 * c[9] + 32 * c[10] + 16 * c[11] + 8 * c[12] + 4 * c[13] + 2 * c[14] + c[15] <= 65536
  {
    hide Num, Kraft;
    CountUp(c);
    KraftUp(c);
  }

  lemma CountUp(c: Counts)
    ensures Num(c, 16) == c[0] + c[1] + c[2] + c[3] + c[4] + c[5] + c[6] + c[7] + c[8] + c[9] + c[10] + c[11] + c[12] + c[13] + c[14] + c[15]
  {
    assert Num(c, 1) == Num(c, 0) + c[0];
    assert Num(c, 2) == Num(c, 1) + c[1];
    assert Num(c, 3) == Num(c, 2) + c[2];
    assert Num(c, 4) == Num(c, 3) + c[3];
    assert Num(c, 5) == Num(c, 4) + c[4];
    assert Num(c, 6) == Num(c, 5) + c[5];
    assert Num(c, 7) == Num(c, 6) + c[6];
    assert Num(c, 8) == Num(c, 7) + c[7];
    assert Num(c, 9) == Num(c, 8) + c[8];
    assert Num(c, 10) == Num(c, 9) + c[9];
    assert Num(c, 11) == Num(c, 10) + c[10];
    assert Num(c, 12) == Num(c, 11) + c[11];
    assert Num(c, 13) == Num(c, 12) + c[12];
    assert Num(c, 14) == Num(c, 13) + c[13];
    assert Num(c, 15) == Num(c, 14) + c[14];
    assert Num(c, 16) == Num(c, 15) + c[15];
  }

  lemma Shifts(v: int)
    ensures Shl(v, 0) == 1 * v
    ensures Shl(v, 1) == 2 * v
    ensures Shl(v, 2) == 4 * v
    ensures Shl(v, 3) == 8 * v
    ensures Shl(v, 4) == 16 * v
    ensures Shl(v, 5) == 32 * v
    ensures Shl(v, 6) == 64 * v
    ensures Shl(v, 7) == 128 * v
    ensures Shl(v, 8) == 256 * v
    ensures Shl(v, 9) == 512 * v
    ensures Shl(v, 10) == 1024 * v
    ensures Shl(v, 11) == 2048 * v
    ensures Shl(v, 12) == 4096 * v
    ensures Shl(v, 13) == 8192 * v
    ensures Shl(v, 14) == 16384 * v
    ensures Shl(v, 15) == 32768 * v
  {
    assert Shl(v, 1) == 2 * Shl(v, 0);
    assert Shl(v, 2) == 2 * Shl(v, 1);
    assert Shl(v, 3) == 2 * Shl(v, 2);
    assert Shl(v, 4) == 2 * Shl(v, 3);
    assert Shl(v, 5) == 2 * Shl(v, 4);
    assert Shl(v, 6) == 2 * Shl(v, 5);
    assert Shl(v, 7) == 2 * Shl(v, 6);
    assert Shl(v, 8) == 2 * Shl(v, 7);
    assert Shl(v, 9) == 2 * Shl(v, 8);
    assert Shl(v, 10) == 2 * Shl(v, 9);
    assert Shl(v, 11) == 2 * Shl(v, 10);
    assert Shl(v, 12) == 2 * Shl(v, 11);
    assert Shl(v, 13) == 2 * Shl(v, 12);
    assert Shl(v, 14) == 2 * Shl(v, 13);
    assert Shl(v, 15) == 2 * Shl(v, 14);
  }

  lemma KraftUp(c: Counts)
    ensures Kraft(c, 16) == 32768 * c[0] + 16384 * c[1] + 8192 * c[2] + 4096 * c[3] + 2048 * c[4] + 1024 * c[5] + 512 * c[6] + 256 * c[7]
                            + 128 * c[8] + 64 * c[9] + 32 * c[10] + 16 * c[11] + 8 * c[12] + 4 * c[13] + 2 * c[14] + c[15]
    ensures Pow2(16) == 65536
  {
    hide Shl;
    Powers();
    forall i | 0 <= i < 16
      ensures Kraft(c, i + 1) == Kraft(c, i) + Shl(c[i], 15 - i)
    {
    }
    Shifts(c[0]);
    assert Kraft(c, 1) == Kraft(c, 0) + 32768 * c[0];
    Shifts(c[1]);
    assert Kraft(c, 2) == Kraft(c, 1) + 16384 * c[1];
    Shifts(c[2]);
    assert Kraft(c, 3) == Kraft(c, 2) + 8192 * c[2];
    Shifts(c[3]);
    assert Kraft(c, 4) == Kraft(c, 3) + 4096 * c[3];
    Shifts(c[4]);
    assert Kraft(c, 5) == Kraft(c, 4) + 2048 * c[4];
    Shifts(c[5]);
    assert Kraft(c, 6) == Kraft(c, 5) + 1024 * c[5];
    Shifts(c[6]);
    assert Kraft(c, 7) == Kraft(c, 6) + 512 * c[6];
    Shifts(c[7]);
    assert Kraft(c, 8) == Kraft(c, 7) + 256 * c[7];
    Shifts(c[8]);
    assert Kraft(c, 9) == Kraft(c, 8) + 128 * c[8];
    Shifts(c[9]);
    assert Kraft(c, 10) == Kraft(c, 9) + 64 * c[9];
    Shifts(c[10]);
    assert Kraft(c, 11) == Kraft(c, 10) + 32 * c[10];
    Shifts(c[11]);
    assert Kraft(c, 12) == Kraft(c, 11) + 16 * c[11];
    Shifts(c[12]);
    assert Kraft(c, 13) == Kraft(c, 12) + 8 * c[12];
    Shifts(c[13]);
    assert Kraft(c, 14) == Kraft(c, 13) + 4 * c[13];
    Shifts(c[14]);
    assert Kraft(c, 15) == Kraft(c, 14) + 2 * c[14];
    Shifts(c[15]);
    assert Kraft(c, 16) == Kraft(c, 15) + 1 * c[15];
  }

  lemma CodeFits(c: Counts, k: nat)
    requires Acceptable(c) && k < Total(c)
    ensures Code(c, k) < Top(c, Len(c, k)) <= Pow2(Len(c, k))
    ensures Val(CodeBits(c, k)) == Code(c, k)
  {
    AcceptableLevels(c, Len(c, k));
    ValToBits(Code(c, k), Len(c, k));
  }

  lemma WindowInterval(c: Counts, k: nat, w: Bitstring)
    requires Acceptable(c) && k < Total(c) && |w| == 16
    ensures StartsWith(w, CodeBits(c, k)) <==> Start(c, k) <= Val(w) < End(c, k)
  {
    hide ToBits, Val, Shl, Code, Num, Top;
    CodeFits(c, k);
    PrefixInterval(w, CodeBits(c, k));
  }

  /** Accepted codes are prefix-free. */
  lemma PrefixFree(c: Counts, i: nat, k: nat, w: Bitstring)
    requires Acceptable(c) && i < Total(c) && k < Total(c)
    requires StartsWith(w, CodeBits(c, i)) && StartsWith(w, CodeBits(c, k))
    ensures i == k
  {
    var v := Pad16(w);
    assert StartsWith(v, CodeBits(c, i)) && StartsWith(v, CodeBits(c, k));
    WindowInterval(c, i, v);
    WindowInterval(c, k, v);
    if i < k {
      IntervalsOrdered(c, i, k);
    } else if k < i {
      IntervalsOrdered(c, k, i);
    }
  }

  function Pad16(w: Bitstring): (r: Bitstring)
    ensures |r| == 16
    ensures forall n :: 0 <= n <= 16 && n <= |w| ==> r[..n] == w[..n]
  {
    (w + Zeros(16))[..16]
  }

  /** The symbol that a search of the levels finds for a window. */
  function SymbolAt(c: Counts, j: nat, w: Bitstring): int
    requires 1 <= j <= 16 && |w| == 16
  {
    Num(c, j - 1) + Val(w[..j]) - 2 * Top(c, j - 1)
  }

  lemma LevelSearch(c: Counts, j: nat, w: Bitstring)
    requires Acceptable(c) && 1 <= j <= 16 && |w| == 16
    requires Limit(c, j - 1) <= Val(w) < Limit(c, j)
    ensures 0 <= SymbolAt(c, j, w) < Total(c)
    ensures Len(c, SymbolAt(c, j, w)) == j
    ensures Val(w[..j]) == Code(c, SymbolAt(c, j, w))
    ensures StartsWith(w, CodeBits(c, SymbolAt(c, j, w)))
  {
    hide Shl, Val;
    var p := w[..j];
    PrefixInterval(w, p);
    LimitStep(c, j);
    ShlFacts(Top(c, j), Val(p), 16 - j);
    ShlFacts(Val(p) + 1, 2 * Top(c, j - 1), 16 - j);
    LenUnique(c, SymbolAt(c, j, w), j);
    ToBitsVal(p);
  }

  /** The codes tile [0, Limit(16)): every window below the limit has its level. */
  lemma {:induction false} FindLevel(c: Counts, v: nat, j: nat) returns (l: nat)
    requires j <= 16 && v < Limit(c, j)
    ensures 1 <= l <= j && Limit(c, l - 1) <= v < Limit(c, l)
  {
    if j == 0 {
      ShlOne(16);
      assert false;
    } else if v < Limit(c, j - 1) {
      l := FindLevel(c, v, j - 1);
    } else {
      l := j;
    }
  }

  /** Accepted codes tile the windows below the last limit: such a window
      begins with exactly one code, any other with none. */
  lemma CodesTile(c: Counts, w: Bitstring)
    requires Acceptable(c) && |w| == 16
    ensures Val(w) < Limit(c, 16) <==> exists k: nat :: k < Total(c) && StartsWith(w, CodeBits(c, k))
    ensures forall i: nat, k: nat :: i < Total(c) && k < Total(c) && StartsWith(w, CodeBits(c, i)) && StartsWith(w, CodeBits(c, k)) ==> i == k
  {
    hide Val, Len, LenFrom, Total, Acceptable, CodeBits;
    if Val(w) < Limit(c, 16) {
      var l := FindLevel(c, Val(w), 16);
      LevelSearch(c, l, w);
    }
    forall k: nat | k < Total(c) && StartsWith(w, CodeBits(c, k))
      ensures Val(w) < Limit(c, 16)
    {
      WindowInterval(c, k, w);
      IntervalWithinLevel(c, k);
      LimitMono(c, Len(c, k), 16);
    }
    forall i: nat, k: nat | i < Total(c) && k < Total(c) && StartsWith(w, CodeBits(c, i)) && StartsWith(w, CodeBits(c, k))
      ensures i == k
    {
      PrefixFree(c, i, k, w);
    }
  }

  // ----- the DECODE procedure of section F.2.2.3 -----

  datatype Symbol =
    | Found(index: nat, next: nat)   // symbol number and position after its code
    | NoCode                         // sixteen bits read, no code matches
    | Short                          // the stream ends first

  /** Read bits one at a time; len bits with value code have been read so far
      and none of their prefixes is a code. */
  function DecodeFrom(c: Counts, src: Bitstring, at: nat, len: nat, code: nat): Symbol
    requires len <= 16 && code >= Top(c, len)
    decreases 16 - len
  {
    if len == 16 then NoCode
    else if at + len >= |src| then Short
    else
      var code' := 2 * code + BitOf(src[at + len]);
      if code' < Top(c, len + 1)
      then Found(Num(c, len) + code' - 2 * Top(c, len), at + len + 1)
      else DecodeFrom(c, src, at, len + 1, code')
  }

  function Decode(c: Counts, src: Bitstring, at: nat): Symbol
  {
    DecodeFrom(c, src, at, 0, 0)
  }

  /** The len bits of the stream that start at position at. */
  function Window(src: Bitstring, at: nat, len: nat): (r: Bitstring)
    requires at + len <= |src|
    ensures |r| == len
  {
    src[at..at + len]
  }

  lemma WindowStep(src: Bitstring, at: nat, len: nat)
    requires at + len < |src|
    ensures Val(Window(src, at, len + 1)) == 2 * Val(Window(src, at, len)) + BitOf(src[at + len])
  {
    assert Window(src, at, len + 1)[..len] == Window(src, at, len);
  }

  /** Code k is written at position at. */
  ghost predicate Matches(c: Counts, k: nat, src: Bitstring, at: nat)
  {
    && k < Total(c)
    && at + Len(c, k) <= |src|
    && Window(src, at, Len(c, k)) == CodeBits(c, k)
  }

  /** No proper prefix of a code is below the limit of its own length. */
  lemma {:induction false} PrefixAboveTop(c: Counts, k: nat, len: nat)
    requires Acceptable(c) && k < Total(c) && len < Len(c, k)
    ensures Val(CodeBits(c, k)[..len]) >= Top(c, len)
  {
    hide ToBits, Val, Len, LenFrom, Total, Acceptable, Shl, Top;
    var p := CodeBits(c, k)[..len];
    var d := Len(c, k) - len;
    CodeFits(c, k);
    PrefixInterval(CodeBits(c, k), p);
    assert Code(c, k) < Shl(Val(p) + 1, d);
    TopGrows(c, len, Len(c, k) - 1);
    Doubled(Top(c, len), d);
    assert Shl(Top(c, len), d) <= Code(c, k);
    ShlFacts(Val(p) + 1, Top(c, len), d);
  }

  lemma Doubled(v: int, n: nat)
    requires n > 0
    ensures Shl(v, n) == 2 * Shl(v, n - 1)
  {
  }

  lemma {:induction false} TopGrows(c: Counts, i: nat, j: nat)
    requires i <= j <= 16
    ensures Shl(Top(c, i), j - i) <= Top(c, j)
  {
    if i < j {
      TopGrows(c, i, j - 1);
    }
  }

  lemma {:induction false} DecodeFinds(c: Counts, k: nat, src: Bitstring, at: nat, len: nat)
    requires Acceptable(c) && Matches(c, k, src, at) && len < Len(c, k)
    ensures Val(Window(src, at, len)) >= Top(c, len)
    ensures DecodeFrom(c, src, at, len, Val(Window(src, at, len))) == Found(k, at + Len(c, k))
    decreases Len(c, k) - len
  {
    hide Val, ToBits, Pow2, Acceptable, Total, Len, LenFrom, Kraft;
    assert Window(src, at, len) == CodeBits(c, k)[..len];
    PrefixAboveTop(c, k, len);
    WindowStep(src, at, len);
    if len + 1 < Len(c, k) {
      DecodeFinds(c, k, src, at, len + 1);
    } else {
      CodeFits(c, k);
    }
  }

  lemma LevelStep(c: Counts, len: nat)
    requires len < 16
    ensures Num(c, len + 1) == Num(c, len) + c[len] && Top(c, len + 1) == 2 * Top(c, len) + c[len]
  {
  }

  /** A prefix below the limit of its length is a code. */
  lemma CodeFound(c: Counts, src: Bitstring, at: nat, len: nat)
    requires len < 16 && at + len < |src|
    requires 2 * Top(c, len) <= Val(Window(src, at, len + 1)) < Top(c, len + 1)
    ensures var k := Num(c, len) + Val(Window(src, at, len + 1)) - 2 * Top(c, len);
            Matches(c, k, src, at) && Len(c, k) == len + 1
  {
    hide Val, ToBits, Total, Len, LenFrom, Num, Top;
    var w := Window(src, at, len + 1);
    LevelStep(c, len);
    LenUnique(c, Num(c, len) + Val(w) - 2 * Top(c, len), len + 1);
    ToBitsVal(w);
  }

  lemma {:induction false} DecodeOutcome(c: Counts, src: Bitstring, at: nat, len: nat)
    requires Acceptable(c) && len <= 16 && at + len <= |src|
    requires Val(Window(src, at, len)) >= Top(c, len)
    ensures var d := DecodeFrom(c, src, at, len, Val(Window(src, at, len)));
            && (d.Found? ==> Matches(c, d.index, src, at) && d.next == at + Len(c, d.index))
            && (d.NoCode? ==> at + 16 <= |src|)
            && (d.Short? ==> |src| < at + 16)
    decreases 16 - len
  {
    hide Val, Acceptable, Len, LenFrom, Num, Top, Window, Matches;
    if len < 16 && at + len < |src| {
      WindowStep(src, at, len);
      if Val(Window(src, at, len + 1)) < Top(c, len + 1) {
        CodeFound(c, src, at, len);
      } else {
        DecodeOutcome(c, src, at, len + 1);
      }
    }
  }

  /** DECODE finds symbol k exactly when k's code is the next thing in the
      stream; it reports NoCode exactly when sixteen bits are there and no
      code matches them. */
  lemma DecodeIsCanonical(c: Counts, src: Bitstring, at: nat)
    requires Acceptable(c)
    ensures forall k :: Matches(c, k, src, at) ==> Decode(c, src, at) == Found(k, at + Len(c, k))
    ensures Decode(c, src, at).Found? ==>
              Matches(c, Decode(c, src, at).index, src, at)
              && Decode(c, src, at).next == at + Len(c, Decode(c, src, at).index)
    ensures Decode(c, src, at).NoCode? <==>
              at + 16 <= |src| && forall k :: !Matches(c, k, src, at)
    ensures Decode(c, src, at).Short? <==>
              |src| < at + 16 && forall k :: !Matches(c, k, src, at)
  {
    if at <= |src| {
      assert Val(Window(src, at, 0)) == 0;
      DecodeOutcome(c, src, at, 0);
    }
    forall k | Matches(c, k, src, at)
      ensures Decode(c, src, at) == Found(k, at + Len(c, k))
    {
      DecodeFinds(c, k, src, at, 0);
    }
  }

  // ----- streams that continue with zero bits -----

  /** Bit i of the stream, which reads as zeros past its end. */
  function PadBit(src: Bitstring, i: nat): bool
  {
    i < |src| && src[i]
  }

  function PadWindow(src: Bitstring, at: nat, n: nat): (r: Bitstring)
    ensures |r| == n
    ensures forall i :: 0 <= i < n ==> r[i] == PadBit(src, at + i)
  {
    seq(n, i requires 0 <= i => PadBit(src, at + i))
  }

  /** Past the end of the stream there are only zeros. */
  lemma PaddedWithZeros(src: Bitstring, at: nat, n: nat, i: nat)
    requires i < n
    ensures PadWindow(src, at, n)[i] == (at + i < |src| && src[at + i])
  {
  }

  lemma PaddedMatch(c: Counts, k: nat, src: Bitstring, at: nat)
    requires k < Total(c)
    ensures at + Len(c, k) <= |src| ==>
              (StartsWith(PadWindow(src, at, 16), CodeBits(c, k)) <==> Matches(c, k, src, at))
  {
    hide Len, LenFrom, Total, CodeBits;
    if at + Len(c, k) <= |src| {
      assert PadWindow(src, at, 16)[..Len(c, k)] == Window(src, at, Len(c, k));
    }
  }

  /** If the zero-padded stream starts with code k, DECODE finds k when the
      code lies inside the real stream and runs short otherwise. */
  lemma PaddedDecode(c: Counts, k: nat, src: Bitstring, at: nat)
    requires Acceptable(c) && k < Total(c) && StartsWith(PadWindow(src, at, 16), CodeBits(c, k))
    ensures Decode(c, src, at) == if at + Len(c, k) <= |src| then Found(k, at + Len(c, k)) else Short
  {
    hide Len, LenFrom, Total, CodeBits, Acceptable, DecodeFrom, Decode;
    DecodeIsCanonical(c, src, at);
    PaddedMatch(c, k, src, at);
    var d := Decode(c, src, at);
    if d.Found? {
      PaddedMatch(c, d.index, src, at);
      PrefixFree(c, k, d.index, PadWindow(src, at, 16));
    }
  }

  lemma PaddedNoCode(c: Counts, src: Bitstring, at: nat)
    requires Acceptable(c) && Limit(c, 16) <= Val(PadWindow(src, at, 16))
    ensures !Decode(c, src, at).Found?
  {
    hide Len, LenFrom, CodeBits, Acceptable, DecodeFrom, Decode, Val, Limit, Total;
    DecodeIsCanonical(c, src, at);
    CodesTile(c, PadWindow(src, at, 16));
    var d := Decode(c, src, at);
    if d.Found? {
      PaddedMatch(c, d.index, src, at);
    }
  }
}
