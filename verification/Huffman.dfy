/** The decoder's Huffman table object and the routine that fills it. */
module Huffman {
  import opened Bits
  import opened Canonical

  const FAST_BITS: nat := 9

  type Symbols = s: seq<Byte> | |s| == 256 witness seq(256, _ => 0)

  /** A Huffman code: code-length counts and the symbol of each code. */
  datatype HuffCode = HuffCode(counts: Counts, values: Symbols) {
    /** The decoder's tables can hold the code without the blind spot that a
        short code for symbol number 255 would have. */
    ghost predicate Safe()
    {
      && Acceptable(counts)
      && (Total(counts) == 256 ==> Len(counts, 255) > 9)
    }
  }

  /** 9-bit prefixes that begin with the code of symbol k. */
  ghost predicate InFastRange(c: Counts, k: nat, x: int)
  {
    && k < Total(c)
    && Len(c, k) <= FAST_BITS
    && Shl(Code(c, k), FAST_BITS - Len(c, k)) <= x < Shl(Code(c, k) + 1, FAST_BITS - Len(c, k))
  }

  /** What a cell of the acceleration table holds once the first n symbols
      have been entered: a symbol whose code begins the index, or 255. */
  ghost predicate FastCell(c: Counts, n: nat, x: int, cell: int)
  {
    && 0 <= cell <= 255
    && (cell < 255 ==> cell < n && InFastRange(c, cell, x))
    && (cell == 255 ==> forall k :: 0 <= k < n && k < 255 ==> !InFastRange(c, k, x))
  }

  class Table {
    const fast: array<int>
    const code: array<int>
    const values: array<Byte>
    const size: array<int>
    const maxcode: array<int>
    const delta: array<int>

    ghost predicate Shape()
    {
      && fast.Length == 512 && code.Length == 256 && values.Length == 256
      && size.Length == 257 && maxcode.Length == 18 && delta.Length == 17
      && code != fast && code != size && code != maxcode && code != delta
      && fast != size && fast != maxcode && fast != delta
      && size != maxcode && size != delta && maxcode != delta
    }

    constructor ()
      ensures Shape() && fresh(fast) && fresh(code) && fresh(values) && fresh(size) && fresh(maxcode) && fresh(delta)
    {
      fast := new int[512];
      code := new int[256];
      values := new Byte[256];
      size := new int[257];
      maxcode := new int[18];
      delta := new int[17];
    }

    ghost predicate SizesBuilt(c: Counts, n: nat)
      reads size
    {
      size.Length == 257 && n <= Total(c) && n <= 256
      && forall k :: 0 <= k < n ==> size[k] == Len(c, k)
    }

    ghost predicate LevelsBuilt(c: Counts, j: nat)
      reads maxcode, delta
    {
      maxcode.Length == 18 && delta.Length == 17 && j <= 16
      && forall i :: 1 <= i <= j ==>
           maxcode[i] == Limit(c, i) && delta[i] == Num(c, i - 1) - 2 * Top(c, i - 1)
    }

    ghost predicate CodesBuilt(c: Counts, n: nat)
      reads code
    {
      code.Length == 256 && n <= Total(c) && n <= 256
      && forall k :: 0 <= k < n ==> code[k] == Code(c, k) % 65536
    }

    ghost predicate FastBuilt(c: Counts, n: nat)
      reads fast
    {
      fast.Length == 512 && forall x :: 0 <= x < 512 ==> FastCell(c, n, x, fast[x])
    }

    /** The table holds the canonical code of the counts c. */
    ghost predicate Built(c: Counts)
      reads size, maxcode, delta, code, fast
    {
      && Shape() && Acceptable(c)
      && SizesBuilt(c, Total(c))
      && LevelsBuilt(c, 16) && maxcode[17] == 0xffff_ffff
      && CodesBuilt(c, Total(c))
      && FastBuilt(c, Total(c))
    }

    /** The table was built from the given Huffman code. */
    ghost predicate Represents(code: HuffCode)
      reads size, maxcode, delta, this.code, fast, values
    {
      Built(code.counts) && values[..] == code.values
    }

    /** The table decodes the given Huffman code. */
    ghost predicate Realizes(code: HuffCode)
      reads size, maxcode, delta, this.code, fast, values
    {
      Represents(code) && code.Safe()
    }

    /** The size list: how many times each length occurs, in order. */
    method BuildSizes(c: Counts) returns (ok: bool)
      requires Shape()
      modifies size
      ensures ok <==> Total(c) <= 256
      ensures ok ==> SizesBuilt(c, Total(c)) && size[Total(c)] == 0
    {
      var k := 0;
      for i := 0 to 16
        invariant k == Num(c, i) <= 256 && SizesBuilt(c, k)
      {
        for j := 0 to c[i]
          invariant k == Num(c, i) + j <= 256 && SizesBuilt(c, k)
        {
          LenUnique(c, k, i + 1);
          size[k] := i + 1;
          k := k + 1;
          if k >= 257 {
            NumMono(c, i + 1, 16);
            return false;
          }
        }
      }
      size[k] := 0;
      return true;
    }

    /** Which length the size list shows at position k. */
    lemma SizeListLevel(c: Counts, j: nat, k: nat)
      requires 1 <= j <= 16 && Num(c, j - 1) <= k <= Num(c, j) && Total(c) <= 256
      requires SizesBuilt(c, Total(c)) && size[Total(c)] == 0
      ensures k <= Total(c)
      ensures size[k] == j <==> k < Num(c, j)
    {
      NumMono(c, j, 16);
      if k < Num(c, j) {
        LenUnique(c, k, j);
      } else if k < Total(c) && Len(c, k) <= j {
        NumMono(c, Len(c, k), j);
      }
    }

    /** Assign the codes of each length, with the preshifted limits and the
        offset from code to symbol number. */
    method BuildCodes(c: Counts) returns (ok: bool)
      requires Shape() && Total(c) <= 256
      requires SizesBuilt(c, Total(c)) && size[Total(c)] == 0
      modifies code, maxcode, delta
      ensures ok <==> Kraft(c, 16) <= Pow2(16)
      ensures ok ==> LevelsBuilt(c, 16) && maxcode[17] == 0xffff_ffff && CodesBuilt(c, Total(c))
    {
      hide Len, LenFrom, Shl, Kraft, Acceptable, Code, Num, Top, Total, Pow2;
      var k, next := 0, 0;
      NoLevel(c);
      for j := 1 to 17
        invariant k == Num(c, j - 1) <= Total(c) && next == 2 * Top(c, j - 1)
        invariant Top(c, j - 1) <= Pow2(j - 1)
        invariant LevelsBuilt(c, j - 1) && CodesBuilt(c, k)
        invariant SizesBuilt(c, Total(c)) && size[Total(c)] == 0
      {
        ok, k, next := OneLevel(c, j, k, next);
        if !ok {
          return;
        }
      }
      maxcode[17] := 0xffff_ffff;
      LastLevelFits(c);
      TotalIs(c);
      return true;
    }

    /** The codes of one length, their limit and their offset; fails when they do
        not fit the length. */
    method OneLevel(c: Counts, j: nat, k0: nat, next0: nat) returns (ok: bool, k: nat, next: nat)
      requires Shape() && Total(c) <= 256 && 1 <= j <= 16
      requires SizesBuilt(c, Total(c)) && size[Total(c)] == 0
      requires k0 == Num(c, j - 1) <= Total(c) && next0 == 2 * Top(c, j - 1) && Top(c, j - 1) <= Pow2(j - 1)
      requires LevelsBuilt(c, j - 1) && CodesBuilt(c, k0)
      modifies code, maxcode, delta
      ensures ok <==> Top(c, j) <= Pow2(j)
      ensures !ok ==> Kraft(c, 16) > Pow2(16)
      ensures ok ==> k == Num(c, j) <= Total(c) && next == 2 * Top(c, j) && LevelsBuilt(c, j) && CodesBuilt(c, k)
    {
      hide Len, LenFrom, Shl, Kraft, Acceptable, Code, Num, Top, Total, Pow2;
      k, next := k0, next0;
      delta[j] := k - next;
      LevelFacts(c, j);
      SizeListLevel(c, j, k);
      if size[k] == j {
        k, next := AssignLevel(c, j, k, next);
        if next - 1 >= Pow2(j) {
          OverflowRejects(c, j);
          return false, k, next;
        }
      }
      maxcode[j] := Shl(next, 16 - j);
      next := next * 2;
      ok := true;
    }

    method AssignLevel(c: Counts, j: nat, k0: nat, next0: nat) returns (k: nat, next: nat)
      requires Shape() && Total(c) <= 256 && 1 <= j <= 16
      requires SizesBuilt(c, Total(c)) && size[Total(c)] == 0
      requires k0 == Num(c, j - 1) && next0 == 2 * Top(c, j - 1) && CodesBuilt(c, k0)
      modifies code
      ensures k == Num(c, j) <= Total(c) && next == Top(c, j) && CodesBuilt(c, k)
    {
      hide LenFrom, Total;
      k, next := k0, next0;
      SizeListLevel(c, j, k);
      while size[k] == j
        invariant Num(c, j - 1) <= k <= Num(c, j) && k <= Total(c)
        invariant next == 2 * Top(c, j - 1) + k - Num(c, j - 1)
        invariant CodesBuilt(c, k)
        invariant size[k] == j <==> k < Num(c, j)
        decreases Num(c, j) - k
      {
        LenUnique(c, k, j);
        code[k] := next % 65536;
        k, next := k + 1, next + 1;
        SizeListLevel(c, j, k);
      }
    }

    /** Fill the 9-bit acceleration table from the codes. */
    method BuildFast(c: Counts)
      requires Shape() && Acceptable(c)
      requires SizesBuilt(c, Total(c)) && CodesBuilt(c, Total(c))
      modifies fast
      ensures FastBuilt(c, Total(c))
    {
      hide Len, LenFrom, Shl, Acceptable, Code, Total;
      for x := 0 to 512
        invariant forall y :: 0 <= y < x ==> fast[y] == 255
      {
        fast[x] := 255;
      }
      for i := 0 to Total(c)
        invariant FastBuilt(c, i)
        invariant SizesBuilt(c, Total(c)) && CodesBuilt(c, Total(c))
      {
        EnterFast(c, i);
      }
    }

    /** Enter symbol i into every cell whose index begins with its code. */
    method EnterFast(c: Counts, i: nat)
      requires Shape() && Acceptable(c) && i < Total(c)
      requires SizesBuilt(c, Total(c)) && CodesBuilt(c, Total(c)) && FastBuilt(c, i)
      modifies fast
      ensures FastBuilt(c, i + 1)
    {
      hide LenFrom, Acceptable, Code, Total;
      var s := size[i];
      if s <= FAST_BITS {
        FastRangeFits(c, i);
        ghost var before := fast[..];
        var lo := Shl(code[i], FAST_BITS - s);
        var m := Shl(1, FAST_BITS - s);
        for j := 0 to m
          invariant forall x :: 0 <= x < 512 ==> fast[x] == if lo <= x < lo + j then i % 256 else before[x]
        {
          fast[lo + j] := i % 256;
        }
        forall x | 0 <= x < 512 ensures FastCell(c, i + 1, x, fast[x]) {
          forall k: nat | k < 255 && InFastRange(c, k, x) && InFastRange(c, i, x) ensures k == i {
            FastRangesDisjoint(c, i, k, x);
          }
        }
      }
    }

    /** The whole table builder: it accepts the counts exactly when there are
        at most 256 symbols and Kraft's inequality holds, and an accepted
        table is the canonical one. */
    method Build(c: Counts) returns (ok: bool)
      requires Shape()
      modifies size, code, maxcode, delta, fast
      ensures ok <==> Acceptable(c)
      ensures ok ==> Built(c)
    {
      hide Len, LenFrom, Shl, Total, Kraft, Num, Top, Pow2;
      ok := BuildSizes(c);
      if ok {
        ok := BuildCodes(c);
        if ok {
          BuildFast(c);
        }
      }
    }
  }

  lemma NoLevel(c: Counts)
    ensures Num(c, 0) == 0 && Top(c, 0) == 0 && Pow2(0) == 1
  {
  }

  /** A length without symbols only doubles the next code. */
  lemma LevelFacts(c: Counts, j: nat)
    requires 1 <= j <= 16
    ensures Num(c, j - 1) <= Num(c, j) <= Total(c) && Pow2(j) == 2 * Pow2(j - 1)
    ensures Num(c, j) == Num(c, j - 1) ==> Top(c, j) == 2 * Top(c, j - 1)
  {
    hide Total;
    NumMono(c, j, 16);
    TotalIs(c);
  }

  lemma TotalIs(c: Counts)
    ensures Total(c) == Num(c, 16)
  {
  }

  lemma LastLevelFits(c: Counts)
    requires Top(c, 16) <= Pow2(16)
    ensures Kraft(c, 16) <= Pow2(16)
  {
    hide Top, Pow2, Kraft;
    KraftIsLimit(c, 16);
    TopFits(c, 16);
  }

  lemma FastRangeFits(c: Counts, k: nat)
    requires Acceptable(c) && k < Total(c) && Len(c, k) <= FAST_BITS
    ensures Code(c, k) < 65536
    ensures 0 <= Shl(Code(c, k), FAST_BITS - Len(c, k))
    ensures Shl(1, FAST_BITS - Len(c, k)) >= 0
    ensures Shl(Code(c, k) + 1, FAST_BITS - Len(c, k)) == Shl(Code(c, k), FAST_BITS - Len(c, k)) + Shl(1, FAST_BITS - Len(c, k)) <= 512
  {
    hide Len, LenFrom, Acceptable, Code, Total, CodeBits, Shl;
    var l := Len(c, k);
    CodeFits(c, k);
    ShlFacts(Code(c, k), 1, 9 - l);
    ShlFacts(0, Code(c, k), 9 - l);
    ShlOne(9 - l);
    ShlFacts(Code(c, k) + 1, Pow2(l), 9 - l);
    ShlOne(l);
    ShlShl(1, l, 9 - l);
    ShlOne(9);
    Pow2Mono(l, 9);
  }

  /** The 9-bit ranges are the 16-bit code intervals, seen seven bits higher. */
  lemma FastRangeScaled(c: Counts, k: nat, x: int)
    requires InFastRange(c, k, x)
    ensures Start(c, k) <= Shl(x, 7) < End(c, k)
  {
    hide LenFrom, Len, Code, Total, Shl;
    var n := FAST_BITS - Len(c, k);
    ShlFacts(Shl(Code(c, k), n), x, 7);
    ShlFacts(x, Shl(Code(c, k) + 1, n), 7);
    ShlShl(Code(c, k), n, 7);
    ShlShl(Code(c, k) + 1, n, 7);
  }

  lemma FastRangesDisjoint(c: Counts, i: nat, k: nat, x: int)
    requires InFastRange(c, i, x) && InFastRange(c, k, x)
    ensures i == k
  {
    FastRangeScaled(c, i, x);
    FastRangeScaled(c, k, x);
    if i < k {
      IntervalsOrdered(c, i, k);
    } else if k < i {
      IntervalsOrdered(c, k, i);
    }
  }

  /** A window is in a symbol's 9-bit range exactly when it starts with the
      symbol's code and that code has at most nine bits. */
  lemma FastRangeIsPrefix(c: Counts, k: nat, w: Bitstring)
    requires Acceptable(c) && k < Total(c) && |w| >= 9
    ensures InFastRange(c, k, Val(w[..9])) <==> Len(c, k) <= 9 && StartsWith(w, CodeBits(c, k))
  {
    hide Len, LenFrom, Code, Total, Shl, Acceptable, Val;
    if Len(c, k) <= 9 {
      CodeFits(c, k);
      PrefixInterval(w[..9], CodeBits(c, k));
      assert w[..9][..Len(c, k)] == w[..Len(c, k)];
    }
  }

  /** The last of 256 symbols cannot be entered in the acceleration table when
      its code is short, because its number is the "not accelerated" flag. */
  ghost predicate Blind(c: Counts, w: Bitstring)
  {
    Total(c) == 256 && Len(c, 255) <= 9 && StartsWith(w, CodeBits(c, 255))
  }

  /** An unaccelerated window that is not blind holds no code of nine bits or
      fewer, so the level search may start at ten. */
  lemma FastMiss(c: Counts, w: Bitstring, cell: int)
    requires Acceptable(c) && |w| == 16 && cell == 255
    requires FastCell(c, Total(c), Val(w[..9]), cell) && !Blind(c, w)
    ensures Limit(c, 9) <= Val(w)
  {
    hide Len, LenFrom, Code, Shl, Val, Num, Top, CodeBits;
    if Val(w) < Limit(c, 9) {
      var l := FindLevel(c, Val(w), 9);
      LevelSearch(c, l, w);
      FastRangeIsPrefix(c, SymbolAt(c, l, w), w);
    }
  }

  /** 255 codes of eight bits and one of nine. */
  function HidingCounts(): Counts
  {
    [0, 0, 0, 0, 0, 0, 0, 255, 1, 0, 0, 0, 0, 0, 0, 0]
  }

  /** A table with a hidden symbol exists, and its counts fit the bytes of a
      file: it is accepted, and windows that begin with the code of symbol 255 are
      blind. */
  lemma HiddenSymbolExists(values: Symbols) returns (w: Bitstring)
    ensures var c := HidingCounts();
            && Acceptable(c) && Total(c) == 256 && Len(c, 255) == 9
            && (forall i :: 0 <= i < 16 ==> c[i] < 256)
            && !HuffCode(c, values).Safe() && |w| == 16 && Blind(c, w)
  {
    hide Len, LenFrom, CodeBits, Acceptable;
    var c := HidingCounts();
    HidingSums();
    LenUnique(c, 255, 9);
    w := CodeBits(c, 255) + Zeros(7);
    assert w[..9] == CodeBits(c, 255);
  }

  lemma HidingSums()
    ensures var c := HidingCounts();
            && Num(c, 8) == 255 && Num(c, 9) == 256 && Total(c) == 256 && Acceptable(c)
  {
    hide Shl;
    var c := HidingCounts();
    assert Num(c, 7) == 0 && Kraft(c, 7) == 0 by { NoCodes(c, 7); }
    assert Shl(255, 8) == 255 * 256 && Shl(1, 7) == 128 by { HidingShifts(); }
    assert Num(c, 9) == 256 && Kraft(c, 9) == 255 * 256 + 128;
    assert Num(c, 16) == 256 && Kraft(c, 16) == 255 * 256 + 128 by { NoMoreCodes(c, 9, 16); }
    Powers();
  }

  lemma {:induction false} NoCodes(c: Counts, j: nat)
    requires c == HidingCounts() && j <= 7
    ensures Num(c, j) == 0 && Kraft(c, j) == 0
  {
    if j > 0 {
      NoCodes(c, j - 1);
      ShlOne(16 - j);
    }
  }

  lemma {:induction false} NoMoreCodes(c: Counts, i: nat, j: nat)
    requires c == HidingCounts() && 9 <= i <= j <= 16
    ensures Num(c, j) == Num(c, i) && Kraft(c, j) == Kraft(c, i)
  {
    if i < j {
      NoMoreCodes(c, i, j - 1);
      ShlOne(16 - j);
    }
  }

  lemma HidingShifts()
    ensures Shl(255, 8) == 255 * 256 && Shl(1, 7) == 128
  {
    assert Shl(255, 4) == 255 * 16;
    assert Shl(1, 4) == 16;
  }
}
