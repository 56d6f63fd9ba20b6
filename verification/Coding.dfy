/** The encoder's side of section F.1.2: magnitude categories, Huffman codes of
    symbols, and whole sequential blocks.  Decoding undoes it. */
module Coding {
  import opened Wrappers
  import opened Bits
  import opened Canonical
  import opened Huffman
  import opened BitReader
  import opened FastAc
  import opened Machine
  import opened Zigzag
  import opened Block

  // ----- places in a stream -----

  predicate Here(src: Bitstring, at: nat, b: Bitstring)
  {
    at + |b| <= |src| && Window(src, at, |b|) == b
  }

  lemma HereConcat(src: Bitstring, at: nat, a: Bitstring, b: Bitstring)
    ensures Here(src, at, a + b) <==> Here(src, at, a) && Here(src, at + |a|, b)
  {
    if at + |a| + |b| <= |src| {
      var w := Window(src, at, |a + b|);
      assert w[..|a|] == Window(src, at, |a|);
      assert w[|a|..] == Window(src, at + |a|, |b|);
      assert (a + b)[..|a|] == a && (a + b)[|a|..] == b;
      assert w == w[..|a|] + w[|a|..];
    }
  }

  // ----- magnitudes -----

  /** Number of bits of n: the magnitude category SSSS. */
  function NBits(n: nat): nat
  {
    if n == 0 then 0 else 1 + NBits(n / 2)
  }

  lemma {:induction false} NBitsBounds(n: nat)
    ensures n < Pow2(NBits(n))
    ensures n > 0 ==> NBits(n) >= 1 && Pow2(NBits(n) - 1) <= n
  {
    if n > 0 {
      NBitsBounds(n / 2);
    }
  }

  /** The additional bits that tell a value from the others of its category. */
  function Mag(v: int): (r: Bitstring)
    ensures |r| == NBits(Abs(v))
  {
    var s := NBits(Abs(v));
    NBitsBounds(Abs(v));
    ToBits(if v >= 0 then v else v + Pow2(s) - 1, s)
  }

  /** Sign extension undoes the choice of additional bits. */
  lemma MagExtend(v: int)
    requires v != 0
    ensures |Mag(v)| >= 1 && Extend(Val(Mag(v)), |Mag(v)|) == v
  {
    hide Val, ToBits;
    var s := NBits(Abs(v));
    NBitsBounds(Abs(v));
    ValToBits(if v >= 0 then v else v + Pow2(s) - 1, s);
  }

  // ----- symbols -----

  function FindFrom(code: HuffCode, sym: int, k: nat): (r: Option<nat>)
    ensures r.Some? ==> r.value < Total(code.counts) && r.value < 256 && code.values[r.value] == sym
    decreases 256 - k
  {
    if k >= 256 || k >= Total(code.counts) then None
    else if code.values[k] == sym then Some(k)
    else FindFrom(code, sym, k + 1)
  }

  /** The code of a symbol, if the table has it. */
  function Put(code: HuffCode, sym: int): Option<Bitstring>
  {
    var k := FindFrom(code, sym, 0);
    if k.None? then None else Some(CodeBits(code.counts, k.value))
  }

  lemma PutDecodes(code: HuffCode, sym: int, src: Bitstring, at: nat) returns (k: nat)
    requires code.Safe() && Put(code, sym).Some? && Here(src, at, Put(code, sym).value)
    ensures k < 256 && code.values[k] == sym
    ensures Decode(code.counts, src, at) == Found(k, at + |Put(code, sym).value|)
  {
    hide Total, Len, LenFrom, Decode, DecodeFrom, CodeBits, Acceptable;
    k := FindFrom(code, sym, 0).value;
    DecodeIsCanonical(code.counts, src, at);
    assert Matches(code.counts, k, src, at);
  }

  function Join(a: Option<Bitstring>, b: Option<Bitstring>): Option<Bitstring>
  {
    if a.Some? && b.Some? then Some(a.value + b.value) else None
  }

  /** A symbol with run r, followed by the additional bits of v. */
  function PutCoef(code: HuffCode, r: nat, v: int): Option<Bitstring>
  {
    if NBits(Abs(v)) > 15 then None else Join(Put(code, 16 * r + NBits(Abs(v))), Some(Mag(v)))
  }

  lemma ZeroSteps(code: HuffCode, r: nat, src: Bitstring, at: nat)
    requires code.Safe() && r <= 15
    requires Put(code, 16 * r).Some? && Here(src, at, Put(code, 16 * r).value)
    ensures ReadStep(code, src, at) == Zero(r, at + |Put(code, 16 * r).value|)
  {
    hide Decode, Total, Acceptable, Val, Put;
    var k := PutDecodes(code, 16 * r, src, at);
  }

  lemma CoefSteps(code: HuffCode, r: nat, v: int, src: Bitstring, at: nat)
    requires code.Safe() && r <= 15 && v != 0
    requires PutCoef(code, r, v).Some? && Here(src, at, PutCoef(code, r, v).value)
    ensures ReadStep(code, src, at) == Coef(r, v, at + |PutCoef(code, r, v).value|)
  {
    hide Decode, Total, Acceptable, Val, NBits, Put, Extend, Mag, Window;
    var s := NBits(Abs(v));
    MagExtend(v);
    var p := Put(code, 16 * r + s).value;
    HereConcat(src, at, p, Mag(v));
    var k := PutDecodes(code, 16 * r + s, src, at);
    Split16(r, s);
  }

  // ----- runs of coefficients -----

  /** Length of the run of zeros at position k of the zigzag order, up to e. */
  function ZeroRun(zz: Cells, k: nat, e: nat): (r: nat)
    requires k <= e <= 64
    ensures k + r <= e && (k + r < e ==> zz[k + r] != 0)
    ensures forall i :: k <= i < k + r ==> zz[i] == 0
    decreases e - k
  {
    if k == e || zz[k] != 0 then 0 else 1 + ZeroRun(zz, k + 1, e)
  }

  /** Runs and values from k up to e; eob is what ends a block whose last
      coefficients are zero. */
  function EncodeAc(code: HuffCode, zz: Cells, k: nat, e: nat, eob: Option<Bitstring>): Option<Bitstring>
    requires k <= e <= 64
    decreases e - k
  {
    if k == e then Some([]) else
    var r := ZeroRun(zz, k, e);
    if k + r == e then eob
    else if r >= 16 then Join(Put(code, 0xf0), EncodeAc(code, zz, k + 16, e, eob))
    else Join(PutCoef(code, r, zz[k + r]), EncodeAc(code, zz, k + r + 1, e, eob))
  }

  /** Whether a block that is encoded from k on ends in an EOB code. */
  predicate EndsInEob(zz: Cells, k: nat, e: nat)
    requires k <= e <= 64
  {
    k < e && zz[e - 1] == 0
  }

  /** The block with the coefficients from k up to e written to their places. */
  function Fill(cells: Cells, zz: Cells, scale: Scale, k: nat, e: nat): Cells
    requires k <= e <= 64
    decreases e - k
  {
    if k == e then cells
    else if zz[k] == 0 then Fill(cells, zz, scale, k + 1, e)
    else Fill(cells[Zig(k) := scale.Place(zz[k], Zig(k))], zz, scale, k + 1, e)
  }

  lemma {:induction false} FillSkips(cells: Cells, zz: Cells, scale: Scale, k: nat, r: nat, e: nat)
    requires k + r <= e <= 64 && forall i :: k <= i < k + r ==> zz[i] == 0
    ensures Fill(cells, zz, scale, k, e) == Fill(cells, zz, scale, k + r, e)
    decreases r
  {
    if r > 0 {
      FillSkips(cells, zz, scale, k + 1, r - 1, e);
    }
  }

  lemma {:induction false} FillPlaces(cells: Cells, zz: Cells, scale: Scale, k: nat, e: nat, i: nat)
    requires k <= e <= 64 && i < 64
    ensures Fill(cells, zz, scale, k, e)[Zig(i)] ==
              if i < k || i >= e || zz[i] == 0 then cells[Zig(i)] else scale.Place(zz[i], Zig(i))
    decreases e - k
  {
    hide Zig, Zag, Scale.Place;
    if k < e {
      ZigPermutes(i);
      ZigPermutes(k);
      if zz[k] == 0 {
        FillPlaces(cells, zz, scale, k + 1, e, i);
      } else {
        FillPlaces(cells[Zig(k) := scale.Place(zz[k], Zig(k))], zz, scale, k + 1, e, i);
      }
    }
  }

  /** From position k, bit `at` and block `cells`, encoder and decoder both go
      on to position n, bit at' and block cells'. */
  ghost predicate StepsTogether(code: HuffCode, zz: Cells, scale: Scale, e: nat, eob: Option<Bitstring>, src: Bitstring,
                                at: nat, k: nat, cells: Cells, n: nat, at': nat, cells': Cells)
  {
    && k < n <= e <= 64
    && var a, b := EncodeAc(code, zz, k, e, eob), EncodeAc(code, zz, n, e, eob);
    && a.Some? && b.Some? && Here(src, at', b.value) && at + |a.value| == at' + |b.value|
    && AcFrom(code, scale, e, src, at, k, cells) == AcFrom(code, scale, e, src, at', n, cells')
    && Fill(cells, zz, scale, k, e) == Fill(cells', zz, scale, n, e)
    && (EndsInEob(zz, k, e) <==> EndsInEob(zz, n, e))
  }

  lemma AcZeros(code: HuffCode, zz: Cells, scale: Scale, e: nat, eob: Option<Bitstring>,
                src: Bitstring, at: nat, k: nat, cells: Cells)
    returns (n: nat, at': nat, cells': Cells)
    requires code.Safe() && k < e <= 64 && k + ZeroRun(zz, k, e) < e && ZeroRun(zz, k, e) >= 16
    requires EncodeAc(code, zz, k, e, eob).Some? && Here(src, at, EncodeAc(code, zz, k, e, eob).value)
    ensures StepsTogether(code, zz, scale, e, eob, src, at, k, cells, n, at', cells')
  {
    hide ReadStep, Here, Put, PutCoef, Zig, ZeroRun, Acceptable, Total, HuffCode.Safe, Scale.Place;
    n, at', cells' := k + 16, at + |Put(code, 0xf0).value|, cells;
    HereConcat(src, at, Put(code, 0xf0).value, EncodeAc(code, zz, n, e, eob).value);
    ZeroSteps(code, 15, src, at);
    FillSkips(cells, zz, scale, k, 16, e);
  }

  lemma AcCoef(code: HuffCode, zz: Cells, scale: Scale, e: nat, eob: Option<Bitstring>,
               src: Bitstring, at: nat, k: nat, cells: Cells)
    returns (n: nat, at': nat, cells': Cells)
    requires code.Safe() && k < e <= 64 && k + ZeroRun(zz, k, e) < e && ZeroRun(zz, k, e) < 16
    requires EncodeAc(code, zz, k, e, eob).Some? && Here(src, at, EncodeAc(code, zz, k, e, eob).value)
    ensures StepsTogether(code, zz, scale, e, eob, src, at, k, cells, n, at', cells')
  {
    hide ReadStep, Here, Put, PutCoef, Zig, ZeroRun, Acceptable, Total, HuffCode.Safe, Scale.Place;
    var r := ZeroRun(zz, k, e);
    var v, z, p := zz[k + r], Zig(k + r), PutCoef(code, r, zz[k + r]).value;
    n, at', cells' := k + r + 1, at + |p|, cells[z := scale.Place(v, z)];
    HereConcat(src, at, p, EncodeAc(code, zz, n, e, eob).value);
    CoefSteps(code, r, v, src, at);
    FillSkips(cells, zz, scale, k, r, e);
  }

  /** Decoding follows encoding over a run of sixteen zeros or a run and its
      coefficient. */
  lemma AcOneStep(code: HuffCode, zz: Cells, scale: Scale, e: nat, eob: Option<Bitstring>,
                  src: Bitstring, at: nat, k: nat, cells: Cells)
    returns (n: nat, at': nat, cells': Cells)
    requires code.Safe() && k < e <= 64 && k + ZeroRun(zz, k, e) < e
    requires EncodeAc(code, zz, k, e, eob).Some? && Here(src, at, EncodeAc(code, zz, k, e, eob).value)
    ensures StepsTogether(code, zz, scale, e, eob, src, at, k, cells, n, at', cells')
  {
    hide EncodeAc, AcFrom, Fill, Here, ZeroRun, EndsInEob, StepsTogether;
    if ZeroRun(zz, k, e) >= 16 {
      n, at', cells' := AcZeros(code, zz, scale, e, eob, src, at, k, cells);
    } else {
      n, at', cells' := AcCoef(code, zz, scale, e, eob, src, at, k, cells);
    }
  }

  /** What ends a block early: the EOB code of category r, then tail. */
  ghost predicate IsEob(code: HuffCode, r: nat, tail: Bitstring, eob: Option<Bitstring>)
  {
    eob.Some? ==> r <= 14 && Put(code, 16 * r).Some? && eob.value == Put(code, 16 * r).value + tail
  }

  /** Decoding a run of encoded coefficients fills in exactly them and stops
      after the EOB code, in front of its tail, or where the run is full. */
  lemma {:induction false} AcRoundTrip(code: HuffCode, zz: Cells, scale: Scale, e: nat, eob: Option<Bitstring>, r: nat,
                                       tail: Bitstring, src: Bitstring, at: nat, k: nat, cells: Cells)
    requires code.Safe() && k <= e <= 64 && IsEob(code, r, tail, eob)
    requires EncodeAc(code, zz, k, e, eob).Some? && Here(src, at, EncodeAc(code, zz, k, e, eob).value)
    ensures var end := at + |EncodeAc(code, zz, k, e, eob).value|;
            if EndsInEob(zz, k, e) then
              && r <= 14 && end >= |tail| && Here(src, end - |tail|, tail)
              && AcFrom(code, scale, e, src, at, k, cells) == Done(Fill(cells, zz, scale, k, e), r, end - |tail|)
            else AcFrom(code, scale, e, src, at, k, cells) == Done(Fill(cells, zz, scale, k, e), FULL, end)
    decreases e - k
  {
    hide ReadStep, Here, Put, Zig, ZeroRun, HuffCode.Safe, Scale.Place, PutCoef;
    if k < e {
      var run := ZeroRun(zz, k, e);
      if k + run == e {
        FillSkips(cells, zz, scale, k, run, e);
        HereConcat(src, at, Put(code, 16 * r).value, tail);
        ZeroSteps(code, r, src, at);
      } else {
        var n, at', cells' := AcOneStep(code, zz, scale, e, eob, src, at, k, cells);
        AcRoundTrip(code, zz, scale, e, eob, r, tail, src, at', n, cells');
      }
    }
  }

  // ----- sequential blocks -----

  function EncodeBlock(dc: HuffCode, ac: HuffCode, zz: Cells, pred: int): Option<Bitstring>
  {
    Join(PutCoef(dc, 0, zz[0] - pred), EncodeAc(ac, zz, 1, 64, Put(ac, 0)))
  }

  lemma DcRoundTrip(code: HuffCode, d: int, src: Bitstring, at: nat)
    requires code.Safe()
    requires PutCoef(code, 0, d).Some? && Here(src, at, PutCoef(code, 0, d).value)
    ensures ReadDc(code, src, at) == Diff(d, at + |PutCoef(code, 0, d).value|)
  {
    hide Decode, Total, Acceptable, Val, Put, Extend, Mag, Window;
    var s := NBits(Abs(d));
    var p := Put(code, s).value;
    HereConcat(src, at, p, Mag(d));
    var k := PutDecodes(code, s, src, at);
    if d != 0 {
      MagExtend(d);
    }
  }

  /** Decoding an encoded block gives back every coefficient, in its
      row-major place and multiplied by its quantisation step, with the
      predictor for the next block and all the bits consumed. */
  lemma BlockRoundTrip(dc: HuffCode, ac: HuffCode, zz: Cells, dq: Steps, pred: int, src: Bitstring, at: nat)
    requires dc.Safe() && ac.Safe()
    requires EncodeBlock(dc, ac, zz, pred).Some? && Here(src, at, EncodeBlock(dc, ac, zz, pred).value)
    requires Int32(zz[0]) && Int16(zz[0] * dq[0])
    ensures var r := DecodeBlockSpec(dc, ac, dq, src, at, pred);
            && r.pred == zz[0] && r.body.Done?
            && r.body.next == at + |EncodeBlock(dc, ac, zz, pred).value|
            && forall i :: 0 <= i < 64 ==> r.body.cells[Zig(i)] == ToShort(zz[i] * dq[Zig(i)])
  {
    hide Here, PutCoef, EncodeAc, ToShort, AcFrom, Fill, ReadDc, Zig, Put;
    var d := zz[0] - pred;
    var p := PutCoef(dc, 0, d).value;
    assert IsEob(ac, 0, [], Put(ac, 0)) by {
      assert Put(ac, 0).Some? ==> Put(ac, 0).value + [] == Put(ac, 0).value;
    }
    HereConcat(src, at, p, EncodeAc(ac, zz, 1, 64, Put(ac, 0)).value);
    DcRoundTrip(dc, d, src, at);
    var cells: Cells := NoCells()[0 := zz[0] * dq[0]];
    AcRoundTrip(ac, zz, Quant(dq), 64, Put(ac, 0), 0, [], src, at + |p|, 1, cells);
    forall i | 0 <= i < 64
      ensures Fill(cells, zz, Quant(dq), 1, 64)[Zig(i)] == ToShort(zz[i] * dq[Zig(i)])
    {
      ZigZero();
      FillPlaces(cells, zz, Quant(dq), 1, 64, i);
      ZigPermutes(i);
      ZigPermutes(0);
    }
  }

  lemma ZigZero()
    ensures Zig(0) == 0
  {
  }

  // ----- symbols that an encoder does not send -----

  /** A DC symbol is refused exactly if its category is above 15. */
  lemma DcCategoryExactly(code: HuffCode, s: nat, src: Bitstring, at: nat)
    requires code.Safe() && Put(code, s).Some? && Here(src, at, Put(code, s).value)
    ensures ReadDc(code, src, at).DcBad? <==> s > 15
  {
    hide Put, Here, Decode, HuffCode.Safe;
    var k := PutDecodes(code, s, src, at);
  }

  /** Every AC symbol without a magnitude ends the block, but for 0xf0, which passes over
      sixteen coefficients. */
  lemma EndSymbols(code: HuffCode, scale: Scale, e: nat, r: nat, src: Bitstring, at: nat, k: nat, cells: Cells)
    requires code.Safe() && r < 16 && Put(code, 16 * r).Some? && Here(src, at, Put(code, 16 * r).value) && k < e <= 64
    ensures var next := at + |Put(code, 16 * r).value|;
            AcFrom(code, scale, e, src, at, k, cells) ==
              if r == 15 then AcFrom(code, scale, e, src, next, k + 16, cells) else Done(cells, r, next)
  {
    hide Put, Here, Decode, HuffCode.Safe;
    var i := PutDecodes(code, 16 * r, src, at);
  }
}
