/** The encoder's side of progressive scans (section G.1.2 of T.81) and the
    round trips: what one block of a scan encodes is what decoding it stores. */
module Refinement {
  import opened Wrappers
  import opened Bits
  import opened Canonical
  import opened Huffman
  import opened FastAc
  import opened Machine
  import opened Zigzag
  import opened Block
  import opened Coding
  import opened Progressive
  import A = Approximation

  /** Coefficients whose magnitude has at most fifteen bits. */
  ghost predicate Codable(zz: Cells)
  {
    forall i :: 0 <= i < 64 ==> -32767 <= zz[i] <= 32767
  }

  /** The block holds the coefficients i with k <= i < e at precision al. */
  ghost predicate AtPrecision(cells: Cells, zz: Cells, k: nat, e: nat, al: nat)
    requires e <= 64
  {
    forall i :: k <= i < e ==> cells[Zig(i)] == A.Approx(zz[i], al)
  }

  ghost predicate SameOutside(a: Cells, b: Cells, k: nat, e: nat)
    requires e <= 64
  {
    forall i :: 0 <= i < 64 && !(k <= i < e) ==> a[Zig(i)] == b[Zig(i)]
  }

  // ----- EOB runs -----

  /** EOB code for a run of `run` blocks: category, then the low bits. */
  function PutEob(code: HuffCode, run: nat): Option<Bitstring>
    requires run >= 1
  {
    NBitsBounds(run);
    var n := NBits(run) - 1;
    if n > 14 then None else Join(Put(code, 16 * n), Some(ToBits(run - Pow2(n), n)))
  }

  lemma EobShape(code: HuffCode, run: nat)
    requires run >= 1
    ensures NBits(run) >= 1 && Pow2(NBits(run) - 1) <= run
    ensures var n := NBits(run) - 1;
            && IsEob(code, n, ToBits(run - Pow2(n), n), PutEob(code, run))
            && Pow2(n) - 1 + Val(ToBits(run - Pow2(n), n)) == run - 1
  {
    hide Put, Val, ToBits;
    NBitsBounds(run);
    var n := NBits(run) - 1;
    ValToBits(run - Pow2(n), n);
  }

  // ----- first scans -----

  function Truncated(zz: Cells, al: nat): (w: Cells)
    ensures forall i :: 0 <= i < 64 ==> w[i] == A.Trunc(zz[i], al)
  {
    seq(64, i requires 0 <= i < 64 => A.Trunc(zz[i], al))
  }

  function EncodeFirst(code: HuffCode, zz: Cells, ss: nat, se: nat, al: nat, run: nat): Option<Bitstring>
    requires ss <= se < 64 && run >= 1
  {
    EncodeAc(code, Truncated(zz, al), ss, se + 1, PutEob(code, run))
  }

  /** Whether the block can start or join an EOB run. */
  ghost predicate FirstEndsInEob(zz: Cells, se: nat, al: nat)
    requires se < 64
  {
    A.Trunc(zz[se], al) == 0
  }

  /** A first scan stores every coefficient of the band at precision al and
      announces exactly the rest of the EOB run. */
  lemma FirstRoundTrip(code: HuffCode, zz: Cells, ss: nat, se: nat, al: nat, run: nat,
                       src: Bitstring, at: nat, cells: Cells)
    requires code.Safe() && ss <= se < 64 && run >= 1 && Codable(zz)
    requires forall i :: ss <= i <= se ==> cells[Zig(i)] == 0
    requires EncodeFirst(code, zz, ss, se, al, run).Some? && Here(src, at, EncodeFirst(code, zz, ss, se, al, run).value)
    ensures var r := AcFirst(code, ss, se, al, src, at, cells, 0);
            && r.Refined?
            && r.next == at + |EncodeFirst(code, zz, ss, se, al, run).value|
            && r.eob == (if FirstEndsInEob(zz, se, al) then run - 1 else 0)
            && AtPrecision(r.cells, zz, ss, se + 1, al)
            && SameOutside(r.cells, cells, ss, se + 1)
  {
    hide Put, EncodeAc, AcFrom, Zig, Fill, Here, PutEob, HuffCode.Safe, Val, ToBits;
    var w, n := Truncated(zz, al), NBits(run) - 1;
    EobShape(code, run);
    var tail := ToBits(run - Pow2(n), n);
    AcRoundTrip(code, w, Shift(al), se + 1, PutEob(code, run), n, tail, src, at, ss, cells);
    HereWindow(src, at + |EncodeFirst(code, zz, ss, se, al, run).value|, tail);
    var filled := Fill(cells, w, Shift(al), ss, se + 1);
    forall i | 0 <= i < 64
      ensures filled[Zig(i)] == if ss <= i <= se then A.Approx(zz[i], al) else cells[Zig(i)]
    {
      FillPlaces(cells, w, Shift(al), ss, se + 1, i);
      A.ApproxBound(zz[i], al);
    }
  }

  lemma HereWindow(src: Bitstring, end: nat, tail: Bitstring)
    ensures end >= |tail| && Here(src, end - |tail|, tail) ==>
              end <= |src| && Window(src, end - |tail|, |tail|) == tail
  {
  }

  // ----- refinement scans -----

  /** Already non-zero before the scan at position al. */
  predicate Old(v: int, al: nat)
  {
    A.Trunc(v, al + 1) != 0
  }

  /** Becomes non-zero in the scan at position al. */
  predicate Fresh(v: int, al: nat)
  {
    !Old(v, al) && A.Trunc(v, al) != 0
  }

  /** Correction bits of the old coefficients from k up to p. */
  function Corr(zz: Cells, k: nat, p: nat, al: nat): Bitstring
    requires k <= p <= 64
    decreases p - k
  {
    if k == p then []
    else (if Old(zz[k], al) then [A.CorrBit(zz[k], al)] else []) + Corr(zz, k + 1, p, al)
  }

  /** How many of the coefficients from k up to p have zero history. */
  function Gaps(zz: Cells, k: nat, p: nat, al: nat): nat
    requires k <= p <= 64
    decreases p - k
  {
    if k == p then 0 else (if Old(zz[k], al) then 0 else 1) + Gaps(zz, k + 1, p, al)
  }

  function NextFresh(zz: Cells, k: nat, e: nat, al: nat): (p: nat)
    requires k <= e <= 64
    ensures k <= p <= e && (p < e ==> Fresh(zz[p], al))
    ensures forall i :: k <= i < p ==> !Fresh(zz[i], al)
    decreases e - k
  {
    if k == e || Fresh(zz[k], al) then k else NextFresh(zz, k + 1, e, al)
  }

  /** Position of the gap that follows n others. */
  function GapAt(zz: Cells, k: nat, p: nat, al: nat, n: nat): (q: nat)
    requires k <= p <= 64 && n < Gaps(zz, k, p, al)
    ensures k <= q < p && !Old(zz[q], al) && Gaps(zz, k, q, al) == n
    decreases p - k
  {
    if Old(zz[k], al) then GapAt(zz, k + 1, p, al, n)
    else if n == 0 then k
    else GapAt(zz, k + 1, p, al, n - 1)
  }

  /** Symbols, signs and correction bits of one block; eob ends a band that
      has no further fresh coefficient. */
  function EncodeRefine(code: HuffCode, zz: Cells, k: nat, e: nat, al: nat, eob: Option<Bitstring>): Option<Bitstring>
    requires k <= e <= 64
    decreases e - k
  {
    if k == e then Some([]) else
    var p := NextFresh(zz, k, e, al);
    if p == e then Join(eob, Some(Corr(zz, k, e, al)))
    else if Gaps(zz, k, p, al) >= 16 then
      var q := GapAt(zz, k, p, al, 15);
      Join(Join(Put(code, 0xf0), Some(Corr(zz, k, q, al))), EncodeRefine(code, zz, q + 1, e, al, eob))
    else
      Join(Join(Put(code, 16 * Gaps(zz, k, p, al) + 1), Some([zz[p] > 0] + Corr(zz, k, p, al))),
           EncodeRefine(code, zz, p + 1, e, al, eob))
  }

  /** The block with the coefficients from k up to p at precision al. */
  function Sharpen(cells: Cells, zz: Cells, k: nat, p: nat, al: nat): Cells
    requires k <= p <= 64
    decreases p - k
  {
    if k == p then cells else Sharpen(cells[Zig(k) := A.Approx(zz[k], al)], zz, k + 1, p, al)
  }

  lemma {:induction false} SharpenPlaces(cells: Cells, zz: Cells, k: nat, p: nat, al: nat, i: nat)
    requires k <= p <= 64 && i < 64
    ensures Sharpen(cells, zz, k, p, al)[Zig(i)] == if k <= i < p then A.Approx(zz[i], al) else cells[Zig(i)]
    decreases p - k
  {
    hide Zig, Zag, A.Approx;
    if k < p {
      ZigPermutes(i);
      ZigPermutes(k);
      SharpenPlaces(cells[Zig(k) := A.Approx(zz[k], al)], zz, k + 1, p, al, i);
    }
  }

  lemma {:induction false} SharpenAppend(cells: Cells, zz: Cells, k: nat, p: nat, al: nat)
    requires k <= p < 64
    ensures Sharpen(cells, zz, k, p + 1, al) == Sharpen(cells, zz, k, p, al)[Zig(p) := A.Approx(zz[p], al)]
    decreases p - k
  {
    hide Zig, A.Approx;
    if k < p {
      SharpenAppend(cells[Zig(k) := A.Approx(zz[k], al)], zz, k + 1, p, al);
    }
  }

  lemma SharpenKeepsTail(cells: Cells, zz: Cells, k: nat, p: nat, e: nat, al: nat)
    requires k <= p <= e <= 64 && AtPrecision(cells, zz, k, e, al + 1)
    ensures AtPrecision(Sharpen(cells, zz, k, p, al), zz, p, e, al + 1)
  {
    hide Zig, A.Approx, Sharpen;
    forall i | p <= i < e ensures Sharpen(cells, zz, k, p, al)[Zig(i)] == A.Approx(zz[i], al + 1) {
      SharpenPlaces(cells, zz, k, p, al, i);
    }
  }

  /** One coefficient of a refinement: an old one takes its correction bit, a
      gap uses up one unit of the run. */
  lemma AdvanceOne(zz: Cells, src: Bitstring, at: nat, k: nat, se: nat, al: nat, cells: Cells, r: nat, s: int)
    requires k <= se < 64 && Codable(zz) && cells[Zig(k)] == A.Approx(zz[k], al + 1) && !Fresh(zz[k], al)
    requires if Old(zz[k], al) then at < |src| && src[at] == A.CorrBit(zz[k], al) else r > 0
    ensures AdvanceFrom(src, at, k, se, al, cells, r, s) ==
              if Old(zz[k], al)
              then AdvanceFrom(src, at + 1, k + 1, se, al, cells[Zig(k) := A.Approx(zz[k], al)], r, s)
              else AdvanceFrom(src, at, k + 1, se, al, cells[Zig(k) := A.Approx(zz[k], al)], r - 1, s)
  {
    hide Zig, A.Approx, A.Trunc, Fix;
    A.ApproxBound(zz[k], al + 1);
    if Old(zz[k], al) {
      A.FixRefines(zz[k], al);
    } else {
      A.StaysZero(zz[k], al);
      assert cells[Zig(k) := 0] == cells;
    }
  }

  /** Advancing over coefficients without a fresh one corrects them all. */
  lemma {:induction false} AdvancePast(zz: Cells, src: Bitstring, at: nat, k: nat, p: nat, se: nat, al: nat,
                                       cells: Cells, r: nat, s: int)
    requires k <= p <= se + 1 <= 64 && Codable(zz) && AtPrecision(cells, zz, k, se + 1, al + 1)
    requires forall i :: k <= i < p ==> !Fresh(zz[i], al)
    requires Gaps(zz, k, p, al) <= r && Here(src, at, Corr(zz, k, p, al))
    ensures AdvanceFrom(src, at, k, se, al, cells, r, s) ==
              AdvanceFrom(src, at + |Corr(zz, k, p, al)|, p, se, al, Sharpen(cells, zz, k, p, al), r - Gaps(zz, k, p, al), s)
    decreases p - k
  {
    hide Zig, A.Approx, A.Trunc, AdvanceFrom, Fresh, Codable;
    if k < p {
      var rest := Corr(zz, k + 1, p, al);
      if Old(zz[k], al) {
        HereConcat(src, at, [A.CorrBit(zz[k], al)], rest);
      } else {
        assert [] + rest == rest;
      }
      AdvanceOne(zz, src, at, k, se, al, cells, r, s);
      SharpenKeepsTail(cells, zz, k, k + 1, se + 1, al);
      var cells' := cells[Zig(k) := A.Approx(zz[k], al)];
      assert Sharpen(cells, zz, k, k + 1, al) == cells';
      AdvancePast(zz, src, if Old(zz[k], al) then at + 1 else at, k + 1, p, se, al, cells',
                  if Old(zz[k], al) then r else r - 1, s);
    }
  }

  lemma {:induction false} SharpenSplit(cells: Cells, zz: Cells, k: nat, n: nat, p: nat, al: nat)
    requires k <= n <= p <= 64
    ensures Sharpen(Sharpen(cells, zz, k, n, al), zz, n, p, al) == Sharpen(cells, zz, k, p, al)
    decreases n - k
  {
    hide Zig, A.Approx;
    if k < n {
      SharpenSplit(cells[Zig(k) := A.Approx(zz[k], al)], zz, k + 1, n, p, al);
    }
  }

  lemma ReadsPlace(code: HuffCode, r: nat, sign: bool, al: nat, src: Bitstring, at: nat)
    requires code.Safe() && r <= 15 && Put(code, 16 * r + 1).Some?
    requires Here(src, at, Put(code, 16 * r + 1).value + [sign])
    ensures ReadRefinement(code, al, src, at) ==
              Place(r, if sign then Pow2(al) else 0 - Pow2(al), at + |Put(code, 16 * r + 1).value| + 1)
  {
    hide Put, Decode, Pow2, HuffCode.Safe;
    var b := Put(code, 16 * r + 1).value;
    HereConcat(src, at, b, [sign]);
    assert Window(src, at + |b|, 1)[0] == sign;
    var k := PutDecodes(code, 16 * r + 1, src, at);
    Split16(r, 1);
  }

  lemma ReadsZrl(code: HuffCode, al: nat, src: Bitstring, at: nat)
    requires code.Safe() && Put(code, 0xf0).Some? && Here(src, at, Put(code, 0xf0).value)
    ensures ReadRefinement(code, al, src, at) == Place(15, 0, at + |Put(code, 0xf0).value|)
  {
    hide Put, Decode, Pow2, HuffCode.Safe;
    var k := PutDecodes(code, 0xf0, src, at);
  }

  lemma ReadsEob(code: HuffCode, run: nat, al: nat, src: Bitstring, at: nat)
    requires code.Safe() && run >= 1 && PutEob(code, run).Some? && Here(src, at, PutEob(code, run).value)
    ensures ReadRefinement(code, al, src, at) == EobRun(run - 1, at + |PutEob(code, run).value|)
  {
    hide Put, Decode, HuffCode.Safe, Val, ToBits, PutEob;
    EobShape(code, run);
    var n := NBits(run) - 1;
    var tail := ToBits(run - Pow2(n), n);
    HereConcat(src, at, Put(code, 16 * n).value, tail);
    var k := PutDecodes(code, 16 * n, src, at);
  }

  predicate RefineEndsInEob(zz: Cells, k: nat, e: nat, al: nat)
    requires k <= e <= 64
  {
    k < e && !Fresh(zz[e - 1], al)
  }

  /** A run that stops at position p: the gaps before p are used up, p takes s. */
  lemma AdvanceTo(zz: Cells, src: Bitstring, at: nat, k: nat, p: nat, se: nat, al: nat, cells: Cells, s: int)
    requires k <= p <= se < 64 && Codable(zz) && AtPrecision(cells, zz, k, se + 1, al + 1)
    requires forall i :: k <= i < p ==> !Fresh(zz[i], al)
    requires !Old(zz[p], al) && s == A.Approx(zz[p], al) && Here(src, at, Corr(zz, k, p, al))
    ensures AdvanceFrom(src, at, k, se, al, cells, Gaps(zz, k, p, al), s) ==
              Moved(Sharpen(cells, zz, k, p + 1, al), p + 1, at + |Corr(zz, k, p, al)|)
  {
    hide Zig, A.Approx, A.Trunc, Fresh, Codable, Corr, Gaps, Sharpen, Here;
    AdvancePast(zz, src, at, k, p, se, al, cells, Gaps(zz, k, p, al), s);
    SharpenPlaces(cells, zz, k, p, al, p);
    A.ApproxBound(zz[p], al + 1);
    SharpenAppend(cells, zz, k, p, al);
  }

  /** Both sides at position k, and the encoder's bits are next in the stream. */
  ghost predicate InStep(code: HuffCode, zz: Cells, se: nat, al: nat, eob: Option<Bitstring>, src: Bitstring, at: nat, k: nat)
    requires k <= se + 1 <= 64
  {
    var bits := EncodeRefine(code, zz, k, se + 1, al, eob);
    bits.Some? && Here(src, at, bits.value)
  }

  /** Sixteen gaps: the ZRL symbol and the corrections among them. */
  lemma RefineZrlStep(code: HuffCode, zz: Cells, se: nat, al: nat, eob: Option<Bitstring>,
                      src: Bitstring, at: nat, k: nat, cells: Cells, p: nat, q: nat) returns (at': nat)
    requires code.Safe() && k <= se < 64 && Codable(zz) && AtPrecision(cells, zz, k, se + 1, al + 1)
    requires p == NextFresh(zz, k, se + 1, al) <= se && Gaps(zz, k, p, al) >= 16 && q == GapAt(zz, k, p, al, 15)
    requires InStep(code, zz, se, al, eob, src, at, k)
    ensures InStep(code, zz, se, al, eob, src, at', q + 1)
    ensures at + |EncodeRefine(code, zz, k, se + 1, al, eob).value| == at' + |EncodeRefine(code, zz, q + 1, se + 1, al, eob).value|
    ensures RefineFrom(code, se, al, src, at, k, cells) == RefineFrom(code, se, al, src, at', q + 1, Sharpen(cells, zz, k, q + 1, al))
  {
    hide Put, Here, AdvanceFrom, ReadRefinement, AtPrecision, A.Approx, A.Trunc, Codable, HuffCode.Safe, NextFresh, GapAt, Corr, Gaps, Sharpen;
    var b, c := Put(code, 0xf0).value, Corr(zz, k, q, al);
    at' := at + |b| + |c|;
    HereConcat(src, at, b + c, EncodeRefine(code, zz, q + 1, se + 1, al, eob).value);
    HereConcat(src, at, b, c);
    ReadsZrl(code, al, src, at);
    assert !Fresh(zz[q], al);
    A.StaysZero(zz[q], al);
    AdvanceTo(zz, src, at + |b|, k, q, se, al, cells, 0);
  }

  /** A fresh coefficient: its symbol, its sign and the corrections before it. */
  lemma RefineFreshStep(code: HuffCode, zz: Cells, se: nat, al: nat, eob: Option<Bitstring>,
                        src: Bitstring, at: nat, k: nat, cells: Cells, p: nat) returns (at': nat)
    requires code.Safe() && k <= se < 64 && Codable(zz) && AtPrecision(cells, zz, k, se + 1, al + 1)
    requires p == NextFresh(zz, k, se + 1, al) <= se && Gaps(zz, k, p, al) < 16
    requires InStep(code, zz, se, al, eob, src, at, k)
    ensures InStep(code, zz, se, al, eob, src, at', p + 1)
    ensures at + |EncodeRefine(code, zz, k, se + 1, al, eob).value| == at' + |EncodeRefine(code, zz, p + 1, se + 1, al, eob).value|
    ensures RefineFrom(code, se, al, src, at, k, cells) == RefineFrom(code, se, al, src, at', p + 1, Sharpen(cells, zz, k, p + 1, al))
  {
    hide Put, Here, AdvanceFrom, ReadRefinement, AtPrecision, A.Approx, A.Trunc, Codable, HuffCode.Safe, NextFresh, GapAt, Corr, Gaps, Sharpen, Pow2;
    var g := Gaps(zz, k, p, al);
    var b, c := Put(code, 16 * g + 1).value, Corr(zz, k, p, al);
    at' := at + |b| + 1 + |c|;
    var sign := zz[p] > 0;
    var rest := EncodeRefine(code, zz, p + 1, se + 1, al, eob).value;
    assert b + ([sign] + c) == b + [sign] + c;
    HereConcat(src, at, b + [sign] + c, rest);
    HereConcat(src, at, b + [sign], c);
    ReadsPlace(code, g, sign, al, src, at);
    A.NewValue(zz[p], al);
    AdvanceTo(zz, src, at + |b| + 1, k, p, se, al, cells, A.Approx(zz[p], al));
  }

  /** Decoding follows encoding over one fresh coefficient or sixteen gaps. */
  lemma RefineOneStep(code: HuffCode, zz: Cells, se: nat, al: nat, eob: Option<Bitstring>,
                      src: Bitstring, at: nat, k: nat, cells: Cells)
    returns (n: nat, at': nat)
    requires code.Safe() && k <= se < 64 && Codable(zz) && AtPrecision(cells, zz, k, se + 1, al + 1)
    requires NextFresh(zz, k, se + 1, al) <= se && InStep(code, zz, se, al, eob, src, at, k)
    ensures k < n <= se + 1 && InStep(code, zz, se, al, eob, src, at', n)
    ensures at + |EncodeRefine(code, zz, k, se + 1, al, eob).value| == at' + |EncodeRefine(code, zz, n, se + 1, al, eob).value|
    ensures RefineFrom(code, se, al, src, at, k, cells) == RefineFrom(code, se, al, src, at', n, Sharpen(cells, zz, k, n, al))
    ensures RefineEndsInEob(zz, k, se + 1, al) <==> RefineEndsInEob(zz, n, se + 1, al)
  {
    hide Put, Here, AdvanceFrom, ReadRefinement, AtPrecision, Codable, HuffCode.Safe, NextFresh, GapAt, Corr, Gaps, Sharpen, EncodeRefine, RefineFrom, Fresh;
    var p := NextFresh(zz, k, se + 1, al);
    if Gaps(zz, k, p, al) >= 16 {
      var q := GapAt(zz, k, p, al, 15);
      n := q + 1;
      at' := RefineZrlStep(code, zz, se, al, eob, src, at, k, cells, p, q);
    } else {
      n := p + 1;
      at' := RefineFreshStep(code, zz, se, al, eob, src, at, k, cells, p);
    }
  }

  /** Decoding one encoded block of a refinement scan sharpens every
      coefficient from k on by one bit and announces the rest of the EOB run. */
  lemma {:induction false} RefineRoundTrip(code: HuffCode, zz: Cells, se: nat, al: nat, run: nat,
                                           src: Bitstring, at: nat, k: nat, cells: Cells)
    requires code.Safe() && k <= se + 1 <= 64 && run >= 1 && Codable(zz) && AtPrecision(cells, zz, k, se + 1, al + 1)
    requires InStep(code, zz, se, al, PutEob(code, run), src, at, k)
    ensures RefineFrom(code, se, al, src, at, k, cells) ==
              Refined(Sharpen(cells, zz, k, se + 1, al),
                      if RefineEndsInEob(zz, k, se + 1, al) then run - 1 else 0,
                      at + |EncodeRefine(code, zz, k, se + 1, al, PutEob(code, run)).value|)
    decreases se + 1 - k
  {
    hide Put, PutEob, Here, AdvanceFrom, ReadRefinement, AtPrecision, A.Approx, A.Trunc, Codable, HuffCode.Safe, NextFresh, GapAt, Gaps, Sharpen, Fresh;
    var eob := PutEob(code, run);
    if k <= se {
      if NextFresh(zz, k, se + 1, al) > se {
        RefineTail(code, zz, se, al, run, src, at, k, cells);
      } else {
        var n, at' := RefineOneStep(code, zz, se, al, eob, src, at, k, cells);
        SharpenKeepsTail(cells, zz, k, n, se + 1, al);
        RefineRoundTrip(code, zz, se, al, run, src, at', n, Sharpen(cells, zz, k, n, al));
        SharpenSplit(cells, zz, k, n, se + 1, al);
      }
    } else {
      assert Sharpen(cells, zz, k, se + 1, al) == cells by { SharpenNone(cells, zz, k, al); }
    }
  }

  lemma SharpenNone(cells: Cells, zz: Cells, k: nat, al: nat)
    requires k <= 64
    ensures Sharpen(cells, zz, k, k, al) == cells
  {
  }

  /** The corrections of a whole band, as a block inside an EOB run has them. */
  lemma CorrectBandTrip(zz: Cells, se: nat, al: nat, src: Bitstring, at: nat, k: nat, cells: Cells)
    requires k <= se < 64 && Codable(zz) && AtPrecision(cells, zz, k, se + 1, al + 1)
    requires forall i :: k <= i <= se ==> !Fresh(zz[i], al)
    requires Here(src, at, Corr(zz, k, se + 1, al))
    ensures CorrectFrom(src, at, k, se, al, cells) ==
              Moved(Sharpen(cells, zz, k, se + 1, al), se + 1, at + |Corr(zz, k, se + 1, al)|)
  {
    hide A.Approx, A.Trunc, Codable, Fresh, Sharpen, Corr, Gaps, Here;
    GapsBound(zz, k, se + 1, al);
    AdvancePast(zz, src, at, k, se + 1, se, al, cells, 64, 0);
  }

  lemma {:induction false} GapsBound(zz: Cells, k: nat, p: nat, al: nat)
    requires k <= p <= 64
    ensures Gaps(zz, k, p, al) <= p - k
    decreases p - k
  {
    if k < p {
      GapsBound(zz, k + 1, p, al);
    }
  }

  lemma RefineTail(code: HuffCode, zz: Cells, se: nat, al: nat, run: nat, src: Bitstring, at: nat, k: nat, cells: Cells)
    requires code.Safe() && k <= se < 64 && run >= 1 && Codable(zz) && AtPrecision(cells, zz, k, se + 1, al + 1)
    requires NextFresh(zz, k, se + 1, al) > se
    requires InStep(code, zz, se, al, PutEob(code, run), src, at, k)
    ensures RefineFrom(code, se, al, src, at, k, cells) ==
              Refined(Sharpen(cells, zz, k, se + 1, al), run - 1,
                      at + |EncodeRefine(code, zz, k, se + 1, al, PutEob(code, run)).value|)
    ensures RefineEndsInEob(zz, k, se + 1, al)
  {
    hide Put, PutEob, Here, AdvanceFrom, ReadRefinement, AtPrecision, A.Approx, A.Trunc, Codable, HuffCode.Safe, NextFresh, GapAt, Gaps, Sharpen, Fresh, Corr, CorrectFrom;
    var eob := PutEob(code, run);
    HereConcat(src, at, eob.value, Corr(zz, k, se + 1, al));
    ReadsEob(code, run, al, src, at);
    CorrectBandTrip(zz, se, al, src, at + |eob.value|, k, cells);
  }

  // ----- what a refinement keeps on any stream, encoded or corrupt -----

  predicate Coarse(p: int, al: nat)
  {
    Int16(p) && A.Multiple(p, al + 1)
  }

  /** q is a multiple of the scan's bit and has kept the sign of p, except that
      the smallest short may have become positive. */
  predicate Finer(p: int, q: int, al: nat)
  {
    Int16(q) && A.Multiple(q, al) && (p > 0 ==> q > 0) && (p < 0 ==> if p == SHRT_MIN then q != 0 else q < 0)
  }

  lemma CellKeeps(p: int, bit: bool, al: nat)
    requires Coarse(p, al) && al <= 13
    ensures p != 0 ==> Finer(p, Fix(p, bit, al), al)
    ensures p == 0 ==> Finer(p, 0, al)
  {
    hide Fix, Shl, Shr;
    if p != 0 {
      A.FixKeeps(p, bit, al);
    } else {
      ShlOne(al);
      A.ShrShl(0, al);
    }
  }

  lemma {:induction false} AdvanceKeeps(src: Bitstring, at: nat, k: nat, se: nat, al: nat, cells: Cells, r: nat, s: int, i: nat)
    requires se < 64 && k <= 64 && al <= 13 && i < 64 && Int16(s) && A.Multiple(s, al)
    requires forall x :: k <= x <= se ==> Coarse(cells[Zig(x)], al)
    ensures var m := AdvanceFrom(src, at, k, se, al, cells, r, s);
            m.Moved? ==> if k <= i < m.k && i <= se then Finer(cells[Zig(i)], m.cells[Zig(i)], al)
                         else m.cells[Zig(i)] == cells[Zig(i)]
    decreases 64 - k
  {
    hide Zig, Zag, Coarse, Finer, Fix, A.Multiple, Shr;
    if k <= se {
      var z := Zig(k);
      ZigPermutes(k);
      ZigPermutes(i);
      if cells[z] != 0 {
        if at < |src| {
          CellKeeps(cells[z], src[at], al);
          var next := cells[z := Fix(cells[z], src[at], al)];
          forall x | k + 1 <= x <= se ensures Coarse(next[Zig(x)], al) {
            ZigPermutes(x);
          }
          AdvanceKeeps(src, at + 1, k + 1, se, al, next, r, s, i);
        }
      } else if r > 0 {
        CellKeeps(cells[z], true, al);
        AdvanceKeeps(src, at, k + 1, se, al, cells, r - 1, s, i);
      } else {
        assert Finer(0, s, al) by { FinerZero(s, al); }
      }
    }
  }

  lemma FinerZero(s: int, al: nat)
    requires Int16(s) && A.Multiple(s, al)
    ensures Finer(0, s, al)
  {
  }

  lemma UnitMultiple(al: nat)
    requires al <= 13
    ensures Int16(Pow2(al)) && A.Multiple(Pow2(al), al)
    ensures Int16(0 - Pow2(al)) && A.Multiple(0 - Pow2(al), al)
    ensures A.Multiple(0, al)
  {
    hide Shl, Shr;
    ShlOne(al);
    A.ShlOdd(1, al);
    A.ShrShl(1, al);
    A.ShrShl(-1, al);
    A.ShrShl(0, al);
    A.Pow2Range(al);
  }

  /** However the bits of a refinement scan read, every coefficient of the
      band stays a multiple of the scan's bit, none but the smallest short changes
      sign, and nothing outside the band moves. */
  lemma {:induction false} RefineKeeps(code: HuffCode, se: nat, al: nat, src: Bitstring, at: nat, k: nat, cells: Cells, i: nat)
    requires se < 64 && k <= 64 && al <= 13 && i < 64
    requires forall x :: k <= x <= se ==> Coarse(cells[Zig(x)], al)
    ensures var r := RefineFrom(code, se, al, src, at, k, cells);
            r.Refined? ==> if k <= i <= se then Finer(cells[Zig(i)], r.cells[Zig(i)], al)
                           else r.cells[Zig(i)] == cells[Zig(i)]
    decreases 64 - k
  {
    hide Zig, Coarse, Finer, AdvanceFrom, ReadRefinement, A.Multiple, Int16, Pow2;
    if k <= se {
      var x := ReadRefinement(code, al, src, at);
      UnitMultiple(al);
      match x {
        case EobRun(eob, next) =>
          EobKeeps(src, next, k, se, al, cells, i);
        case Place(r, s, next) =>
          PlaceValue(code, al, src, at);
          AdvanceKeeps(src, next, k, se, al, cells, r, s, i);
          var m := AdvanceFrom(src, next, k, se, al, cells, r, s);
          if m.Moved? {
            forall y | m.k <= y <= se ensures Coarse(m.cells[Zig(y)], al) {
              AdvanceKeeps(src, next, k, se, al, cells, r, s, y);
            }
            RefineKeeps(code, se, al, src, m.at, m.k, m.cells, i);
          }
        case RefBad =>
        case RefOut =>
      }
    }
  }

  lemma PlaceValue(code: HuffCode, al: nat, src: Bitstring, at: nat)
    requires al <= 13
    ensures var x := ReadRefinement(code, al, src, at);
            x.Place? ==> Int16(x.value) && A.Multiple(x.value, al)
  {
    hide A.Multiple, Pow2;
    UnitMultiple(al);
  }

  /** The same for a block inside an EOB run. */
  lemma EobKeeps(src: Bitstring, at: nat, k: nat, se: nat, al: nat, cells: Cells, i: nat)
    requires k <= se < 64 && al <= 13 && i < 64
    requires forall x :: k <= x <= se ==> Coarse(cells[Zig(x)], al)
    ensures var m := CorrectFrom(src, at, k, se, al, cells);
            m.Moved? ==> if k <= i <= se then Finer(cells[Zig(i)], m.cells[Zig(i)], al)
                         else m.cells[Zig(i)] == cells[Zig(i)]
  {
    hide Zig, Coarse, Finer, A.Multiple;
    UnitMultiple(al);
    AdvanceKeeps(src, at, k, se, al, cells, 64, 0, i);
    LongRun(src, at, k, se, al, cells, 64);
  }

  lemma {:induction false} LongRun(src: Bitstring, at: nat, k: nat, se: nat, al: nat, cells: Cells, r: nat)
    requires k <= se + 1 <= 64 && r > se - k
    ensures var m := AdvanceFrom(src, at, k, se, al, cells, r, 0); m.Moved? ==> m.k == se + 1
    decreases 64 - k
  {
    hide Zig, Fix;
    if k <= se {
      var z := Zig(k);
      if cells[z] != 0 {
        if at < |src| {
          LongRun(src, at + 1, k + 1, se, al, cells[z := Fix(cells[z], src[at], al)], r);
        }
      } else {
        LongRun(src, at, k + 1, se, al, cells, r - 1);
      }
    }
  }

  /** A symbol of a refinement is refused exactly if its magnitude category is above 1. */
  lemma RefinementSymbols(code: HuffCode, rs: Byte, al: nat, src: Bitstring, at: nat)
    requires code.Safe() && Put(code, rs).Some? && Here(src, at, Put(code, rs).value)
    ensures ReadRefinement(code, al, src, at).RefBad? <==> rs % 16 > 1
  {
    hide Put, Here, Decode, HuffCode.Safe;
    var k := PutDecodes(code, rs, src, at);
  }
}
