/** Progressive DC scans: the differences of a first scan and the single bits
    of its refinements rebuild every DC coefficient. */
module DcScans {
  import opened Wrappers
  import opened Bits
  import opened Huffman
  import opened Machine
  import opened Zigzag
  import opened Block
  import opened Coding
  import opened Progressive
  import A = Approximation

  /** A DC value known from bit position al up (arithmetic shift). */
  function DcApprox(v: int, al: nat): int
  {
    Shl(Shr(v, al), al)
  }

  lemma DcBounds(v: int, al: nat)
    requires Int16(v) && al <= 15
    ensures Int16(Shr(v, al)) && Int16(DcApprox(v, al))
    ensures DcApprox(v, 0) == v
  {
    hide Shl, Shr;
    ShrFloor(v, al);
    if v < 0 {
      Grid(al, v);
    } else {
      ShlFacts(0, Shr(v, al), al);
      ShlOne(al);
    }
    assert Shr(v, 0) == v && Shl(v, 0) == v by { ShiftZero(v); }
  }

  lemma ShiftZero(v: int)
    ensures Shr(v, 0) == v && Shl(v, 0) == v
  {
  }

  lemma {:induction false} ShrFloor(v: int, n: nat)
    ensures Shl(Shr(v, n), n) <= v < Shl(Shr(v, n), n) + Pow2(n)
    ensures v >= 0 ==> 0 <= Shr(v, n) <= v
    ensures v < 0 ==> v <= Shr(v, n) < 0
  {
    if n > 0 {
      ShrFloor(v, n - 1);
      var h := Shr(v, n - 1);
      ShlShl(h / 2, 1, n - 1);
      A.DoubleShl(h / 2);
      ShlFacts(2 * (h / 2), h % 2, n - 1);
      ShlOne(n - 1);
    }
  }

  /** Rounding down to a multiple of 2^al does not pass -2^15. */
  lemma Grid(al: nat, v: int)
    requires Int16(v) && v < 0 && al <= 15
    ensures DcApprox(v, al) >= SHRT_MIN
  {
    hide Shl, Shr;
    ShrFloor(v, al);
    var q: int := Pow2(15 - al);
    ShlOne(15 - al);
    ShlShl(1, 15 - al, al);
    ShlOne(15);
    Powers();
    A.ShlOdd(q, al);
    A.ShlOrder(Shr(v, al), -q, al);
  }

  /** Blocks of one component in scan order. */
  function DcBand(code: HuffCode, refine: bool, al: nat, src: Bitstring, at: nat, blocks: seq<Cells>, pred: int): Option<seq<Cells>>
    decreases |blocks|
  {
    if |blocks| == 0 then Some([]) else
    var first := DcFirst(code, al, src, at, pred);
    var r := if refine then DcRefine(al, src, at, blocks[0]) else first.body;
    if !r.Done? then None else
    var rest := DcBand(code, refine, al, src, r.next, blocks[1..], first.pred);
    if rest.None? then None else Some([r.cells] + rest.value)
  }

  /** Differences of the shifted values, or one bit of each value. */
  function EncodeDc(code: HuffCode, refine: bool, al: nat, vs: seq<int>, pred: int): Option<Bitstring>
  {
    if |vs| == 0 then Some([])
    else if refine then Join(Some([Shr(vs[0], al) % 2 == 1]), EncodeDc(code, refine, al, vs[1..], pred))
    else Join(PutCoef(code, 0, Shr(vs[0], al) - pred), EncodeDc(code, refine, al, vs[1..], Shr(vs[0], al)))
  }

  ghost predicate DcAt(blocks: seq<Cells>, vs: seq<int>, al: nat)
  {
    |blocks| == |vs| && forall i :: 0 <= i < |vs| ==> blocks[i][0] == DcApprox(vs[i], al)
  }

  /** A block after a DC scan: a first scan clears it, a refinement keeps the
      other coefficients. */
  function DcResult(refine: bool, cells: Cells, v: int, al: nat): Cells
  {
    (if refine then cells else NoCells())[0 := DcApprox(v, al)]
  }

  ghost predicate DcDone(refine: bool, was: seq<Cells>, now: seq<Cells>, vs: seq<int>, al: nat)
  {
    |was| == |now| == |vs| && forall i :: 0 <= i < |vs| ==> now[i] == DcResult(refine, was[i], vs[i], al)
  }

  lemma DcRefineStep(al: nat, src: Bitstring, at: nat, cells: Cells, v: int)
    requires Int16(v) && al <= 13 && cells[0] == DcApprox(v, al + 1)
    requires at < |src| && src[at] == (Shr(v, al) % 2 == 1)
    ensures DcRefine(al, src, at, cells).Done? && DcRefine(al, src, at, cells).next == at + 1
    ensures DcRefine(al, src, at, cells).cells == DcResult(true, cells, v, al)
  {
    hide Shl, ToShort, Pow2;
    var h := Shr(v, al);
    DcBounds(v, al);
    ShlShl(h / 2, 1, al);
    A.DoubleShl(h / 2);
    ShlFacts(2 * (h / 2), h % 2, al);
    ShlOne(al);
  }

  lemma DcFirstStep(code: HuffCode, al: nat, src: Bitstring, at: nat, pred: int, v: int)
    requires code.Safe() && Int16(v) && al <= 13
    requires PutCoef(code, 0, Shr(v, al) - pred).Some? && Here(src, at, PutCoef(code, 0, Shr(v, al) - pred).value)
    ensures var r := DcFirst(code, al, src, at, pred);
            && r.pred == Shr(v, al) && r.body.Done? && r.body.cells == DcResult(false, NoCells(), v, al)
            && r.body.next == at + |PutCoef(code, 0, Shr(v, al) - pred).value|
  {
    hide Shl, Shr, ReadDc, Here, PutCoef;
    DcBounds(v, al);
    DcRoundTrip(code, Shr(v, al) - pred, src, at);
  }

  lemma {:induction false} DcBandRoundTrip(code: HuffCode, refine: bool, al: nat, vs: seq<int>, src: Bitstring, at: nat,
                                           blocks: seq<Cells>, pred: int, encPred: int)
    requires code.Safe() && al <= 13 && |blocks| == |vs| && (!refine ==> pred == encPred)
    requires forall i :: 0 <= i < |vs| ==> Int16(vs[i])
    requires refine ==> DcAt(blocks, vs, al + 1)
    requires EncodeDc(code, refine, al, vs, encPred).Some? && Here(src, at, EncodeDc(code, refine, al, vs, encPred).value)
    ensures var r := DcBand(code, refine, al, src, at, blocks, pred);
            r.Some? && DcAt(r.value, vs, al) && DcDone(refine, blocks, r.value, vs, al)
    decreases |vs|
  {
    hide Here, DcFirst, DcRefine, PutCoef, Shr, DcApprox, Int16, NoCells;
    if |vs| > 0 {
      var rest := EncodeDc(code, refine, al, vs[1..], if refine then encPred else Shr(vs[0], al)).value;
      if refine {
        HereConcat(src, at, [Shr(vs[0], al) % 2 == 1], rest);
        HereBit(src, at, Shr(vs[0], al) % 2 == 1);
        DcRefineStep(al, src, at, blocks[0], vs[0]);
        DcBandRoundTrip(code, refine, al, vs[1..], src, at + 1, blocks[1..], DcFirst(code, al, src, at, pred).pred, encPred);
      } else {
        var p := PutCoef(code, 0, Shr(vs[0], al) - pred).value;
        HereConcat(src, at, p, rest);
        DcFirstStep(code, al, src, at, pred, vs[0]);
        DcBandRoundTrip(code, refine, al, vs[1..], src, at + |p|, blocks[1..], Shr(vs[0], al), Shr(vs[0], al));
      }
    }
  }

  lemma HereBit(src: Bitstring, at: nat, b: bool)
    requires Here(src, at, [b])
    ensures at < |src| && src[at] == b
  {
    assert [b][0] == b;
  }

  datatype DcScan = DcScan(code: HuffCode, src: Bitstring)

  function DecodeDcScans(scans: seq<DcScan>, refine: bool, al: nat, blocks: seq<Cells>): Option<seq<Cells>>
    requires |scans| <= al + 1
    decreases |scans|
  {
    if |scans| == 0 then Some(blocks) else
    var r := DcBand(scans[0].code, refine, al, scans[0].src, 0, blocks, 0);
    if r.None? then None
    else if |scans| == 1 then r
    else DecodeDcScans(scans[1..], true, al - 1, r.value)
  }

  ghost predicate DcCarries(scans: seq<DcScan>, refine: bool, al: nat, vs: seq<int>, t: nat)
    requires t < |scans| <= al + 1
  {
    && scans[t].code.Safe()
    && var bits := EncodeDc(scans[t].code, refine || t > 0, al - t, vs, 0);
       bits.Some? && Here(scans[t].src, 0, bits.value)
  }

  /** A first DC scan at position al and one bit per block in each refinement
      down to position 0 leave exactly the DC values; the refinements touch no
      other coefficient. */
  lemma {:induction false} DcSuccessiveApproximation(scans: seq<DcScan>, refine: bool, al: nat, vs: seq<int>, blocks: seq<Cells>)
    requires al <= 13 && |scans| == al + 1 && |blocks| == |vs|
    requires forall i :: 0 <= i < |vs| ==> Int16(vs[i])
    requires forall t :: 0 <= t < |scans| ==> DcCarries(scans, refine, al, vs, t)
    requires refine ==> DcAt(blocks, vs, al + 1)
    ensures var r := DecodeDcScans(scans, refine, al, blocks);
            && r.Some? && |r.value| == |vs|
            && forall i :: 0 <= i < |vs| ==> r.value[i] == (if refine then blocks[i] else NoCells())[0 := vs[i]]
    decreases al
  {
    hide Here, EncodeDc, DcBand, DcApprox, Int16, NoCells;
    assert DcCarries(scans, refine, al, vs, 0);
    DcBandRoundTrip(scans[0].code, refine, al, vs, scans[0].src, 0, blocks, 0, 0);
    var r := DcBand(scans[0].code, refine, al, scans[0].src, 0, blocks, 0).value;
    if al > 0 {
      DcNextCarries(scans, scans[1..], refine, al, al - 1, vs);
      DcSuccessiveApproximation(scans[1..], true, al - 1, vs, r);
      var end := DecodeDcScans(scans[1..], true, al - 1, r).value;
      forall i | 0 <= i < |vs| ensures end[i] == (if refine then blocks[i] else NoCells())[0 := vs[i]] {
        assert r[i] == DcResult(refine, blocks[i], vs[i], al);
      }
    } else {
      forall i | 0 <= i < |vs| ensures r[i] == (if refine then blocks[i] else NoCells())[0 := vs[i]] {
        DcBounds(vs[i], 0);
        assert r[i] == DcResult(refine, blocks[i], vs[i], al);
      }
    }
  }

  lemma DcNextCarries(scans: seq<DcScan>, rest: seq<DcScan>, refine: bool, al: nat, low: nat, vs: seq<int>)
    requires |scans| == al + 1 && al == low + 1 && rest == scans[1..]
    requires forall t :: 0 <= t < |scans| ==> DcCarries(scans, refine, al, vs, t)
    ensures forall t :: 0 <= t < |rest| ==> DcCarries(rest, true, low, vs, t)
  {
    hide Here, EncodeDc;
    forall t | 0 <= t < |rest| ensures DcCarries(rest, true, low, vs, t) {
      assert DcCarries(scans, refine, al, vs, t + 1);
    }
  }
}
