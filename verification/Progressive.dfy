/** Progressive blocks: first scans and refinement scans of DC and AC
    coefficients (section G.1.2 of T.81), as reference and as the decoder's
    routines. */
module Progressive {
  import opened Bits
  import opened Canonical
  import opened Huffman
  import opened BitReader
  import opened FastAc
  import opened Machine
  import opened Zigzag
  import opened Block

  /** v >> n, rounding down. */
  function Shr(v: int, n: nat): int
  {
    if n == 0 then v else Shr(v, n - 1) / 2
  }

  datatype ProgResult =
    | Refined(cells: Cells, eob: nat, next: nat)   // eob: further blocks in the EOB run
    | ProgCorrupt
    | ProgCut

  // ----- DC -----

  function DcFirst(code: HuffCode, al: nat, src: Bitstring, at: nat, pred: int): BlockResult
  {
    match ReadDc(code, src, at)
    case DcBad => Block(pred, Corrupt)
    case DcOut => Block(pred, Cut)
    case Diff(d, next) =>
      if !Int32(pred + d) || !Int16(Shl(pred + d, al)) then Block(pred + d, Corrupt)
      else Block(pred + d, Done(NoCells()[0 := Shl(pred + d, al)], FULL, next))
  }

  function DcRefine(al: nat, src: Bitstring, at: nat, cells: Cells): Result
  {
    if at >= |src| then Cut
    else Done(if src[at] then cells[0 := ToShort(cells[0] + Pow2(al))] else cells, FULL, at + 1)
  }

  // ----- AC, first scan -----

  /** Section G.1.2.2: a run of coefficients, then the length of an EOB run. */
  function AcFirst(code: HuffCode, ss: nat, se: nat, al: nat, src: Bitstring, at: nat, cells: Cells, eob: nat): ProgResult
    requires ss <= se < 64
  {
    if eob > 0 then Refined(cells, eob - 1, at) else
    match AcFrom(code, Shift(al), se + 1, src, at, ss, cells)
    case Corrupt => ProgCorrupt
    case Cut => ProgCut
    case Done(c, last, next) =>
      if last < 0 || last >= 15 then Refined(c, 0, next)
      else if next + last > |src| then ProgCut
      else Refined(c, Pow2(last) - 1 + Val(Window(src, next, last)), next + last)
  }

  // ----- AC, refinement -----

  /** Apply one correction bit to a coefficient that is already non-zero. */
  function Fix(p: int, bit: bool, al: nat): int
  {
    if bit && Shr(p, al) % 2 == 0 then ToShort(if p > 0 then p + Pow2(al) else p - Pow2(al)) else p
  }

  datatype Advance = Moved(cells: Cells, k: nat, at: nat) | Stuck

  /** Pass over r zero-history coefficients and store s in the next one,
      correcting the others on the way. */
  function AdvanceFrom(src: Bitstring, at: nat, k: nat, se: nat, al: nat, cells: Cells, r: nat, s: int): (m: Advance)
    requires se < 64 && k <= 64
    ensures m.Moved? ==> k <= m.k <= 64 && (k <= se ==> k < m.k)
    decreases 64 - k
  {
    if k > se then Moved(cells, k, at) else
    var z := Zig(k);
    if cells[z] != 0 then
      if at >= |src| then Stuck
      else AdvanceFrom(src, at + 1, k + 1, se, al, cells[z := Fix(cells[z], src[at], al)], r, s)
    else if r == 0 then Moved(cells[z := s], k + 1, at)
    else AdvanceFrom(src, at, k + 1, se, al, cells, r - 1, s)
  }

  /** Correct every remaining coefficient. */
  function CorrectFrom(src: Bitstring, at: nat, k: nat, se: nat, al: nat, cells: Cells): Advance
    requires se < 64 && k <= 64
  {
    AdvanceFrom(src, at, k, se, al, cells, 64, 0)
  }

  datatype Refinement =
    | EobRun(eob: nat, after: nat)          // end of band, with its run length
    | Place(run: nat, value: int, after: nat)
    | RefBad
    | RefOut

  /** The next symbol of a refinement scan with its run length or sign bit. */
  function ReadRefinement(code: HuffCode, al: nat, src: Bitstring, at: nat): Refinement
  {
    match Decode(code.counts, src, at)
    case NoCode => RefBad
    case Short => RefOut
    case Found(i, next) =>
      if i >= 256 then RefBad else
      var rs := code.values[i];
      var s, r := rs % 16, rs / 16;
      if s == 0 then
        if r == 15 then Place(15, 0, next)
        else if next + r > |src| then RefOut
        else EobRun(Pow2(r) - 1 + Val(Window(src, next, r)), next + r)
      else if s != 1 then RefBad
      else if next >= |src| then RefOut
      else Place(r, if src[next] then Pow2(al) else 0 - Pow2(al), next + 1)
  }

  function RefineFrom(code: HuffCode, se: nat, al: nat, src: Bitstring, at: nat, k: nat, cells: Cells): ProgResult
    requires se < 64 && k <= 64
    decreases 64 - k
  {
    if k > se then Refined(cells, 0, at) else
    match ReadRefinement(code, al, src, at)
    case RefBad => ProgCorrupt
    case RefOut => ProgCut
    case EobRun(eob, next) =>
      (match CorrectFrom(src, next, k, se, al, cells)
       case Stuck => ProgCut
       case Moved(c, _, n) => Refined(c, eob, n))
    case Place(r, s, next) =>
      (match AdvanceFrom(src, next, k, se, al, cells, r, s)
       case Stuck => ProgCut
       case Moved(c, k', n) => RefineFrom(code, se, al, src, n, k', c))
  }

  function AcRefine(code: HuffCode, ss: nat, se: nat, al: nat, src: Bitstring, at: nat, cells: Cells, eob: nat): ProgResult
    requires ss <= se < 64
  {
    if eob > 0 then
      match CorrectFrom(src, at, ss, se, al, cells)
      case Stuck => ProgCut
      case Moved(c, _, n) => Refined(c, eob - 1, n)
    else RefineFrom(code, se, al, src, at, ss, cells)
  }

  // ----- the decoder's routines -----

  lemma {:induction false} ShlTimes(v: int, n: nat)
    ensures Shl(v, n) == v * Pow2(n)
  {
    if n > 0 {
      ShlTimes(v, n - 1);
      Twice(v, Pow2(n - 1));
    }
  }

  lemma Twice(v: int, p: int)
    ensures 2 * (v * p) == v * (2 * p)
  {
  }

  ghost predicate DcOutcome(r: Result, ok: bool, cells: seq<int>, at: nat)
  {
    match r
    case Done(c, _, next) => ok && cells == c && at == next
    case Corrupt => !ok
    case Cut => true
  }

  /** DC coefficient of a block, first scan or refinement; a scan that also has
      AC coefficients is refused. */
  method DecodeDc(j: Reader, data: array<int>, h: Table, pred: int, refine: bool, se: nat, al: nat, ghost code: HuffCode)
    returns (ok: bool, pred': int)
    requires j.Valid() && data.Length == 64 && Int32(pred) && al <= 13
    requires h.Realizes(code) && Apart(data, h)
    modifies j`pos, j`buffer, j`bits, j`marker, j`nomore, j`at, data
    ensures old(j.pos) <= j.pos <= |j.data|
    ensures ok ==> j.Valid() && Int32(pred')
    ensures se != 0 ==> !ok && data[..] == old(data[..]) && j.at == old(j.at) && pred' == pred
    ensures se == 0 && !refine ==> DcOutcome(DcFirst(code, al, j.src, old(j.at), pred).body, ok, data[..], j.at)
    ensures se == 0 && !refine && ok && DcFirst(code, al, j.src, old(j.at), pred).body.Done? ==>
              pred' == DcFirst(code, al, j.src, old(j.at), pred).pred
    ensures se == 0 && refine ==> pred' == pred && DcOutcome(DcRefine(al, j.src, old(j.at), old(data[..])), ok, data[..], j.at)
  {
    hide ReadDc, Destuff, NextMarker, Holds, Val, Shl, ToShort;
    pred' := pred;
    if se != 0 {
      return false, pred;
    }
    j.Need(16);
    if !refine {
      ClearBlock(data);
      var diff: int;
      ok, diff := ReadDcDiff(j, h, code);
      if !ok {
        return;
      }
      AddIntsExact(pred, diff);
      if !AddIntsValid(pred, diff) {
        return false, pred;
      }
      pred' := pred + diff;
      Mul2ShortsExact(pred', Pow2(al));
      ShlTimes(pred', al);
      if !Mul2ShortsValid(pred', Pow2(al)) {
        return false, pred';
      }
      data[0] := Shl(pred', al);
      assert data[..] == NoCells()[0 := Shl(pred', al)];
    } else {
      ok := true;
      var bit := j.GetBit();
      if bit {
        data[0] := ToShort(data[0] + Pow2(al));
      }
    }
  }

  ghost predicate AcOutcome(r: ProgResult, ok: bool, cells: seq<int>, eob: nat, at: nat)
  {
    match r
    case Refined(c, e, next) => ok && cells == c && eob == e && at == next
    case ProgCorrupt => !ok
    case ProgCut => true
  }

  /** AC coefficients of a block in a first scan. */
  method DecodeAcFirst(j: Reader, data: array<int>, h: Table, fac: array<int>, ss: nat, se: nat, al: nat, eob: nat, ghost code: HuffCode)
    returns (ok: bool, eob': nat)
    requires j.Valid() && data.Length == 64 && 1 <= ss <= se < 64
    requires h.Realizes(code) && fac.Length == 512 && TableBuilt(code, fac[..]) && Apart(data, h) && data != fac
    modifies j`pos, j`buffer, j`bits, j`marker, j`nomore, j`at, data
    ensures old(j.pos) <= j.pos <= |j.data|
    ensures ok ==> j.Valid()
    ensures AcOutcome(AcFirst(code, ss, se, al, j.src, old(j.at), old(data[..]), eob), ok, data[..], eob', j.at)
  {
    hide Destuff, NextMarker, Holds, Val, TableBuilt, Zig, ToShort, ReadStep, Shl, Pow2;
    if eob > 0 {
      return true, eob - 1;
    }
    eob' := 0;
    ghost var goal := AcFrom(code, Shift(al), se + 1, j.src, j.at, ss, data[..]);
    var k := ss;
    while k <= se
      invariant old(j.pos) <= j.pos <= |j.data|
      invariant ss <= k <= 79 && j.Valid()
      invariant h.Realizes(code) && TableBuilt(code, fac[..])
      invariant goal.Cut? || AcFrom(code, Shift(al), se + 1, j.src, j.at, k, data[..]) == goal
      decreases 79 - k
    {
      var r := ReadAc(j, h, fac, code);
      match r {
        case ReadBad =>
          return false, 0;
        case ReadZero(run) =>
          if run < 15 {
            eob' := ReadEobRun(j, run);
            return true, eob';
          }
          k := k + 16;
        case ReadCoef(run, v) =>
          k := k + run;
          var z := Zig(k);
          data[z] := ToShort(Shl(v, al));
          k := k + 1;
      }
    }
    return true, 0;
  }

  /** Length of an EOB run of category r, without the current block. */
  method ReadEobRun(j: Reader, r: nat) returns (eob: nat)
    requires j.Valid() && r < 15
    modifies j`pos, j`buffer, j`bits, j`marker, j`nomore, j`at
    ensures old(j.pos) <= j.pos <= |j.data|
    ensures j.Valid()
    ensures old(j.at) + r <= |j.src| ==>
              eob == Pow2(r) - 1 + Val(Window(j.src, old(j.at), r)) && j.at == old(j.at) + r
  {
    hide Destuff, NextMarker, Holds;
    eob := Pow2(r) - 1;
    if r != 0 {
      var extra := j.GetBits(r);
      eob := eob + extra;
    }
  }

  ghost predicate AdvanceOutcome(m: Advance, cells: seq<int>, k: nat, at: nat)
  {
    m.Moved? ==> cells == m.cells && k == m.k && at == m.at
  }

  /** Apply the next correction bit to the coefficient in cell z. */
  method CorrectOne(j: Reader, data: array<int>, z: nat, al: nat)
    requires j.Valid() && data.Length == 64 && z < 64 && data[z] != 0
    modifies j`pos, j`buffer, j`bits, j`marker, j`nomore, j`at, data
    ensures old(j.pos) <= j.pos <= |j.data|
    ensures j.Valid()
    ensures old(j.at) < |j.src| ==>
              j.at == old(j.at) + 1 && data[..] == old(data[..])[z := Fix(old(data[z]), j.src[old(j.at)], al)]
  {
    hide Destuff, NextMarker, Holds, ToShort, Shr, Pow2;
    var bit := j.GetBit();
    if bit {
      if Shr(data[z], al) % 2 == 0 {
        if data[z] > 0 {
          data[z] := ToShort(data[z] + Pow2(al));
        } else {
          data[z] := ToShort(data[z] - Pow2(al));
        }
      }
    }
  }

  /** Advance by r zero-history coefficients and store s. */
  method AdvanceOver(j: Reader, data: array<int>, k0: nat, se: nat, al: nat, r0: nat, s: int) returns (k: nat)
    requires j.Valid() && data.Length == 64 && se < 64 && k0 <= se
    modifies j`pos, j`buffer, j`bits, j`marker, j`nomore, j`at, data
    ensures old(j.pos) <= j.pos <= |j.data|
    ensures j.Valid() && k0 < k <= 64
    ensures AdvanceOutcome(AdvanceFrom(j.src, old(j.at), k0, se, al, old(data[..]), r0, s), data[..], k, j.at)
  {
    hide Destuff, NextMarker, Holds, Zig, Fix;
    ghost var goal := AdvanceFrom(j.src, j.at, k0, se, al, data[..], r0, s);
    k := k0;
    var r := r0;
    while k <= se
      invariant old(j.pos) <= j.pos <= |j.data|
      invariant k0 <= k <= 64 && j.Valid()
      invariant goal.Stuck? || AdvanceFrom(j.src, j.at, k, se, al, data[..], r, s) == goal
    {
      var z := Zig(k);
      k := k + 1;
      if data[z] != 0 {
        CorrectOne(j, data, z, al);
      } else {
        if r == 0 {
          data[z] := s;
          break;
        }
        r := r - 1;
      }
    }
  }

  /** Correct all coefficients of the band (a block inside an EOB run). */
  method CorrectBand(j: Reader, data: array<int>, ss: nat, se: nat, al: nat)
    requires j.Valid() && data.Length == 64 && ss <= se < 64
    modifies j`pos, j`buffer, j`bits, j`marker, j`nomore, j`at, data
    ensures old(j.pos) <= j.pos <= |j.data|
    ensures j.Valid()
    ensures var m := CorrectFrom(j.src, old(j.at), ss, se, al, old(data[..]));
            m.Moved? ==> data[..] == m.cells && j.at == m.at
  {
    hide Destuff, NextMarker, Holds, Zig, Fix;
    ghost var goal := CorrectFrom(j.src, j.at, ss, se, al, data[..]);
    ghost var r := 64;
    for k := ss to se + 1
      invariant old(j.pos) <= j.pos <= |j.data|
      invariant j.Valid() && r + k >= 64
      invariant goal.Stuck? || AdvanceFrom(j.src, j.at, k, se, al, data[..], r, 0) == goal
    {
      var z := Zig(k);
      if data[z] != 0 {
        CorrectOne(j, data, z, al);
      } else {
        r := r - 1;
      }
    }
  }

  datatype RefRead = ReadEob(eob: nat) | ReadPlace(run: nat, value: int) | ReadFail

  ghost predicate RefinementAgrees(x: Refinement, r: RefRead, at: nat)
  {
    match x
    case EobRun(eob, next) => r == ReadEob(eob) && at == next
    case Place(run, v, next) => r == ReadPlace(run, v) && at == next
    case RefBad => r == ReadFail
    case RefOut => true
  }

  method ReadRefine(j: Reader, h: Table, al: nat, ghost code: HuffCode) returns (r: RefRead)
    requires j.Valid() && h.Realizes(code)
    modifies j`pos, j`buffer, j`bits, j`marker, j`nomore, j`at
    ensures old(j.pos) <= j.pos <= |j.data|
    ensures !r.ReadFail? ==> j.Valid()
    ensures RefinementAgrees(ReadRefinement(code, al, j.src, old(j.at)), r, j.at)
  {
    hide Destuff, NextMarker, Holds, Val, Pow2, Acceptable, Total, Len, LenFrom, Decode, DecodeFrom, CodeBits;
    SafeNotBlind(code, PadWindow(j.src, j.at, 16));
    var rs := j.HuffDecode(h, code.counts);
    if rs < 0 {
      return ReadFail;
    }
    var s, run := rs % 16, rs / 16;
    if s == 0 {
      if run < 15 {
        var eob := ReadEobRun(j, run);
        return ReadEob(eob);
      }
      return ReadPlace(15, 0);
    }
    if s != 1 {
      return ReadFail;
    }
    var bit := j.GetBit();
    return ReadPlace(run, if bit then Pow2(al) else 0 - Pow2(al));
  }

  /** AC coefficients of a block in a refinement scan. */
  method DecodeAcRefine(j: Reader, data: array<int>, h: Table, ss: nat, se: nat, al: nat, eob: nat, ghost code: HuffCode)
    returns (ok: bool, eob': nat)
    requires j.Valid() && data.Length == 64 && 1 <= ss <= se < 64
    requires h.Realizes(code) && Apart(data, h)
    modifies j`pos, j`buffer, j`bits, j`marker, j`nomore, j`at, data
    ensures old(j.pos) <= j.pos <= |j.data|
    ensures ok ==> j.Valid()
    ensures AcOutcome(AcRefine(code, ss, se, al, j.src, old(j.at), old(data[..]), eob), ok, data[..], eob', j.at)
  {
    hide Destuff, NextMarker, Holds, Zig, ReadRefinement, AdvanceFrom;
    if eob > 0 {
      CorrectBand(j, data, ss, se, al);
      return true, eob - 1;
    }
    ghost var goal := RefineFrom(code, se, al, j.src, j.at, ss, data[..]);
    var k := ss;
    while k <= se
      invariant old(j.pos) <= j.pos <= |j.data|
      invariant ss <= k <= 64 && j.Valid() && h.Realizes(code)
      invariant goal.ProgCut? || RefineFrom(code, se, al, j.src, j.at, k, data[..]) == goal
    {
      var r := ReadRefine(j, h, al, code);
      match r {
        case ReadFail =>
          return false, 0;
        case ReadEob(n) =>
          k := AdvanceOver(j, data, k, se, al, 64, 0);
          return true, n;
        case ReadPlace(run, v) =>
          k := AdvanceOver(j, data, k, se, al, run, v);
      }
    }
    return true, 0;
  }

  /** A first DC scan refuses the same: predictors beyond an int, values beyond a short. */
  lemma DcFirstIsShort(code: HuffCode, al: nat, src: Bitstring, at: nat, pred: int)
    ensures var r := DcFirst(code, al, src, at, pred); r.body.Done? ==> Shorts(r.body.cells) && -0x8000_0000 <= r.pred <= 0x7fff_ffff
    ensures var d := ReadDc(code, src, at);
            d.Diff? && (!(-0x8000_0000 <= pred + d.value <= 0x7fff_ffff) || !(-32768 <= Shl(pred + d.value, al) <= 32767)) ==>
              DcFirst(code, al, src, at, pred).body == Corrupt
  {
    hide ReadDc, Shl;
  }
}
