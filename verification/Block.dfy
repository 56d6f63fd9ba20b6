/** Sequential (baseline) blocks: the reference decoding of section F.2.2 of
    T.81 and the decoder's routine. */
module Block {
  import opened Bits
  import opened Canonical
  import opened Huffman
  import opened BitReader
  import opened FastAc
  import opened Machine
  import opened Zigzag

  function NoCells(): (r: Cells)
    ensures forall i :: 0 <= i < 64 ==> r[i] == 0
  {
    seq(64, _ => 0)
  }

  /** Quantisation steps are unsigned 16-bit numbers. */
  type Steps = s: seq<nat> | |s| == 64 && forall i :: 0 <= i < 64 ==> s[i] < 65536 witness seq(64, _ => 0)

  /** How a decoded value is stored: dequantised, or shifted to the bit
      position of a progressive scan. */
  datatype Scale = Quant(dq: Steps) | Shift(al: nat) {
    function Place(v: int, z: Cell): int
    {
      ToShort(if Quant? then v * dq[z] else Shl(v, al))
    }
  }

  /** Category reported when a run of coefficients ends without an EOB code. */
  const FULL: int := 15

  datatype Result =
    | Done(cells: Cells, last: int, next: nat)   // last: category of the EOB code, or FULL
    | Corrupt
    | Cut                              // the segment ends inside the block

  /** The AC coefficients from stream position k up to e. */
  function AcFrom(code: HuffCode, scale: Scale, e: nat, src: Bitstring, at: nat, k: nat, cells: Cells): Result
    requires e <= 64 && k <= 79
    decreases 79 - k
  {
    if k >= e then Done(cells, FULL, at) else
    match ReadStep(code, src, at)
    case Bad => Corrupt
    case Out => Cut
    case Zero(r, next) =>
      if r < 15 then Done(cells, r, next) else AcFrom(code, scale, e, src, next, k + 16, cells)
    case Coef(r, v, next) =>
      if r > 15 then Corrupt else
      AcFrom(code, scale, e, src, next, k + r + 1, cells[Zig(k + r) := scale.Place(v, Zig(k + r))])
  }

  /** The DC difference at a position. */
  datatype DcStep = Diff(value: int, after: nat) | DcBad | DcOut

  function ReadDc(code: HuffCode, src: Bitstring, at: nat): DcStep
  {
    match Decode(code.counts, src, at)
    case NoCode => DcBad
    case Short => DcOut
    case Found(k, next) =>
      if k >= 256 || code.values[k] > 15 then DcBad
      else
        var t := code.values[k];
        if t == 0 then Diff(0, next)
        else if next + t <= |src| then Diff(Extend(Val(Window(src, next, t)), t), next + t)
        else DcOut
  }

  datatype BlockResult = Block(pred: int, body: Result)

  /** A whole block after a block whose DC value was pred. */
  function DecodeBlockSpec(dc: HuffCode, ac: HuffCode, dq: Steps, src: Bitstring, at: nat, pred: int): BlockResult
  {
    match ReadDc(dc, src, at)
    case DcBad => Block(pred, Corrupt)
    case DcOut => Block(pred, Cut)
    case Diff(d, next) =>
      if !Int32(pred + d) || !Int16((pred + d) * dq[0]) then Block(pred + d, Corrupt)
      else Block(pred + d, AcFrom(ac, Quant(dq), 64, src, next, 1, NoCells()[0 := (pred + d) * dq[0]]))
  }

  // ----- the decoder's routines -----

  datatype AcRead = ReadCoef(run: nat, value: int) | ReadZero(run: nat) | ReadBad

  ghost predicate StepAgrees(step: AcStep, r: AcRead, at: nat)
  {
    match step
    case Coef(run, v, next) => r == ReadCoef(run, v) && at == next
    case Zero(run, next) => r == ReadZero(run) && at == next
    case Bad => r == ReadBad
    case Out => true
  }

  /** One AC step, by the combined table where it has an entry. */
  method ReadAc(j: Reader, h: Table, fac: array<int>, ghost code: HuffCode) returns (r: AcRead)
    requires j.Valid() && h.Realizes(code) && fac.Length == 512 && TableBuilt(code, fac[..])
    modifies j`pos, j`buffer, j`bits, j`marker, j`nomore, j`at
    ensures old(j.pos) <= j.pos <= |j.data|
    ensures !r.ReadBad? ==> j.Valid() && r.run <= 15
    ensures StepAgrees(ReadStep(code, j.src, old(j.at)), r, j.at)
  {
    hide Holds, Destuff, NextMarker, Val, Pow2, TableBuilt, Acceptable, Total, ReadStep, Num, Top, Len, LenFrom;
    j.Need(16);
    FastAcRefines(code, fac[..], j.src, j.at);
    TopWindow(j.buffer, 9, j.bits, j.src, j.at);
    var e := fac[Val(j.buffer[..9])];
    if e != 0 {
      var s := EntryLength(e);
      if s > j.bits {
        return ReadBad;
      }
      j.Drop(s);
      return ReadCoef(EntryRun(e), EntryValue(e));
    }
    r := ReadAcSlow(j, h, code);
  }

  /** One AC step: Huffman symbol, then magnitude. */
  method ReadAcSlow(j: Reader, h: Table, ghost code: HuffCode) returns (r: AcRead)
    requires j.Valid() && h.Realizes(code)
    modifies j`pos, j`buffer, j`bits, j`marker, j`nomore, j`at
    ensures old(j.pos) <= j.pos <= |j.data|
    ensures !r.ReadBad? ==> j.Valid() && r.run <= 15
    ensures StepAgrees(ReadStep(code, j.src, old(j.at)), r, j.at)
  {
    hide Holds, Destuff, NextMarker, Val, Pow2, Acceptable, Total, Num, Top, Len, LenFrom, Decode, DecodeFrom, CodeBits, Extend;
    SafeNotBlind(code, PadWindow(j.src, j.at, 16));
    ghost var d := Decode(code.counts, j.src, j.at);
    var rs := j.HuffDecode(h, code.counts);
    if rs < 0 {
      return ReadBad;
    }
    var s, run := rs % 16, rs / 16;
    if s == 0 {
      return ReadZero(run);
    }
    var v := j.ExtendReceive(s);
    return ReadCoef(run, v);
  }

  lemma SafeNotBlind(code: HuffCode, w: Bitstring)
    requires code.Safe()
    ensures !Blind(code.counts, w)
  {
    hide Total, Len, Acceptable, CodeBits;
  }

  ghost predicate DcAgrees(step: DcStep, ok: bool, diff: int, at: nat)
  {
    match step
    case Diff(d, next) => ok && diff == d && at == next
    case DcBad => !ok
    case DcOut => true
  }

  method ReadDcDiff(j: Reader, h: Table, ghost code: HuffCode) returns (ok: bool, diff: int)
    requires j.Valid() && h.Realizes(code)
    modifies j`pos, j`buffer, j`bits, j`marker, j`nomore, j`at
    ensures old(j.pos) <= j.pos <= |j.data|
    ensures ok ==> j.Valid() && -32767 <= diff <= 32767
    ensures DcAgrees(ReadDc(code, j.src, old(j.at)), ok, diff, j.at)
  {
    hide Holds, Destuff, NextMarker, Val, Acceptable, Total, Num, Top, Len, LenFrom, Decode, DecodeFrom, CodeBits, Extend, Pow2;
    SafeNotBlind(code, PadWindow(j.src, j.at, 16));
    var t := j.HuffDecode(h, code.counts);
    if t < 0 || t > 15 {
      return false, 0;
    }
    ok, diff := true, 0;
    if t != 0 {
      diff := j.ExtendReceive(t);
    }
  }

  /** Decode one block: the DC difference from the predictor, then runs and
      values until the block is full or its end is signalled. */
  method DecodeBlock(j: Reader, data: array<int>, hdc: Table, hac: Table, fac: array<int>, pred: int, dq: Steps,
                     ghost dc: HuffCode, ghost ac: HuffCode) returns (ok: bool, pred': int)
    requires j.Valid() && data.Length == 64 && Int32(pred)
    requires hdc.Realizes(dc) && hac.Realizes(ac)
    requires fac.Length == 512 && TableBuilt(ac, fac[..]) && Separate(data, hdc, hac, fac)
    modifies j`pos, j`buffer, j`bits, j`marker, j`nomore, j`at, data
    ensures old(j.pos) <= j.pos <= |j.data|
    ensures ok ==> j.Valid() && Int32(pred')
    ensures var r := DecodeBlockSpec(dc, ac, dq, j.src, old(j.at), pred);
            match r.body
            case Done(cells, _, next) => ok && data[..] == cells && j.at == next && pred' == r.pred
            case Corrupt => !ok
            case Cut => true
  {
    hide AcFrom, ReadDc, Destuff, NextMarker, Holds, Val, TableBuilt, Table.Realizes, Int32, Int16, NoCells;
    ok, pred' := StoreDc(j, data, hdc, pred, dq, dc);
    if !ok {
      return;
    }
    ok := DecodeAc(j, data, hac, fac, dq, ac);
  }

  /** The DC coefficient: predicted, dequantised and stored in a cleared block,
      unless the sum or the product is not representable. */
  method StoreDc(j: Reader, data: array<int>, hdc: Table, pred: int, dq: Steps, ghost dc: HuffCode) returns (ok: bool, pred': int)
    requires j.Valid() && data.Length == 64 && Int32(pred) && hdc.Realizes(dc)
    modifies j`pos, j`buffer, j`bits, j`marker, j`nomore, j`at, data
    ensures old(j.pos) <= j.pos <= |j.data|
    ensures ok ==> j.Valid() && Int32(pred')
    ensures match ReadDc(dc, j.src, old(j.at))
            case Diff(d, next) =>
              && ok == (Int32(pred + d) && Int16((pred + d) * dq[0]))
              && (ok ==> pred' == pred + d && j.at == next && data[..] == NoCells()[0 := (pred + d) * dq[0]])
            case DcBad => !ok
            case DcOut => true
  {
    hide ReadDc, Destuff, NextMarker, Holds, Val, AddIntsValid, Mul2ShortsValid, Int16;
    j.Need(16);
    var diff: int;
    ok, diff := ReadDcDiff(j, hdc, dc);
    pred' := pred;
    if !ok {
      return;
    }
    ClearBlock(data);
    AddIntsExact(pred, diff);
    if !AddIntsValid(pred, diff) {
      return false, pred;
    }
    pred' := pred + diff;
    Mul2ShortsExact(pred', dq[0]);
    if !Mul2ShortsValid(pred', dq[0]) {
      return false, pred';
    }
    data[0] := pred' * dq[0];
    assert data[..] == NoCells()[0 := pred' * dq[0]];
  }

  ghost predicate Separate(data: array<int>, hdc: Table, hac: Table, fac: array<int>)
  {
    Apart(data, hdc) && Apart(data, hac) && data != fac
  }

  ghost predicate Apart(data: array<int>, h: Table)
  {
    data != h.fast && data != h.size && data != h.maxcode && data != h.delta && data != h.code
  }

  method ClearBlock(data: array<int>)
    requires data.Length == 64
    modifies data
    ensures data[..] == NoCells()
  {
    for i := 0 to 64
      invariant forall x :: 0 <= x < i ==> data[x] == 0
    {
      data[i] := 0;
    }
  }

  method DecodeAc(j: Reader, data: array<int>, h: Table, fac: array<int>, dq: Steps, ghost ac: HuffCode) returns (ok: bool)
    requires j.Valid() && data.Length == 64 && h.Realizes(ac)
    requires fac.Length == 512 && TableBuilt(ac, fac[..]) && Apart(data, h) && data != fac
    modifies j`pos, j`buffer, j`bits, j`marker, j`nomore, j`at, data
    ensures old(j.pos) <= j.pos <= |j.data|
    ensures ok ==> j.Valid()
    ensures match AcFrom(ac, Quant(dq), 64, j.src, old(j.at), 1, old(data[..]))
            case Done(cells, _, next) => ok && data[..] == cells && j.at == next
            case Corrupt => !ok
            case Cut => true
  {
    hide Destuff, NextMarker, Holds, Val, TableBuilt, Zig, ToShort, ReadStep, Shl;
    ghost var goal := AcFrom(ac, Quant(dq), 64, j.src, j.at, 1, data[..]);
    var k := 1;
    while k < 64
      invariant old(j.pos) <= j.pos <= |j.data|
      invariant 1 <= k <= 79 && j.Valid()
      invariant h.Realizes(ac) && TableBuilt(ac, fac[..])
      invariant goal.Cut? || AcFrom(ac, Quant(dq), 64, j.src, j.at, k, data[..]) == goal
      decreases 79 - k
    {
      var r := ReadAc(j, h, fac, ac);
      match r {
        case ReadBad =>
          return false;
        case ReadZero(run) =>
          if run != 15 {
            return true;
          }
          k := k + 16;
        case ReadCoef(run, v) =>
          k := k + run;
          var z := Zig(k);
          data[z] := ToShort(v * dq[z]);
          k := k + 1;
      }
    }
    return true;
  }

  // ----- range -----

  ghost predicate Shorts(cells: Cells)
  {
    forall i :: 0 <= i < 64 ==> -32768 <= cells[i] <= 32767
  }

  lemma {:induction false} AcKeepsShorts(code: HuffCode, scale: Scale, e: nat, src: Bitstring, at: nat, k: nat, cells: Cells)
    requires e <= 64 && k <= 79 && Shorts(cells)
    ensures var r := AcFrom(code, scale, e, src, at, k, cells); r.Done? ==> Shorts(r.cells)
    decreases 79 - k
  {
    hide ReadStep, Zig;
    if k < e {
      match ReadStep(code, src, at) {
        case Bad =>
        case Out =>
        case Zero(r, next) =>
          if r >= 15 {
            AcKeepsShorts(code, scale, e, src, next, k + 16, cells);
          }
        case Coef(r, v, next) =>
          if r <= 15 {
            AcKeepsShorts(code, scale, e, src, next, k + r + 1, cells[Zig(k + r) := scale.Place(v, Zig(k + r))]);
          }
      }
    }
  }

  /** A block whose DC predictor leaves the range of an int, or whose DC value leaves that
      of a short, is refused; every other decoded block holds shorts only. */
  lemma DecodedIsShort(dc: HuffCode, ac: HuffCode, dq: Steps, src: Bitstring, at: nat, pred: int)
    ensures var r := DecodeBlockSpec(dc, ac, dq, src, at, pred); r.body.Done? ==> Shorts(r.body.cells)
    ensures var d := ReadDc(dc, src, at);
            d.Diff? && (!(-0x8000_0000 <= pred + d.value <= 0x7fff_ffff) || !(-32768 <= (pred + d.value) * dq[0] <= 32767)) ==>
              DecodeBlockSpec(dc, ac, dq, src, at, pred).body == Corrupt
  {
    hide ReadDc, AcFrom;
    var d := ReadDc(dc, src, at);
    if d.Diff? && Int16((pred + d.value) * dq[0]) {
      AcKeepsShorts(ac, Quant(dq), 64, src, d.after, 1, NoCells()[0 := (pred + d.value) * dq[0]]);
    }
  }
}
