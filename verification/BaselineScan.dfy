/** A whole sequential scan: MCUs, per-component prediction and restart
    intervals, as reference, as the decoder's loop, and as encoded bytes. */
module BaselineScan {
  import opened Wrappers
  import opened Bits
  import opened Huffman
  import opened BitReader
  import opened FastAc
  import opened Machine
  import opened Zigzag
  import opened Block
  import opened Coding

  /** What a component brings to a scan. */
  datatype Comp = Comp(dc: HuffCode, ac: HuffCode, dq: Steps)

  /** The components of the blocks of one MCU, in order. */
  ghost predicate ValidMcu(comps: seq<Comp>, mcu: seq<nat>)
  {
    forall b :: 0 <= b < |mcu| ==> mcu[b] < |comps|
  }

  datatype Units = Units(blocks: seq<Cells>, preds: seq<int>, next: nat) | UnitsCorrupt | UnitsCut

  /** Consecutive blocks; each is predicted from the last of its component. */
  function DecodeUnits(comps: seq<Comp>, us: seq<nat>, src: Bitstring, at: nat, preds: seq<int>): (r: Units)
    requires |preds| == |comps| && forall b :: 0 <= b < |us| ==> us[b] < |comps|
    ensures r.Units? ==> |r.blocks| == |us| && |r.preds| == |comps|
    decreases |us|
  {
    if |us| == 0 then Units([], preds, at) else
    var n := us[0];
    var r := DecodeBlockSpec(comps[n].dc, comps[n].ac, comps[n].dq, src, at, preds[n]);
    match r.body
    case Corrupt => UnitsCorrupt
    case Cut => UnitsCut
    case Done(cells, _, next) =>
      var rest := DecodeUnits(comps, us[1..], src, next, preds[n := r.pred]);
      if rest.Units? then Units([cells] + rest.blocks, rest.preds, rest.next) else rest
  }

  function Restart(m: int): bool { 0xd0 <= m <= 0xd7 }

  datatype ScanResult =
    | Finished(blocks: seq<Cells>)
    | ScanCorrupt
    | Unclear                       // the data ends early, or spare bits precede a marker

  function Prepend(a: seq<Cells>, r: ScanResult): ScanResult
  {
    if r.Finished? then Finished(a + r.blocks) else r
  }

  function Zeroes(n: nat): (r: seq<int>)
    ensures |r| == n && forall i :: 0 <= i < n ==> r[i] == 0
  {
    seq(n, _ => 0)
  }

  /** `left` MCUs remain, `todo` of them before a restart marker; the current
      segment starts at byte `start` and is read up to bit `at`. */
  function ScanFrom(comps: seq<Comp>, mcu: seq<nat>, interval: nat, d: seq<Byte>,
                    start: nat, at: nat, preds: seq<int>, todo: int, left: nat): ScanResult
    requires start <= |d| && |preds| == |comps| && forall b :: 0 <= b < |mcu| ==> mcu[b] < |comps|
    decreases left
  {
    if left == 0 then Finished([]) else
    var src := Destuff(d, start);
    match DecodeUnits(comps, mcu, src, at, preds)
    case UnitsCorrupt => ScanCorrupt
    case UnitsCut => Unclear
    case Units(blocks, preds', next) =>
      if todo > 1 then Prepend(blocks, ScanFrom(comps, mcu, interval, d, start, next, preds', todo - 1, left - 1))
      else if !(next <= |src| < next + 8) then Unclear
      else
        var m := NextMarker(d, start);
        if m.None? || !Restart(m.value.0) then Finished(blocks)
        else Prepend(blocks, ScanFrom(comps, mcu, interval, d, m.value.1, 0, Zeroes(|comps|), Todo(interval), left - 1))
  }

  /** Where the segment starts that is being read when the scan ends. */
  function LastStart(comps: seq<Comp>, mcu: seq<nat>, interval: nat, d: seq<Byte>,
                     start: nat, at: nat, preds: seq<int>, todo: int, left: nat): (s: nat)
    requires start <= |d| && |preds| == |comps| && forall b :: 0 <= b < |mcu| ==> mcu[b] < |comps|
    ensures start <= s <= |d|
    decreases left
  {
    if left == 0 then start else
    var r := DecodeUnits(comps, mcu, Destuff(d, start), at, preds);
    if !r.Units? then start
    else if todo > 1 then LastStart(comps, mcu, interval, d, start, r.next, r.preds, todo - 1, left - 1)
    else
      var m := NextMarker(d, start);
      if m.None? || !Restart(m.value.0) then start
      else LastStart(comps, mcu, interval, d, m.value.1, 0, Zeroes(|comps|), Todo(interval), left - 1)
  }

  /** MCUs before the next restart marker; "none" counts from 2^31 - 1. */
  function Todo(interval: nat): int
  {
    if interval == 0 then 0x7fff_ffff else interval
  }

  // ----- prediction, on any stream -----

  lemma {:induction false} AcKeepsDc(code: HuffCode, scale: Scale, e: nat, src: Bitstring, at: nat, k: nat, cells: Cells)
    requires e <= 64 && 1 <= k <= 79
    ensures var r := AcFrom(code, scale, e, src, at, k, cells); r.Done? ==> r.cells[0] == cells[0]
    decreases 79 - k
  {
    hide ReadStep, Scale.Place, Zig;
    if k < e {
      match ReadStep(code, src, at) {
        case Zero(r, next) =>
          if r >= 15 {
            AcKeepsDc(code, scale, e, src, next, k + 16, cells);
          }
        case Coef(r, v, next) =>
          if r <= 15 {
            ZigPositive(k + r);
            AcKeepsDc(code, scale, e, src, next, k + r + 1, cells[Zig(k + r) := scale.Place(v, Zig(k + r))]);
          }
        case Bad =>
        case Out =>
      }
    }
  }

  lemma ZigPositive(k: nat)
    requires 1 <= k < 79
    ensures Zig(k) > 0
  {
  }

  /** The DC differences of consecutive blocks, as far as they decode. */
  function Differences(comps: seq<Comp>, us: seq<nat>, src: Bitstring, at: nat, preds: seq<int>): (r: seq<int>)
    requires |preds| == |comps| && forall b :: 0 <= b < |us| ==> us[b] < |comps|
    ensures |r| <= |us|
    decreases |us|
  {
    if |us| == 0 then [] else
    var n := us[0];
    var first, r := ReadDc(comps[n].dc, src, at), DecodeBlockSpec(comps[n].dc, comps[n].ac, comps[n].dq, src, at, preds[n]);
    if !first.Diff? || !r.body.Done? then []
    else [first.value] + Differences(comps, us[1..], src, r.body.next, preds[n := r.pred])
  }

  /** Sum of the differences of component n among the first b blocks. */
  function SumOf(us: seq<nat>, ds: seq<int>, n: nat, b: nat): int
    requires b <= |us| && b <= |ds|
  {
    if b == 0 then 0 else SumOf(us, ds, n, b - 1) + if us[b - 1] == n then ds[b - 1] else 0
  }

  lemma {:induction false} SumShift(us: seq<nat>, ds: seq<int>, n: nat, b: nat)
    requires 1 <= b <= |us| && b <= |ds|
    ensures SumOf(us, ds, n, b) == (if us[0] == n then ds[0] else 0) + SumOf(us[1..], ds[1..], n, b - 1)
  {
    if b > 1 {
      SumShift(us, ds, n, b - 1);
    }
  }

  /** A DC value, dequantised. */
  function DcCell(c: Comp, dc: int): int { dc * c.dq[0] }

  lemma BlockDc(c: Comp, src: Bitstring, at: nat, pred: int)
    ensures var first, r := ReadDc(c.dc, src, at), DecodeBlockSpec(c.dc, c.ac, c.dq, src, at, pred);
            r.body.Done? ==> first.Diff? && r.pred == pred + first.value && r.body.cells[0] == DcCell(c, r.pred)
  {
    hide ReadDc, AcFrom;
    var first := ReadDc(c.dc, src, at);
    if first.Diff? {
      AcKeepsDc(c.ac, Quant(c.dq), 64, src, first.after, 1, NoCells()[0 := (pred + first.value) * c.dq[0]]);
    }
  }

  /** Whatever the stream, the predictor of each component is the exact sum of
      its differences since the start, and the DC cell of every block is
      exactly that sum times the quantisation step: nothing wraps. */
  lemma {:induction false} PredictionIsSum(comps: seq<Comp>, us: seq<nat>, src: Bitstring, at: nat, preds: seq<int>)
    requires |preds| == |comps| && forall b :: 0 <= b < |us| ==> us[b] < |comps|
    requires DecodeUnits(comps, us, src, at, preds).Units?
    ensures |Differences(comps, us, src, at, preds)| == |us|
    ensures var r, ds := DecodeUnits(comps, us, src, at, preds), Differences(comps, us, src, at, preds);
            && (forall n :: 0 <= n < |comps| ==> r.preds[n] == preds[n] + SumOf(us, ds, n, |us|))
            && (forall b :: 0 <= b < |us| ==>
                  r.blocks[b][0] == DcCell(comps[us[b]], preds[us[b]] + SumOf(us, ds, us[b], b + 1)))
    decreases |us|
  {
    hide ReadDc, DecodeBlockSpec, DcCell, SumOf;
    if |us| == 0 {
      NoSum(us);
    } else {
      var n0 := us[0];
      var r := DecodeBlockSpec(comps[n0].dc, comps[n0].ac, comps[n0].dq, src, at, preds[n0]);
      var preds' := preds[n0 := r.pred];
      BlockDc(comps[n0], src, at, preds[n0]);
      PredictionIsSum(comps, us[1..], src, r.body.next, preds');
      var ds := Differences(comps, us, src, at, preds);
      assert ds[1..] == Differences(comps, us[1..], src, r.body.next, preds');
      var rest := DecodeUnits(comps, us[1..], src, r.body.next, preds');
      SumPreds(us, ds, preds, preds', rest.preds);
      SumBlocks(comps, us, ds, preds, preds', r.body.cells, rest.blocks);
    }
  }

  lemma NoSum(us: seq<nat>)
    ensures forall n: nat :: SumOf(us, [], n, 0) == 0
  {
  }

  /** One block more in front, for the predictors. */
  lemma SumPreds(us: seq<nat>, ds: seq<int>, preds: seq<int>, preds': seq<int>, end: seq<int>)
    requires |us| == |ds| > 0 && us[0] < |preds| && preds' == preds[us[0] := preds[us[0]] + ds[0]] && |end| == |preds|
    requires forall n :: 0 <= n < |preds| ==> end[n] == preds'[n] + SumOf(us[1..], ds[1..], n, |us| - 1)
    ensures forall n :: 0 <= n < |preds| ==> end[n] == preds[n] + SumOf(us, ds, n, |us|)
  {
    hide SumOf;
    forall n | 0 <= n < |preds|
      ensures end[n] == preds[n] + SumOf(us, ds, n, |us|)
    {
      SumShift(us, ds, n, |us|);
    }
  }

  /** One block more in front, for the DC cells. */
  lemma SumBlocks(comps: seq<Comp>, us: seq<nat>, ds: seq<int>, preds: seq<int>, preds': seq<int>, first: Cells, rest: seq<Cells>)
    requires |us| == |ds| == |rest| + 1 && |preds| == |comps| && forall b :: 0 <= b < |us| ==> us[b] < |comps|
    requires preds' == preds[us[0] := preds[us[0]] + ds[0]] && first[0] == DcCell(comps[us[0]], preds'[us[0]])
    requires forall b :: 0 <= b < |rest| ==>
               rest[b][0] == DcCell(comps[us[1..][b]], preds'[us[1..][b]] + SumOf(us[1..], ds[1..], us[1..][b], b + 1))
    ensures forall b :: 0 <= b < |us| ==>
              ([first] + rest)[b][0] == DcCell(comps[us[b]], preds[us[b]] + SumOf(us, ds, us[b], b + 1))
  {
    hide SumOf, DcCell;
    forall b | 0 <= b < |us|
      ensures ([first] + rest)[b][0] == DcCell(comps[us[b]], preds[us[b]] + SumOf(us, ds, us[b], b + 1))
    {
      if b > 0 {
        assert us[1..][b - 1] == us[b] && ([first] + rest)[b] == rest[b - 1];
      }
      SumBlock(us, ds, preds, preds', b);
    }
  }

  lemma SumBlock(us: seq<nat>, ds: seq<int>, preds: seq<int>, preds': seq<int>, b: nat)
    requires b < |us| == |ds| && us[0] < |preds| && us[b] < |preds| && preds' == preds[us[0] := preds[us[0]] + ds[0]]
    ensures preds[us[b]] + SumOf(us, ds, us[b], b + 1) == preds'[us[b]] + SumOf(us[1..], ds[1..], us[b], b)
    ensures SumOf(us[1..], ds[1..], us[b], 0) == 0
  {
    hide SumOf;
    SumShift(us, ds, us[b], b + 1);
    EmptySum(us[1..], ds[1..], us[b]);
  }

  lemma EmptySum(us: seq<nat>, ds: seq<int>, n: nat)
    ensures SumOf(us, ds, n, 0) == 0
  {
  }

  // ----- the decoder's loop -----

  /** Tables and buffers of the components. */
  datatype Tables = Tables(dc: Table, ac: Table, fac: array<int>)

  ghost predicate Ready(comps: seq<Comp>, ts: seq<Tables>, data: array<int>)
    reads set t | t in ts :: t.fac
    reads set t | t in ts :: t.dc.size
    reads set t | t in ts :: t.dc.maxcode
    reads set t | t in ts :: t.dc.delta
    reads set t | t in ts :: t.dc.code
    reads set t | t in ts :: t.dc.fast
    reads set t | t in ts :: t.dc.values
    reads set t | t in ts :: t.ac.size
    reads set t | t in ts :: t.ac.maxcode
    reads set t | t in ts :: t.ac.delta
    reads set t | t in ts :: t.ac.code
    reads set t | t in ts :: t.ac.fast
    reads set t | t in ts :: t.ac.values
  {
    |ts| == |comps| && data.Length == 64 && forall n :: 0 <= n < |ts| ==>
      && ts[n].dc.Realizes(comps[n].dc) && ts[n].ac.Realizes(comps[n].ac)
      && ts[n].fac.Length == 512 && TableBuilt(comps[n].ac, ts[n].fac[..])
      && Separate(data, ts[n].dc, ts[n].ac, ts[n].fac)
  }

  /** Predictors are machine integers. */
  ghost predicate Fit(preds: seq<int>)
  {
    forall n :: 0 <= n < |preds| ==> Int32(preds[n])
  }

  lemma FitAt(preds: seq<int>, n: nat)
    requires Fit(preds) && n < |preds|
    ensures Int32(preds[n])
  {
  }

  lemma FitUpdate(preds: seq<int>, n: nat, p: int)
    requires Fit(preds) && n < |preds| && Int32(p)
    ensures Fit(preds[n := p])
  {
    hide Int32;
  }

  /** One block of component n. */
  method DecodeUnit(j: Reader, data: array<int>, ts: seq<Tables>, n: nat, pred: int, comps: seq<Comp>)
    returns (ok: bool, pred': int)
    requires j.Valid() && Ready(comps, ts, data) && n < |comps| && Int32(pred)
    modifies j`pos, j`buffer, j`bits, j`marker, j`nomore, j`at, data
    ensures old(j.pos) <= j.pos <= |j.data|
    ensures Ready(comps, ts, data)
    ensures ok ==> j.Valid() && Int32(pred')
    ensures var r := DecodeBlockSpec(comps[n].dc, comps[n].ac, comps[n].dq, j.src, old(j.at), pred);
            match r.body
            case Done(cells, _, next) => ok && data[..] == cells && j.at == next && pred' == r.pred
            case Corrupt => !ok
            case Cut => true
  {
    hide DecodeBlockSpec, TableBuilt, Table.Built, HuffCode.Safe, Holds, Destuff, NextMarker;
    ok, pred' := DecodeBlock(j, data, ts[n].dc, ts[n].ac, ts[n].fac, pred, comps[n].dq, comps[n].dc, comps[n].ac);
  }

  /** The blocks of one MCU. */
  method DecodeMcu(j: Reader, data: array<int>, ts: seq<Tables>, mcu: seq<nat>, preds: seq<int>, comps: seq<Comp>)
    returns (ok: bool, blocks: seq<Cells>, preds': seq<int>)
    requires j.Valid() && data.Length == 64 && Ready(comps, ts, data) && |preds| == |comps| && ValidMcu(comps, mcu)
    requires Fit(preds)
    modifies j`pos, j`buffer, j`bits, j`marker, j`nomore, j`at, data
    ensures old(j.pos) <= j.pos <= |j.data|
    ensures |preds'| == |comps| && Ready(comps, ts, data)
    ensures ok ==> j.Valid() && Fit(preds')
    ensures match DecodeUnits(comps, mcu, j.src, old(j.at), preds)
            case Units(bs, ps, next) => ok && blocks == bs && preds' == ps && j.at == next
            case UnitsCorrupt => !ok
            case UnitsCut => true
  {
    hide DecodeBlockSpec, Destuff, NextMarker, Holds, Int32, Ready, DecodeUnits, Fit, Reader.Valid;
    ghost var goal := DecodeUnits(comps, mcu, j.src, j.at, preds);
    ok, blocks, preds' := true, [], preds;
    assert mcu[0..] == mcu;
    FollowsAtStart(goal);
    InsideData(j);
    for b := 0 to |mcu|
      invariant old(j.pos) <= j.pos <= |j.data|
      invariant ok && j.Valid() && data.Length == 64 && Ready(comps, ts, data) && |preds'| == |comps|
      invariant Fit(preds')
      invariant Follows(goal, blocks, DecodeUnits(comps, mcu[b..], j.src, j.at, preds'))
    {
      var n := mcu[b];
      FollowsStep(comps, mcu, b, j.src, j.at, preds', goal, blocks);
      var p: int;
      FitAt(preds', n);
      ok, p := DecodeUnit(j, data, ts, n, preds'[n], comps);
      if !ok {
        return;
      }
      blocks := blocks + [data[..]];
      FitUpdate(preds', n, p);
      preds' := preds'[n := p];
    }
    FollowsAtEnd(comps, mcu[|mcu|..], j.src, j.at, preds', goal, blocks);
  }

  lemma FollowsAtStart(goal: Units)
    ensures Follows(goal, [], goal)
  {
    assert goal.Units? ==> [] + goal.blocks == goal.blocks;
  }

  lemma FollowsAtEnd(comps: seq<Comp>, us: seq<nat>, src: Bitstring, at: nat, preds: seq<int>, goal: Units, done: seq<Cells>)
    requires |preds| == |comps| && |us| == 0 && Follows(goal, done, DecodeUnits(comps, us, src, at, preds))
    ensures goal.UnitsCut? || goal == Units(done, preds, at)
  {
    assert done + [] == done;
  }

  lemma FollowsStep(comps: seq<Comp>, mcu: seq<nat>, b: nat, src: Bitstring, at: nat, preds: seq<int>, goal: Units, done: seq<Cells>)
    requires |preds| == |comps| && ValidMcu(comps, mcu) && b < |mcu|
    requires Follows(goal, done, DecodeUnits(comps, mcu[b..], src, at, preds))
    ensures var n := mcu[b];
            var r := DecodeBlockSpec(comps[n].dc, comps[n].ac, comps[n].dq, src, at, preds[n]);
            match r.body
            case Corrupt => !goal.Units?
            case Cut => goal.UnitsCut?
            case Done(cells, _, next) =>
              Follows(goal, done + [cells], DecodeUnits(comps, mcu[b + 1..], src, next, preds[n := r.pred]))
  {
    hide DecodeBlockSpec;
    var us, n := mcu[b..], mcu[b];
    assert us[1..] == mcu[b + 1..];
    var r := DecodeBlockSpec(comps[n].dc, comps[n].ac, comps[n].dq, src, at, preds[n]);
    if r.body.Done? {
      var rest := DecodeUnits(comps, us[1..], src, r.body.next, preds[n := r.pred]);
      assert rest.Units? ==> done + ([r.body.cells] + rest.blocks) == done + [r.body.cells] + rest.blocks;
    }
  }

  /** What is still to come completes what has been decoded. */
  ghost predicate Follows(goal: Units, done: seq<Cells>, rest: Units)
  {
    match goal
    case UnitsCut => true
    case UnitsCorrupt => rest.UnitsCorrupt?
    case Units(bs, ps, next) => rest.Units? && bs == done + rest.blocks && ps == rest.preds && next == rest.next
  }

  /** stbi__jpeg_reset: a new segment begins at the read position. */
  method StartSegment(j: Reader, data: array<int>, ts: seq<Tables>, comps: seq<Comp>)
    requires j.pos <= |j.data| && data.Length == 64 && Ready(comps, ts, data)
    modifies j
    ensures old(j.pos) <= j.pos <= |j.data|
    ensures j.Valid() && Ready(comps, ts, data) && j.pos == old(j.pos) && j.at == 0
    ensures j.src == Destuff(j.data, j.pos) && j.goal == NextMarker(j.data, j.pos)
  {
    hide Destuff, NextMarker, Holds, TableBuilt, Table.Built, HuffCode.Safe;
    j.Reset();
  }

  method SeekMarker(j: Reader, data: array<int>, ts: seq<Tables>, comps: seq<Comp>)
    requires j.Valid() && data.Length == 64 && Ready(comps, ts, data)
    modifies j`pos, j`buffer, j`bits, j`marker, j`nomore
    ensures old(j.pos) <= j.pos <= |j.data|
    ensures Ready(comps, ts, data) && j.Valid()
    ensures j.at <= |j.src| < j.at + 8 && j.goal.Some? ==> j.nomore && j.goal == Some((j.marker, j.pos))
    ensures j.goal.None? ==> j.marker == 0xff
  {
    hide Destuff, NextMarker, Holds, TableBuilt, Table.Built, HuffCode.Safe;
    j.FindMarker();
  }

  /** The restart interval is used up: look for a restart marker. */
  method NextInterval(j: Reader, data: array<int>, ts: seq<Tables>, comps: seq<Comp>) returns (again: bool)
    requires j.Valid() && data.Length == 64 && Ready(comps, ts, data)
    modifies j
    ensures old(j.pos) <= j.pos <= |j.data|
    ensures Ready(comps, ts, data) && j.Valid()
    ensures again ==> j.at == 0 && j.src == Destuff(j.data, j.pos) && j.goal == NextMarker(j.data, j.pos)
    ensures !again ==> j.src == old(j.src) && j.goal == old(j.goal)
    ensures old(j.at <= |j.src| < j.at + 8) ==>
              again == old(j.goal.Some? && Restart(j.goal.value.0)) && (again ==> j.pos == old(j.goal).value.1)
  {
    hide Destuff, NextMarker, Holds, Ready;
    SeekMarker(j, data, ts, comps);
    if !Restart(j.marker) {
      return false;
    }
    StartSegment(j, data, ts, comps);
    return true;
  }

  lemma PrependTwice(a: seq<Cells>, b: seq<Cells>, r: ScanResult)
    ensures Prepend(a, Prepend(b, r)) == Prepend(a + b, r)
    ensures Prepend([], r) == r
  {
    if r.Finished? {
      assert a + (b + r.blocks) == a + b + r.blocks;
      assert [] + r.blocks == r.blocks;
    }
  }

  lemma PrependEnds(a: seq<Cells>, b: seq<Cells>)
    ensures Prepend(a, Finished(b)) == Finished(a + b)
    ensures Prepend(a, ScanCorrupt) == ScanCorrupt && Prepend(a, Unclear) == Unclear
  {
  }

  datatype Status = Go | Stop | Fail

  /** The reader is in the segment that starts at byte `start`. */
  ghost predicate InSegment(j: Reader, start: nat)
    reads j
  {
    j.Valid() && start <= |j.data| && j.src == Destuff(j.data, start) && j.goal == NextMarker(j.data, start)
  }

  lemma Entered(j: Reader, start: nat)
    requires j.Valid() && start <= |j.data| && j.src == Destuff(j.data, start) && j.goal == NextMarker(j.data, start)
    ensures InSegment(j, start)
  {
    hide Reader.Valid, Destuff, NextMarker;
  }

  /** One MCU, and the restart that may follow it. */
  method ParseMcu(j: Reader, data: array<int>, ts: seq<Tables>, mcu: seq<nat>, interval: nat, comps: seq<Comp>,
                  preds: seq<int>, todo: int, ghost start: nat, ghost left: nat)
    returns (status: Status, blocks: seq<Cells>, preds': seq<int>, todo': int, ghost start': nat)
    requires InSegment(j, start) && data.Length == 64 && Ready(comps, ts, data) && ValidMcu(comps, mcu)
    requires |preds| == |comps| && todo >= 1 && left >= 1 && Fit(preds)
    modifies j, data
    ensures old(j.pos) <= j.pos <= |j.data|
    ensures Ready(comps, ts, data) && |preds'| == |comps|
    ensures status.Go? ==> InSegment(j, start') && start' <= |j.data| && todo' >= 1 && Fit(preds')
    ensures var r := ScanFrom(comps, mcu, interval, j.data, start, old(j.at), preds, todo, left);
            || r.Unclear?
            || match status
               case Fail => r.ScanCorrupt?
               case Stop => r == Finished(blocks)
               case Go => r == Prepend(blocks, ScanFrom(comps, mcu, interval, j.data, start', j.at, preds', todo', left - 1))
    ensures var r := ScanFrom(comps, mcu, interval, j.data, start, old(j.at), preds, todo, left);
            var s := LastStart(comps, mcu, interval, j.data, start, old(j.at), preds, todo, left);
            || r.Unclear? || status.Fail?
            || (status.Stop? && s == start && InSegment(j, start))
            || (status.Go? && s == LastStart(comps, mcu, interval, j.data, start', j.at, preds', todo', left - 1))
  {
    hide DecodeUnits, Destuff, NextMarker, Holds, Ready, Int32, Prepend, Fit;
    var ok: bool;
    start', todo' := start, todo - 1;
    ok, blocks, preds' := DecodeMcu(j, data, ts, mcu, preds, comps);
    if !ok {
      status := Fail;
      return;
    }
    status := Go;
    if todo' <= 0 {
      var again := NextInterval(j, data, ts, comps);
      if !again {
        status := Stop;
        return;
      }
      start' := j.pos;
      preds', todo' := Zeroes(|comps|), Todo(interval);
      ZeroesFit(|comps|);
    }
  }

  lemma ZeroesFit(n: nat)
    ensures Fit(Zeroes(n))
  {
  }

  /** Parse the entropy-coded data of a scan: MCU after MCU, resetting the
      prediction and the bit buffer at every restart marker. */
  method ParseScan(j: Reader, data: array<int>, ts: seq<Tables>, mcu: seq<nat>, interval: nat, total: nat, comps: seq<Comp>)
    returns (ok: bool, blocks: seq<Cells>)
    requires j.pos <= |j.data| && data.Length == 64 && Ready(comps, ts, data) && ValidMcu(comps, mcu)
    modifies j, data
    ensures old(j.pos) <= j.pos <= |j.data|
    ensures match ScanFrom(comps, mcu, interval, j.data, old(j.pos), 0, Zeroes(|comps|), Todo(interval), total)
            case Finished(bs) => ok && blocks == bs
            case ScanCorrupt => !ok
            case Unclear => true
    ensures ScanFrom(comps, mcu, interval, j.data, old(j.pos), 0, Zeroes(|comps|), Todo(interval), total).Finished? ==>
              InSegment(j, LastStart(comps, mcu, interval, j.data, old(j.pos), 0, Zeroes(|comps|), Todo(interval), total))
  {
    hide DecodeUnits, Destuff, NextMarker, Holds, Ready, ScanFrom, LastStart, Prepend, Fit, Int32, InSegment, Reader.Valid;
    ghost var start: nat := j.pos;
    ghost var goal := ScanFrom(comps, mcu, interval, j.data, start, 0, Zeroes(|comps|), Todo(interval), total);
    ghost var end := LastStart(comps, mcu, interval, j.data, start, 0, Zeroes(|comps|), Todo(interval), total);
    StartSegment(j, data, ts, comps);
    Entered(j, start);
    var preds, todo := Zeroes(|comps|), Todo(interval);
    blocks := [];
    PrependTwice([], [], goal);
    ZeroesFit(|comps|);
    for m := 0 to total
      invariant old(j.pos) <= j.pos <= |j.data|
      invariant InSegment(j, start) && start <= |j.data| && Ready(comps, ts, data) && |preds| == |comps| && todo >= 1
      invariant Fit(preds)
      invariant goal.Unclear? || goal == Prepend(blocks, ScanFrom(comps, mcu, interval, j.data, start, j.at, preds, todo, total - m))
      invariant goal.Unclear? || end == LastStart(comps, mcu, interval, j.data, start, j.at, preds, todo, total - m)
    {
      var status: Status, bs: seq<Cells>;
      status, bs, preds, todo, start := ParseMcu(j, data, ts, mcu, interval, comps, preds, todo, start, total - m);
      PrependEnds(blocks, bs);
      if status.Fail? {
        return false, blocks;
      }
      if status.Go? {
        PrependTwice(blocks, bs, ScanFrom(comps, mcu, interval, j.data, start, j.at, preds, todo, total - m - 1));
      }
      blocks := blocks + bs;
      if status.Stop? {
        return true, blocks;
      }
    }
    ok := true;
    NothingLeft(comps, mcu, interval, j.data, start, j.at, preds, todo, blocks);
  }

  lemma NothingLeft(comps: seq<Comp>, mcu: seq<nat>, interval: nat, d: seq<Byte>, start: nat, at: nat, preds: seq<int>, todo: int, a: seq<Cells>)
    requires start <= |d| && |preds| == |comps| && ValidMcu(comps, mcu)
    ensures Prepend(a, ScanFrom(comps, mcu, interval, d, start, at, preds, todo, 0)) == Finished(a)
    ensures LastStart(comps, mcu, interval, d, start, at, preds, todo, 0) == start
  {
    assert a + [] == a;
  }

  // ----- the encoder's side -----

  /** Dequantised coefficients in row-major order. */
  function Dequant(zz: Cells, dq: Steps): (r: Cells)
    ensures forall x :: 0 <= x < 64 ==> r[x] == ToShort(zz[Zag(x)] * dq[x])
  {
    seq(64, x requires 0 <= x < 64 => ToShort(zz[Zag(x)] * dq[x]))
  }

  function EncodeUnits(comps: seq<Comp>, us: seq<nat>, zzs: seq<Cells>, preds: seq<int>): Option<Bitstring>
    requires |preds| == |comps| && |zzs| == |us| && forall b :: 0 <= b < |us| ==> us[b] < |comps|
    decreases |us|
  {
    if |us| == 0 then Some([]) else
    var n := us[0];
    Join(EncodeBlock(comps[n].dc, comps[n].ac, zzs[0], preds[n]),
         EncodeUnits(comps, us[1..], zzs[1..], preds[n := zzs[0][0]]))
  }

  function PredsAfter(us: seq<nat>, zzs: seq<Cells>, preds: seq<int>): (r: seq<int>)
    requires |zzs| == |us| && forall b :: 0 <= b < |us| ==> us[b] < |preds|
    ensures |r| == |preds|
    decreases |us|
  {
    if |us| == 0 then preds else PredsAfter(us[1..], zzs[1..], preds[us[0] := zzs[0][0]])
  }

  /** DC values that the decoder's guards let through. */
  ghost predicate Representable(comps: seq<Comp>, us: seq<nat>, zzs: seq<Cells>)
    requires |zzs| == |us| && forall b :: 0 <= b < |us| ==> us[b] < |comps|
  {
    forall b :: 0 <= b < |us| ==> Int32(zzs[b][0]) && Int16(zzs[b][0] * comps[us[b]].dq[0])
  }

  function Dequants(comps: seq<Comp>, us: seq<nat>, zzs: seq<Cells>): (r: seq<Cells>)
    requires |zzs| == |us| && forall b :: 0 <= b < |us| ==> us[b] < |comps|
    ensures |r| == |us|
    decreases |us|
  {
    if |us| == 0 then [] else [Dequant(zzs[0], comps[us[0]].dq)] + Dequants(comps, us[1..], zzs[1..])
  }

  ghost predicate AllSafe(comps: seq<Comp>)
  {
    forall n :: 0 <= n < |comps| ==> comps[n].dc.Safe() && comps[n].ac.Safe()
  }

  lemma UnitRoundTrip(c: Comp, zz: Cells, pred: int, src: Bitstring, at: nat)
    requires c.dc.Safe() && c.ac.Safe() && Int32(zz[0]) && Int16(zz[0] * c.dq[0])
    requires EncodeBlock(c.dc, c.ac, zz, pred).Some? && Here(src, at, EncodeBlock(c.dc, c.ac, zz, pred).value)
    ensures var r := DecodeBlockSpec(c.dc, c.ac, c.dq, src, at, pred);
            && r.pred == zz[0] && r.body.Done? && r.body.cells == Dequant(zz, c.dq)
            && r.body.next == at + |EncodeBlock(c.dc, c.ac, zz, pred).value|
  {
    hide EncodeBlock, DecodeBlockSpec, Here, Zig, Zag, ToShort, HuffCode.Safe;
    BlockRoundTrip(c.dc, c.ac, zz, c.dq, pred, src, at);
    var cells := DecodeBlockSpec(c.dc, c.ac, c.dq, src, at, pred).body.cells;
    forall x | 0 <= x < 64 ensures cells[x] == Dequant(zz, c.dq)[x] {
      ZigPermutes(x);
      assert cells[Zig(Zag(x))] == ToShort(zz[Zag(x)] * c.dq[Zig(Zag(x))]);
    }
  }

  lemma {:induction false} UnitsRoundTrip(comps: seq<Comp>, us: seq<nat>, zzs: seq<Cells>, src: Bitstring, at: nat, preds: seq<int>)
    requires AllSafe(comps) && |preds| == |comps| && |zzs| == |us| && forall b :: 0 <= b < |us| ==> us[b] < |comps|
    requires Representable(comps, us, zzs)
    requires EncodeUnits(comps, us, zzs, preds).Some? && Here(src, at, EncodeUnits(comps, us, zzs, preds).value)
    ensures DecodeUnits(comps, us, src, at, preds) ==
              Units(Dequants(comps, us, zzs), PredsAfter(us, zzs, preds), at + |EncodeUnits(comps, us, zzs, preds).value|)
    decreases |us|
  {
    hide EncodeBlock, DecodeBlockSpec, Here, Dequant, HuffCode.Safe, Int32, Int16;
    if |us| > 0 {
      var n := us[0];
      var e := EncodeBlock(comps[n].dc, comps[n].ac, zzs[0], preds[n]).value;
      HereConcat(src, at, e, EncodeUnits(comps, us[1..], zzs[1..], preds[n := zzs[0][0]]).value);
      UnitRoundTrip(comps[n], zzs[0], preds[n], src, at);
      UnitsRoundTrip(comps, us[1..], zzs[1..], src, at + |e|, preds[n := zzs[0][0]]);
    }
  }
}
