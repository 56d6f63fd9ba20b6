/** Progressive DC scans over the MCUs of several components, with restart
    intervals: predictors per component, and one bit per block in refinements. */
module DcIntervals {
  import opened Wrappers
  import opened Bits
  import opened Zigzag
  import opened Huffman
  import opened BitReader
  import opened Machine
  import opened Block
  import opened Coding
  import opened Progressive
  import opened DcScans
  import opened Stuffing
  import opened BaselineScan
  import opened BandIntervals

  /** The codes of the components, and the bit position. */
  datatype DcPass = DcPass(codes: seq<HuffCode>, refine: bool, al: nat)

  /** The units of an MCU name components of the scan. */
  ghost predicate GoodMcu(p: DcPass, mcu: seq<nat>, preds: seq<int>)
  {
    |mcu| >= 1 && |preds| == |p.codes| && forall b :: 0 <= b < |mcu| ==> mcu[b] < |p.codes|
  }

  /** One block of component n: its cells, the new predictor, and the position. */
  function DcStep(p: DcPass, src: Bitstring, at: nat, n: nat, pred: int, cells: Cells): BlockResult
    requires n < |p.codes|
  {
    if p.refine then BlockResult.Block(pred, DcRefine(p.al, src, at, cells)) else DcFirst(p.codes[n], p.al, src, at, pred)
  }

  /** The blocks that remain, in scan order; the next is number u of its MCU, and
      `todo` MCUs, this one included, come before a restart marker.  Where a scan
      ends early the other blocks stay as they are. */
  function DcFrom(p: DcPass, mcu: seq<nat>, interval: nat, d: seq<Byte>, start: nat, at: nat, preds: seq<int>,
                  u: nat, todo: int, blocks: seq<Cells>): (r: PassResult)
    requires GoodMcu(p, mcu, preds) && u < |mcu| && start <= |d|
    ensures r.Passed? ==> start <= r.last <= |d| && |r.blocks| == |blocks|
    decreases |blocks|
  {
    if |blocks| == 0 then Passed([], start) else
    var src, n := Destuff(d, start), mcu[u];
    var r := DcStep(p, src, at, n, preds[n], blocks[0]);
    match r.body
    case Corrupt => PassCorrupt
    case Cut => PassUnclear
    case Done(c, _, next) =>
      var preds' := preds[n := r.pred];
      if u + 1 < |mcu| then Ahead([c], DcFrom(p, mcu, interval, d, start, next, preds', u + 1, todo, blocks[1..]))
      else if todo > 1 then Ahead([c], DcFrom(p, mcu, interval, d, start, next, preds', 0, todo - 1, blocks[1..]))
      else if !(next <= |src| < next + 8) then PassUnclear
      else
        var m := NextMarker(d, start);
        if m.None? || !Restart(m.value.0) then Passed([c] + blocks[1..], start)
        else Ahead([c], DcFrom(p, mcu, interval, d, m.value.1, 0, Zeroes(|p.codes|), 0, Todo(interval), blocks[1..]))
  }

  // ----- the decoder's loop -----

  ghost predicate DcReady(p: DcPass, hs: seq<Table>, data: array<int>)
    reads set h | h in hs :: h.size
    reads set h | h in hs :: h.maxcode
    reads set h | h in hs :: h.delta
    reads set h | h in hs :: h.code
    reads set h | h in hs :: h.fast
    reads set h | h in hs :: h.values
  {
    && |hs| == |p.codes| && data.Length == 64 && p.al <= 13
    && forall n :: 0 <= n < |hs| ==> hs[n].Realizes(p.codes[n]) && Apart(data, hs[n])
  }

  method LoadDc(data: array<int>, cells: Cells, p: DcPass, hs: seq<Table>)
    requires DcReady(p, hs, data)
    modifies data
    ensures DcReady(p, hs, data) && data[..] == cells
  {
    hide Table.Built, HuffCode.Safe;
    for i := 0 to 64
      invariant forall x :: 0 <= x < i ==> data[x] == cells[x]
    {
      data[i] := cells[i];
    }
  }

  method DecodeDcBlock(j: Reader, data: array<int>, hs: seq<Table>, p: DcPass, n: nat, pred: int) returns (ok: bool, pred': int)
    requires j.Valid() && DcReady(p, hs, data) && n < |hs| && Int32(pred)
    modifies j`pos, j`buffer, j`bits, j`marker, j`nomore, j`at, data
    ensures old(j.pos) <= j.pos <= |j.data|
    ensures DcReady(p, hs, data) && (ok ==> j.Valid() && Int32(pred'))
    ensures var r := DcStep(p, j.src, old(j.at), n, pred, old(data[..]));
            match r.body
            case Done(c, _, next) => ok && data[..] == c && j.at == next && pred' == r.pred
            case Corrupt => !ok
            case Cut => true
  {
    hide DcFirst, DcRefine, Table.Built, HuffCode.Safe, Holds, Destuff, NextMarker;
    ok, pred' := DecodeDc(j, data, hs[n], pred, p.refine, 0, p.al, p.codes[n]);
  }

  method StartDc(j: Reader, p: DcPass, hs: seq<Table>, data: array<int>)
    requires j.pos <= |j.data| && DcReady(p, hs, data)
    modifies j
    ensures DcReady(p, hs, data) && j.pos == old(j.pos) && j.at == 0 && InSegment(j, j.pos)
  {
    hide Destuff, NextMarker, Holds, Table.Built, HuffCode.Safe;
    j.Reset();
  }

  method SeekDcMarker(j: Reader, p: DcPass, hs: seq<Table>, data: array<int>)
    requires j.Valid() && DcReady(p, hs, data)
    modifies j`pos, j`buffer, j`bits, j`marker, j`nomore
    ensures DcReady(p, hs, data) && j.Valid() && old(j.pos) <= j.pos <= |j.data|
    ensures j.at <= |j.src| < j.at + 8 && j.goal.Some? ==> j.nomore && j.goal == Some((j.marker, j.pos))
    ensures j.goal.None? ==> j.marker == 0xff
  {
    hide Destuff, NextMarker, Holds, Table.Built, HuffCode.Safe;
    j.FindMarker();
  }

  /** One block, the end of its MCU, and the restart that may follow. */
  method ParseDcBlock(j: Reader, data: array<int>, hs: seq<Table>, p: DcPass, mcu: seq<nat>, interval: nat, blocks: seq<Cells>,
                      ghost i: nat, cells: Cells, preds: seq<int>, u: nat, todo: int, ghost start: nat)
    returns (status: Status, c: Cells, preds': seq<int>, u': nat, todo': int, ghost start': nat)
    requires InSegment(j, start) && DcReady(p, hs, data) && GoodMcu(p, mcu, preds) && u < |mcu| && todo >= 1 && Fit(preds)
    requires i < |blocks| && cells == blocks[i]
    modifies j, data
    ensures old(j.pos) <= j.pos <= |j.data|
    ensures DcReady(p, hs, data) && start <= |j.data|
    ensures status.Go? ==> InSegment(j, start') && start' <= |j.data| && todo' >= 1 && Fit(preds') && GoodMcu(p, mcu, preds') && u' < |mcu|
    ensures var r := DcFrom(p, mcu, interval, j.data, start, old(j.at), preds, u, todo, blocks[i..]);
            || r.PassUnclear?
            || match status
               case Fail => r.PassCorrupt?
               case Stop => r == Passed([c] + blocks[i + 1..], start) && InSegment(j, start)
               case Go => GoodMcu(p, mcu, preds') && u' < |mcu| && start' <= |j.data| &&
                          r == Ahead([c], DcFrom(p, mcu, interval, j.data, start', j.at, preds', u', todo', blocks[i + 1..]))
  {
    hide Destuff, NextMarker, Holds, DcReady, DcStep, Ahead, Fit, Int32;
    DcShape(p, hs, data);
    assert blocks[i..][0] == cells && blocks[i..][1..] == blocks[i + 1..];
    LoadDc(data, cells, p, hs);
    var n := mcu[u];
    start', todo', u' := start, todo, u + 1;
    FitAt(preds, n);
    var ok, pred := DecodeDcBlock(j, data, hs, p, n, preds[n]);
    c, preds' := data[..], preds;
    if !ok {
      status := Fail;
      return;
    }
    FitUpdate(preds, n, pred);
    preds' := preds[n := pred];
    status := Go;
    if u' == |mcu| {
      u', todo' := 0, todo - 1;
      if todo' <= 0 {
        SeekDcMarker(j, p, hs, data);
        if !Restart(j.marker) {
          status := Stop;
          return;
        }
        StartDc(j, p, hs, data);
        ZeroesFit(|p.codes|);
        start', preds', todo' := j.pos, Zeroes(|p.codes|), Todo(interval);
      }
    }
  }

  lemma DcShape(p: DcPass, hs: seq<Table>, data: array<int>)
    requires DcReady(p, hs, data)
    ensures data.Length == 64 && |hs| == |p.codes| && p.al <= 13
  {
  }

  /** A DC scan over the bytes of the file, MCU after MCU, with restarts. */
  method ParseDcScan(j: Reader, data: array<int>, hs: seq<Table>, p: DcPass, mcu: seq<nat>, interval: nat, blocks: seq<Cells>)
    returns (ok: bool, out: seq<Cells>)
    requires j.pos <= |j.data| && DcReady(p, hs, data) && GoodMcu(p, mcu, Zeroes(|p.codes|))
    modifies j, data
    ensures old(j.pos) <= j.pos <= |j.data|
    ensures match DcFrom(p, mcu, interval, j.data, old(j.pos), 0, Zeroes(|p.codes|), 0, Todo(interval), blocks)
            case Passed(bs, last) => ok && out == bs && InSegment(j, last)
            case PassCorrupt => !ok
            case PassUnclear => true
  {
    hide Destuff, NextMarker, Holds, DcReady, DcFrom, Ahead, InSegment, Reader.Valid, Fit;
    ghost var start: nat := j.pos;
    ghost var goal := DcFrom(p, mcu, interval, j.data, start, 0, Zeroes(|p.codes|), 0, Todo(interval), blocks);
    StartDc(j, p, hs, data);
    var preds, todo := Zeroes(|p.codes|), Todo(interval);
    var u: nat := 0;
    ZeroesFit(|p.codes|);
    var done: seq<Cells> := [];
    assert blocks[0..] == blocks;
    AheadTwice([], [], goal);
    for i := 0 to |blocks|
      invariant old(j.pos) <= j.pos <= |j.data| && start <= |j.data|
      invariant InSegment(j, start) && DcReady(p, hs, data) && GoodMcu(p, mcu, preds) && u < |mcu| && todo >= 1 && Fit(preds)
      invariant goal.PassUnclear? || goal == Ahead(done, DcFrom(p, mcu, interval, j.data, start, j.at, preds, u, todo, blocks[i..]))
    {
      ghost var before, was := done, start;
      var status: Status, c: Cells;
      status, c, preds, u, todo, start := ParseDcBlock(j, data, hs, p, mcu, interval, blocks, i, blocks[i], preds, u, todo, start);
      AheadEnds(before, [c] + blocks[i + 1..], was);
      if status.Fail? {
        return false, done;
      }
      done := done + [c];
      if status.Stop? {
        assert before + ([c] + blocks[i + 1..]) == done + blocks[i + 1..];
        return true, done + blocks[i + 1..];
      }
      AheadTwice(before, [c], DcFrom(p, mcu, interval, j.data, start, j.at, preds, u, todo, blocks[i + 1..]));
    }
    assert blocks[|blocks|..] == [];
    NoDcLeft(p, mcu, interval, j.data, start, j.at, preds, u, todo, done);
    return true, done;
  }

  lemma NoDcLeft(p: DcPass, mcu: seq<nat>, interval: nat, d: seq<Byte>, start: nat, at: nat, preds: seq<int>, u: nat, todo: int, a: seq<Cells>)
    requires GoodMcu(p, mcu, preds) && u < |mcu| && start <= |d|
    ensures Ahead(a, DcFrom(p, mcu, interval, d, start, at, preds, u, todo, [])) == Passed(a, start)
  {
    assert a + [] == a;
  }

  // ----- the encoder's side -----

  /** The bits of consecutive blocks of a segment, from block u of an MCU on. */
  ghost function EncodeDcBits(p: DcPass, mcu: seq<nat>, u: nat, vs: seq<int>, preds: seq<int>): Option<Bitstring>
    requires GoodMcu(p, mcu, preds) && u < |mcu|
    decreases |vs|
  {
    if |vs| == 0 then Some([]) else
    var n, u' := mcu[u], if u + 1 < |mcu| then u + 1 else 0;
    var x := Shr(vs[0], p.al);
    if p.refine then Join(Some([x % 2 == 1]), EncodeDcBits(p, mcu, u', vs[1..], preds))
    else Join(PutCoef(p.codes[n], 0, x - preds[n]), EncodeDcBits(p, mcu, u', vs[1..], preds[n := x]))
  }

  /** Blocks that still belong to the interval. */
  function Room(todo: nat, u: nat, n: nat): int
  {
    todo * n - u
  }

  lemma RoomStep(todo: nat, u: nat, n: nat)
    requires todo >= 1 && u < n
    ensures Room(todo, u, n) >= 1 && (Room(todo, u, n) == 1 <==> todo == 1 && u + 1 == n)
    ensures u + 1 < n ==> Room(todo, u + 1, n) == Room(todo, u, n) - 1
    ensures u + 1 == n ==> Room(todo - 1, 0, n) == Room(todo, u, n) - 1
  {
    assert todo * n == (todo - 1) * n + n;
    if todo > 1 {
      assert (todo - 1) * n == (todo - 2) * n + n;
      Natural(todo - 2, n);
    }
  }

  lemma Natural(a: nat, b: nat)
    ensures a * b >= 0
  {
  }

  ghost predicate AllShort(vs: seq<int>)
  {
    forall i :: 0 <= i < |vs| ==> Int16(vs[i])
  }

  ghost predicate AllSafeCodes(p: DcPass)
  {
    p.al <= 13 && forall n :: 0 <= n < |p.codes| ==> p.codes[n].Safe()
  }

  /** A block after a pass: it has the new precision, if a refinement found it at the
      precision before. */
  ghost predicate Sharper(p: DcPass, was: Cells, now: Cells, v: int)
  {
    (p.refine ==> was[0] == DcApprox(v, p.al + 1)) ==> now == DcResult(p.refine, was, v, p.al)
  }

  ghost predicate AllSharper(p: DcPass, was: seq<Cells>, now: seq<Cells>, vs: seq<int>)
  {
    |was| == |now| == |vs| && forall i :: 0 <= i < |vs| ==> Sharper(p, was[i], now[i], vs[i])
  }

  /** One written block. */
  lemma StepRoundTrip(p: DcPass, src: Bitstring, at: nat, n: nat, pred: int, cells: Cells, v: int)
    requires AllSafeCodes(p) && n < |p.codes| && Int16(v)
    requires p.refine ==> Here(src, at, [Shr(v, p.al) % 2 == 1])
    requires !p.refine ==>
               PutCoef(p.codes[n], 0, Shr(v, p.al) - pred).Some? && Here(src, at, PutCoef(p.codes[n], 0, Shr(v, p.al) - pred).value)
    ensures var r := DcStep(p, src, at, n, pred, cells);
            && r.body.Done? && Sharper(p, cells, r.body.cells, v) && r.pred == (if p.refine then pred else Shr(v, p.al))
            && r.body.next == at + if p.refine then 1 else |PutCoef(p.codes[n], 0, Shr(v, p.al) - pred).value|
  {
    hide Here, DcFirst, PutCoef, Shr, DcApprox, Int16, NoCells;
    if p.refine {
      HereBit(src, at, Shr(v, p.al) % 2 == 1);
      if cells[0] == DcApprox(v, p.al + 1) {
        DcRefineStep(p.al, src, at, cells, v);
      }
    } else {
      DcFirstStep(p.codes[n], p.al, src, at, pred, v);
    }
  }

  /** The blocks of a segment come first; the marker behind it leads to the rest. */
  ghost predicate Delivers(r: PassResult, bs: seq<Cells>, p: DcPass, mcu: seq<nat>, interval: nat, d: seq<Byte>, start: nat,
                           mark: (Byte, nat), rest: seq<Cells>)
  {
    && GoodMcu(p, mcu, Zeroes(|p.codes|)) && mark.1 <= |d|
    && if |rest| == 0 then r.Passed? && r.blocks == bs && (!Restart(mark.0) ==> r.last == start)
       else r == Ahead(bs, DcFrom(p, mcu, interval, d, mark.1, 0, Zeroes(|p.codes|), 0, Todo(interval), rest))
  }

  lemma DeliversMore(r: PassResult, c: Cells, bs: seq<Cells>, p: DcPass, mcu: seq<nat>, interval: nat, d: seq<Byte>, start: nat,
                     mark: (Byte, nat), rest: seq<Cells>)
    requires Delivers(r, bs, p, mcu, interval, d, start, mark, rest)
    ensures Delivers(Ahead([c], r), [c] + bs, p, mcu, interval, d, start, mark, rest)
  {
    hide DcFrom;
    if |rest| > 0 {
      AheadTwice([c], bs, DcFrom(p, mcu, interval, d, mark.1, 0, Zeroes(|p.codes|), 0, Todo(interval), rest));
    }
  }

  /** What stays fixed while a segment is read. */
  ghost predicate InInterval(p: DcPass, mcu: seq<nat>, d: seq<Byte>, start: nat, at: nat, preds: seq<int>, u: nat, todo: int,
                             blocks: seq<Cells>, vs: seq<int>, mark: (Byte, nat))
  {
    && AllSafeCodes(p) && GoodMcu(p, mcu, preds) && u < |mcu| && start <= |d| && todo >= 1
    && 1 <= |vs| <= |blocks| && |vs| <= Room(todo, u, |mcu|) && AllShort(vs)
    && (|vs| < |blocks| ==> |vs| == Room(todo, u, |mcu|) && Restart(mark.0))
    && NextMarker(d, start) == Some(mark) && mark.1 <= |d|
    && EncodeDcBits(p, mcu, u, vs, preds).Some? && Here(Destuff(d, start), at, EncodeDcBits(p, mcu, u, vs, preds).value)
    && var end := at + |EncodeDcBits(p, mcu, u, vs, preds).value|; end <= |Destuff(d, start)| < end + 8
  }

  /** The blocks of one segment are delivered, and decoding goes on behind its
      marker. */
  lemma {:induction false} IntervalRoundTrip(p: DcPass, mcu: seq<nat>, interval: nat, d: seq<Byte>, start: nat, at: nat, preds: seq<int>,
                                             u: nat, todo: int, blocks: seq<Cells>, vs: seq<int>, mark: (Byte, nat)) returns (bs: seq<Cells>)
    requires InInterval(p, mcu, d, start, at, preds, u, todo, blocks, vs, mark)
    ensures AllSharper(p, blocks[..|vs|], bs, vs)
    ensures Delivers(DcFrom(p, mcu, interval, d, start, at, preds, u, todo, blocks), bs, p, mcu, interval, d, start, mark, blocks[|vs|..])
    decreases |vs|
  {
    hide Here, DcStep, PutCoef, Shr, DcApprox, Int16, NoCells, Destuff, NextMarker, Room, HuffCode.Safe, Ahead, Zeroes, Todo;
    var n, x := mcu[u], Shr(vs[0], p.al);
    var src := Destuff(d, start);
    var last := u + 1 == |mcu|;
    var u' := if last then 0 else u + 1;
    var todo' := if last then todo - 1 else todo;
    var preds' := if p.refine then preds else preds[n := x];
    var head := if p.refine then [x % 2 == 1] else PutCoef(p.codes[n], 0, x - preds[n]).value;
    var rest := EncodeDcBits(p, mcu, u', vs[1..], preds').value;
    assert EncodeDcBits(p, mcu, u, vs, preds).value == head + rest;
    HereConcat(src, at, head, rest);
    StepRoundTrip(p, src, at, n, preds[n], blocks[0], vs[0]);
    RoomStep(todo, u, |mcu|);
    var c := DcStep(p, src, at, n, preds[n], blocks[0]).body.cells;
    assert preds[n := preds[n]] == preds;
    if |vs| == 1 {
      assert vs[1..] == [] && head + [] == head;
      bs := [c];
      LastDc(p, mcu, interval, d, start, at, preds, u, todo, blocks, mark);
    } else {
      assert blocks[1..][..|vs| - 1] == blocks[..|vs|][1..] && blocks[1..][|vs| - 1..] == blocks[|vs|..];
      var cs := IntervalRoundTrip(p, mcu, interval, d, start, at + |head|, preds', u', todo', blocks[1..], vs[1..], mark);
      bs := [c] + cs;
      ConsSharper(p, blocks, vs, c, cs);
      DeliversMore(DcFrom(p, mcu, interval, d, start, at + |head|, preds', u', todo', blocks[1..]), c, cs, p, mcu, interval, d, start, mark, blocks[|vs|..]);
    }
  }

  lemma ConsSharper(p: DcPass, blocks: seq<Cells>, vs: seq<int>, c: Cells, cs: seq<Cells>)
    requires 1 <= |vs| <= |blocks| && Sharper(p, blocks[0], c, vs[0])
    requires AllSharper(p, blocks[1..][..|vs| - 1], cs, vs[1..])
    ensures AllSharper(p, blocks[..|vs|], [c] + cs, vs)
  {
    hide Sharper;
    var now := [c] + cs;
    forall i | 0 <= i < |vs|
      ensures Sharper(p, blocks[..|vs|][i], now[i], vs[i])
    {
      if i > 0 {
        assert blocks[1..][..|vs| - 1][i - 1] == blocks[..|vs|][i] && vs[1..][i - 1] == vs[i];
        assert Sharper(p, blocks[1..][..|vs| - 1][i - 1], cs[i - 1], vs[1..][i - 1]);
      }
    }
  }

  /** The last written block of a segment. */
  lemma LastDc(p: DcPass, mcu: seq<nat>, interval: nat, d: seq<Byte>, start: nat, at: nat, preds: seq<int>, u: nat, todo: int,
               blocks: seq<Cells>, mark: (Byte, nat))
    requires GoodMcu(p, mcu, preds) && GoodMcu(p, mcu, Zeroes(|p.codes|)) && u < |mcu| && start <= |d| && todo >= 1 && |blocks| >= 1
    requires NextMarker(d, start) == Some(mark) && mark.1 <= |d|
    requires |blocks| > 1 ==> todo == 1 && u + 1 == |mcu| && Restart(mark.0)
    requires var r := DcStep(p, Destuff(d, start), at, mcu[u], preds[mcu[u]], blocks[0]);
             r.body.Done? && r.body.next <= |Destuff(d, start)| < r.body.next + 8
    ensures var r := DcStep(p, Destuff(d, start), at, mcu[u], preds[mcu[u]], blocks[0]);
            Delivers(DcFrom(p, mcu, interval, d, start, at, preds, u, todo, blocks), [r.body.cells], p, mcu, interval, d, start, mark, blocks[1..])
  {
    hide DcStep, Destuff, NextMarker, Todo;
    if |blocks| == 1 {
      assert blocks[1..] == [];
    }
  }

  /** A scan: segments of `interval` MCUs, separated by restart markers; behind the
      last one whatever marker comes next. */
  ghost function EncodeDcScan(p: DcPass, mcu: seq<nat>, interval: nat, vs: seq<int>, rst: nat, last: Byte): Option<seq<Byte>>
    requires GoodMcu(p, mcu, Zeroes(|p.codes|))
    decreases |vs|
  {
    var k := Room(interval, 0, |mcu|);
    if k <= 0 || |vs| <= k then
      var bits := EncodeDcBits(p, mcu, 0, vs, Zeroes(|p.codes|));
      if bits.None? then None else Some(Segment(bits.value, last))
    else
      var bits := EncodeDcBits(p, mcu, 0, vs[..k], Zeroes(|p.codes|));
      var rest := EncodeDcScan(p, mcu, interval, vs[k..], rst + 1, last);
      if bits.None? || rest.None? then None
      else Some(Segment(bits.value, 0xd0 + rst % 8) + rest.value)
  }

  /** A segment of the file is an interval. */
  lemma SegmentIsInterval(p: DcPass, mcu: seq<nat>, interval: nat, blocks: seq<Cells>, vs: seq<int>, d: seq<Byte>, start: nat, m: Byte)
    returns (mark: (Byte, nat))
    requires AllSafeCodes(p) && GoodMcu(p, mcu, Zeroes(|p.codes|)) && start <= |d| && IsMarker(m)
    requires 1 <= |vs| <= |blocks| && |vs| <= Room(Todo(interval), 0, |mcu|) && AllShort(vs)
    requires |vs| < |blocks| ==> |vs| == Room(Todo(interval), 0, |mcu|) && Restart(m)
    requires EncodeDcBits(p, mcu, 0, vs, Zeroes(|p.codes|)).Some?
    requires BytesHere(d, start, Segment(EncodeDcBits(p, mcu, 0, vs, Zeroes(|p.codes|)).value, m))
    ensures mark == (m, start + |Segment(EncodeDcBits(p, mcu, 0, vs, Zeroes(|p.codes|)).value, m)|) && mark.1 <= |d| && NextMarker(d, start) == Some(mark)
    ensures InInterval(p, mcu, d, start, 0, Zeroes(|p.codes|), 0, Todo(interval), blocks, vs, mark)
  {
    hide EncodeDcBits, Here, Destuff, NextMarker, Segment, BytesHere, PadOnes, Room, AllSafeCodes, AllShort;
    var bits := EncodeDcBits(p, mcu, 0, vs, Zeroes(|p.codes|)).value;
    SegmentRoundTrip(bits, m, d, start);
    PaddedHere(bits);
    mark := (m, start + |Segment(bits, m)|);
  }

  lemma ShortSplit(vs: seq<int>, k: nat)
    requires k <= |vs| && AllShort(vs)
    ensures AllShort(vs[..k]) && AllShort(vs[k..])
  {
    hide Int16;
  }

  lemma SharperJoin(p: DcPass, blocks: seq<Cells>, a: seq<Cells>, b: seq<Cells>, vs: seq<int>, k: nat)
    requires k <= |vs| == |blocks| && AllSharper(p, blocks[..k], a, vs[..k]) && AllSharper(p, blocks[k..], b, vs[k..])
    ensures AllSharper(p, blocks, a + b, vs)
  {
    hide Sharper;
    forall i | 0 <= i < |vs|
      ensures Sharper(p, blocks[i], (a + b)[i], vs[i])
    {
      if i >= k {
        assert Sharper(p, blocks[k..][i - k], b[i - k], vs[k..][i - k]);
      } else {
        assert Sharper(p, blocks[..k][i], a[i], vs[..k][i]);
      }
    }
  }

  /** An interval has room exactly for its MCUs. */
  lemma RoomOf(interval: nat, n: nat, len: nat)
    requires n >= 1 && len <= 0x7fff_ffff
    ensures interval > 0 ==> Room(interval, 0, n) >= 1 && Todo(interval) == interval
    ensures interval == 0 ==> Room(interval, 0, n) == 0 && len <= Room(Todo(interval), 0, n)
  {
    if interval > 0 {
      Natural(interval - 1, n);
      assert interval * n == (interval - 1) * n + n;
    }
  }

  /** Decoding the bytes of an encoded DC scan, restart intervals included, brings
      the DC value of every block of every component to the scan's precision; the
      marker written last stands behind it. */
  lemma {:induction false} DcScanRoundTrip(p: DcPass, mcu: seq<nat>, interval: nat, vs: seq<int>, rst: nat, last: Byte,
                                           blocks: seq<Cells>, d: seq<Byte>, start: nat)
    requires AllSafeCodes(p) && GoodMcu(p, mcu, Zeroes(|p.codes|)) && AllShort(vs) && |blocks| == |vs|
    requires IsMarker(last) && |vs| <= 0x7fff_ffff && start <= |d|
    requires EncodeDcScan(p, mcu, interval, vs, rst, last).Some?
    requires BytesHere(d, start, EncodeDcScan(p, mcu, interval, vs, rst, last).value)
    ensures var r := DcFrom(p, mcu, interval, d, start, 0, Zeroes(|p.codes|), 0, Todo(interval), blocks);
            && r.Passed? && AllSharper(p, blocks, r.blocks, vs)
            && var end := start + |EncodeDcScan(p, mcu, interval, vs, rst, last).value|;
               !Restart(last) ==> end <= |d| && NextMarker(d, r.last) == Some((last, end as nat))
    decreases |vs|
  {
    hide EncodeDcBits, Destuff, NextMarker, Segment, BytesHere, Room, AllSafeCodes, AllShort, InInterval, AllSharper, DcFrom, Todo;
    var k := Room(interval, 0, |mcu|);
    RoomOf(interval, |mcu|, |vs|);
    if |vs| == 0 {
      var bits := EncodeDcBits(p, mcu, 0, vs, Zeroes(|p.codes|)).value;
      SegmentRoundTrip(bits, last, d, start);
      NothingDone(p, mcu, interval, d, start, blocks, vs);
    } else if k <= 0 || |vs| <= k {
      assert blocks[..|vs|] == blocks && blocks[|vs|..] == [];
      var mark := SegmentIsInterval(p, mcu, interval, blocks, vs, d, start, last);
      var bs := IntervalRoundTrip(p, mcu, interval, d, start, 0, Zeroes(|p.codes|), 0, Todo(interval), blocks, vs, mark);
    } else {
      var m := 0xd0 + rst % 8;
      var seg := Segment(EncodeDcBits(p, mcu, 0, vs[..k], Zeroes(|p.codes|)).value, m);
      BytesConcat(d, start, seg, EncodeDcScan(p, mcu, interval, vs[k..], rst + 1, last).value);
      ShortSplit(vs, k);
      var mark := SegmentIsInterval(p, mcu, interval, blocks, vs[..k], d, start, m);
      var bs := IntervalRoundTrip(p, mcu, interval, d, start, 0, Zeroes(|p.codes|), 0, Todo(interval), blocks, vs[..k], mark);
      DcScanRoundTrip(p, mcu, interval, vs[k..], rst + 1, last, blocks[k..], d, mark.1);
      var q := DcFrom(p, mcu, interval, d, mark.1, 0, Zeroes(|p.codes|), 0, Todo(interval), blocks[k..]).blocks;
      SharperJoin(p, blocks, bs, q, vs, k);
    }
  }

  lemma NothingDone(p: DcPass, mcu: seq<nat>, interval: nat, d: seq<Byte>, start: nat, blocks: seq<Cells>, vs: seq<int>)
    requires GoodMcu(p, mcu, Zeroes(|p.codes|)) && start <= |d| && |blocks| == |vs| == 0
    ensures DcFrom(p, mcu, interval, d, start, 0, Zeroes(|p.codes|), 0, Todo(interval), blocks) == Passed([], start)
    ensures AllSharper(p, blocks, [], vs)
  {
  }
}
