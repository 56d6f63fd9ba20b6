/** Progressive AC scans with restart intervals: a restart clears the bit buffer
    and the EOB run. */
module BandIntervals {
  import opened Wrappers
  import opened Bits
  import opened Huffman
  import opened BitReader
  import opened FastAc
  import opened Zigzag
  import opened Coding
  import opened Scans
  import opened Stuffing
  import opened BaselineScan
  import opened BandScan

  /** The blocks after a pass, and where the segment starts that is being read at its
      end. */
  datatype PassResult =
    | Passed(blocks: seq<Cells>, last: nat)
    | PassCorrupt
    | PassUnclear                   // the data ends early, or spare bits precede a marker

  function Ahead(a: seq<Cells>, r: PassResult): PassResult
  {
    if r.Passed? then r.(blocks := a + r.blocks) else r
  }

  lemma AheadTwice(a: seq<Cells>, b: seq<Cells>, r: PassResult)
    ensures Ahead(a, Ahead(b, r)) == Ahead(a + b, r)
    ensures Ahead([], r) == r
  {
    if r.Passed? {
      assert a + (b + r.blocks) == a + b + r.blocks;
      assert [] + r.blocks == r.blocks;
    }
  }

  lemma AheadEnds(a: seq<Cells>, b: seq<Cells>, last: nat)
    ensures Ahead(a, Passed(b, last)) == Passed(a + b, last)
    ensures Ahead(a, PassCorrupt) == PassCorrupt && Ahead(a, PassUnclear) == PassUnclear
  {
  }

  /** The blocks that remain, `todo` of them before a restart marker; the current
      segment starts at byte `start` and is read up to bit `at`.  Where a scan
      ends early the other blocks stay as they are. */
  function BandFrom(p: Pass, interval: nat, d: seq<Byte>, start: nat, at: nat, blocks: seq<Cells>, eob: nat, todo: int): (r: PassResult)
    requires p.ss <= p.se < 64 && start <= |d|
    ensures r.Passed? ==> start <= r.last <= |d| && |r.blocks| == |blocks|
    decreases |blocks|
  {
    if |blocks| == 0 then Passed([], start) else
    var src := Destuff(d, start);
    match Step(p, src, at, blocks[0], eob)
    case ProgCorrupt => PassCorrupt
    case ProgCut => PassUnclear
    case Refined(c, e, next) =>
      if todo > 1 then Ahead([c], BandFrom(p, interval, d, start, next, blocks[1..], e, todo - 1))
      else if !(next <= |src| < next + 8) then PassUnclear
      else
        var m := NextMarker(d, start);
        if m.None? || !Restart(m.value.0) then Passed([c] + blocks[1..], start)
        else Ahead([c], BandFrom(p, interval, d, m.value.1, 0, blocks[1..], 0, Todo(interval)))
  }

  // ----- the decoder's loop -----

  method StartBand(j: Reader, p: Pass, h: Table, fac: array<int>, data: array<int>)
    requires j.pos <= |j.data| && BandReady(p, h, fac, data)
    modifies j
    ensures BandReady(p, h, fac, data) && j.pos == old(j.pos) && j.at == 0 && InSegment(j, j.pos)
  {
    hide Destuff, NextMarker, Holds, TableBuilt, Table.Built, HuffCode.Safe;
    j.Reset();
  }

  method SeekBandMarker(j: Reader, p: Pass, h: Table, fac: array<int>, data: array<int>)
    requires j.Valid() && BandReady(p, h, fac, data)
    modifies j`pos, j`buffer, j`bits, j`marker, j`nomore
    ensures BandReady(p, h, fac, data) && j.Valid() && old(j.pos) <= j.pos <= |j.data|
    ensures j.at <= |j.src| < j.at + 8 && j.goal.Some? ==> j.nomore && j.goal == Some((j.marker, j.pos))
    ensures j.goal.None? ==> j.marker == 0xff
  {
    hide Destuff, NextMarker, Holds, TableBuilt, Table.Built, HuffCode.Safe;
    j.FindMarker();
  }

  /** One block, and the restart that may follow it. */
  method ParseBlock(j: Reader, data: array<int>, h: Table, fac: array<int>, p: Pass, interval: nat,
                    blocks: seq<Cells>, ghost i: nat, cells: Cells, eob: nat, todo: int, ghost start: nat)
    returns (status: Status, c: Cells, eob': nat, todo': int, ghost start': nat)
    requires InSegment(j, start) && BandReady(p, h, fac, data) && todo >= 1 && i < |blocks| && cells == blocks[i]
    modifies j, data
    ensures old(j.pos) <= j.pos <= |j.data|
    ensures BandReady(p, h, fac, data) && |c| == 64
    ensures status.Go? ==> InSegment(j, start') && start' <= |j.data| && todo' >= 1
    ensures 1 <= p.ss <= p.se < 64 && start <= |j.data|
    ensures var r := BandFrom(p, interval, j.data, start, old(j.at), blocks[i..], eob, todo);
            || r.PassUnclear?
            || match status
               case Fail => r.PassCorrupt?
               case Stop => r == Passed([c] + blocks[i + 1..], start) && InSegment(j, start)
               case Go => r == Ahead([c], BandFrom(p, interval, j.data, start', j.at, blocks[i + 1..], eob', todo'))
  {
    hide Destuff, NextMarker, Holds, BandReady, Step, Ahead;
    InBand(p, h, fac, data);
    assert blocks[i..][0] == cells && blocks[i..][1..] == blocks[i + 1..];
    Load(data, cells, p, h, fac);
    var ok: bool;
    start', todo' := start, todo - 1;
    ok, eob' := DecodeBandBlock(j, data, h, fac, p, eob);
    c := data[..];
    if !ok {
      status := Fail;
      return;
    }
    status := Go;
    if todo' <= 0 {
      SeekBandMarker(j, p, h, fac, data);
      if !Restart(j.marker) {
        status := Stop;
        return;
      }
      StartBand(j, p, h, fac, data);
      start', eob', todo' := j.pos, 0, Todo(interval);
    }
  }

  /** An AC scan over the bytes of the file, block after block, with restarts.
      `out` holds every block of the component afterwards. */
  method ParseBandScan(j: Reader, data: array<int>, h: Table, fac: array<int>, p: Pass, interval: nat, blocks: seq<Cells>)
    returns (ok: bool, out: seq<Cells>)
    requires j.pos <= |j.data| && BandReady(p, h, fac, data)
    modifies j, data
    ensures old(j.pos) <= j.pos <= |j.data|
    ensures 1 <= p.ss <= p.se < 64
    ensures match BandFrom(p, interval, j.data, old(j.pos), 0, blocks, 0, Todo(interval))
            case Passed(bs, last) => ok && out == bs && InSegment(j, last)
            case PassCorrupt => !ok
            case PassUnclear => true
  {
    hide Destuff, NextMarker, Holds, BandReady, BandFrom, Ahead, InSegment, Reader.Valid;
    InBand(p, h, fac, data);
    ghost var start: nat := j.pos;
    ghost var goal := BandFrom(p, interval, j.data, start, 0, blocks, 0, Todo(interval));
    StartBand(j, p, h, fac, data);
    var eob, todo := 0, Todo(interval);
    var done: seq<Cells> := [];
    assert blocks[0..] == blocks;
    AheadTwice([], [], goal);
    for i := 0 to |blocks|
      invariant old(j.pos) <= j.pos <= |j.data| && start <= |j.data|
      invariant InSegment(j, start) && BandReady(p, h, fac, data) && todo >= 1
      invariant goal.PassUnclear? || goal == Ahead(done, BandFrom(p, interval, j.data, start, j.at, blocks[i..], eob, todo))
    {
      ghost var before, was := done, start;
      var status: Status, c: Cells;
      status, c, eob, todo, start := ParseBlock(j, data, h, fac, p, interval, blocks, i, blocks[i], eob, todo, start);
      AheadEnds(before, [c] + blocks[i + 1..], was);
      if status.Fail? {
        return false, done;
      }
      done := done + [c];
      if status.Stop? {
        assert before + ([c] + blocks[i + 1..]) == done + blocks[i + 1..];
        return true, done + blocks[i + 1..];
      }
      AheadTwice(before, [c], BandFrom(p, interval, j.data, start, j.at, blocks[i + 1..], eob, todo));
    }
    assert blocks[|blocks|..] == [];
    NoBlocksLeft(p, interval, j.data, start, j.at, eob, todo, done);
    return true, done;
  }

  lemma NoBlocksLeft(p: Pass, interval: nat, d: seq<Byte>, start: nat, at: nat, eob: nat, todo: int, a: seq<Cells>)
    requires p.ss <= p.se < 64 && start <= |d|
    ensures Ahead(a, BandFrom(p, interval, d, start, at, [], eob, todo)) == Passed(a, start)
  {
    assert a + [] == a;
  }

  // ----- the encoder's side -----

  /** Blocks of an interval are delivered as a scan without restarts delivers
      them. */
  lemma {:induction false} IntervalSteps(p: Pass, interval: nat, d: seq<Byte>, start: nat, at: nat, blocks: seq<Cells>, n: nat, eob: nat, todo: int)
    requires p.ss <= p.se < 64 && start <= |d| && n <= |blocks| && n < todo
    requires DecodeBand(p, Destuff(d, start), at, blocks[..n], eob).Band?
    ensures var r := DecodeBand(p, Destuff(d, start), at, blocks[..n], eob);
            BandFrom(p, interval, d, start, at, blocks, eob, todo) ==
              Ahead(r.blocks, BandFrom(p, interval, d, start, r.next, blocks[n..], r.eob, todo - n))
    decreases n
  {
    hide Step, Destuff, NextMarker, Ahead;
    var src := Destuff(d, start);
    if n == 0 {
      assert blocks[0..] == blocks;
      AheadTwice([], [], BandFrom(p, interval, d, start, at, blocks, eob, todo));
    } else {
      var a := blocks[..n];
      var s := Step(p, src, at, blocks[0], eob);
      assert a[0] == blocks[0] && a[1..] == blocks[1..][..n - 1] && blocks[1..][n - 1..] == blocks[n..];
      IntervalSteps(p, interval, d, start, s.next, blocks[1..], n - 1, s.eob, todo - 1);
      var rest := DecodeBand(p, src, s.next, a[1..], s.eob);
      AheadTwice([s.cells], rest.blocks, BandFrom(p, interval, d, start, rest.next, blocks[n..], rest.eob, todo - n));
    }
  }

  /** What the marker behind a full interval leads to. */
  ghost function BehindMark(p: Pass, interval: nat, d: seq<Byte>, start: nat, mark: (Byte, nat), rest: seq<Cells>): PassResult
    requires p.ss <= p.se < 64 && mark.1 <= |d|
  {
    if Restart(mark.0) then BandFrom(p, interval, d, mark.1, 0, rest, 0, Todo(interval)) else Passed(rest, start)
  }

  /** A full interval: its blocks, then the marker decides. */
  lemma FullInterval(p: Pass, interval: nat, d: seq<Byte>, start: nat, blocks: seq<Cells>, n: nat, mark: (Byte, nat))
    requires p.ss <= p.se < 64 && start <= |d| && 1 <= n <= |blocks| && NextMarker(d, start) == Some(mark) && mark.1 <= |d|
    requires var r := DecodeBand(p, Destuff(d, start), 0, blocks[..n], 0);
             r.Band? && r.next <= |Destuff(d, start)| < r.next + 8
    ensures var r := DecodeBand(p, Destuff(d, start), 0, blocks[..n], 0);
            BandFrom(p, interval, d, start, 0, blocks, 0, n) ==
              Ahead(r.blocks, BehindMark(p, interval, d, start, mark, blocks[n..]))
  {
    hide Step, Destuff, NextMarker, DecodeBand, BandFrom, Ahead;
    var src := Destuff(d, start);
    var a, b := blocks[..n - 1], blocks[n - 1..n];
    assert a + b == blocks[..n] && blocks[..n - 1] == a;
    assert a + [b[0]] == blocks[..n];
    LastOf(p, src, a, b[0]);
    var r0 := DecodeBand(p, src, 0, a, 0);
    IntervalSteps(p, interval, d, start, 0, blocks, n - 1, 0, n);
    var s := Step(p, src, r0.next, b[0], r0.eob);
    LastBlock(p, interval, d, start, r0.next, blocks[n - 1..], r0.eob, mark);
    assert blocks[n - 1..][0] == b[0] && blocks[n - 1..][1..] == blocks[n..];
    AheadTwice(r0.blocks, [s.cells], BehindMark(p, interval, d, start, mark, blocks[n..]));
  }

  /** The last block of a decoded list. */
  lemma LastOf(p: Pass, src: Bitstring, a: seq<Cells>, c: Cells)
    requires p.ss <= p.se < 64 && DecodeBand(p, src, 0, a + [c], 0).Band?
    ensures var r0, r := DecodeBand(p, src, 0, a, 0), DecodeBand(p, src, 0, a + [c], 0);
            && r0.Band?
            && var s := Step(p, src, r0.next, c, r0.eob);
               s.Refined? && r == Band(r0.blocks + [s.cells], s.eob, s.next)
  {
    hide Step;
    PrefixDecodes(p, src, 0, a, [c], 0);
    DecodeBandSplit(p, src, 0, a, [c], 0);
    var r0 := DecodeBand(p, src, 0, a, 0);
    var s := Step(p, src, r0.next, c, r0.eob);
    assert [c][0] == c && [c][1..] == [];
    var q := DecodeBand(p, src, r0.next, [c], r0.eob);
    assert s.Refined? ==> [s.cells] + [] == [s.cells];
  }

  lemma {:induction false} PrefixDecodes(p: Pass, src: Bitstring, at: nat, a: seq<Cells>, b: seq<Cells>, eob: nat)
    requires p.ss <= p.se < 64 && DecodeBand(p, src, at, a + b, eob).Band?
    ensures DecodeBand(p, src, at, a, eob).Band?
    decreases |a|
  {
    hide Step;
    if |a| > 0 {
      var s := Step(p, src, at, a[0], eob);
      assert (a + b)[0] == a[0] && (a + b)[1..] == a[1..] + b;
      PrefixDecodes(p, src, s.next, a[1..], b, s.eob);
    }
  }

  lemma LastBlock(p: Pass, interval: nat, d: seq<Byte>, start: nat, at: nat, blocks: seq<Cells>, eob: nat, mark: (Byte, nat))
    requires p.ss <= p.se < 64 && start <= |d| && |blocks| > 0 && NextMarker(d, start) == Some(mark) && mark.1 <= |d|
    requires var s := Step(p, Destuff(d, start), at, blocks[0], eob); s.Refined? && s.next <= |Destuff(d, start)| < s.next + 8
    ensures var s := Step(p, Destuff(d, start), at, blocks[0], eob);
            BandFrom(p, interval, d, start, at, blocks, eob, 1) ==
              Ahead([s.cells], BehindMark(p, interval, d, start, mark, blocks[1..]))
  {
    hide Step, Destuff, NextMarker;
  }

  /** A scan: intervals with their own EOB groupings, separated by restart markers;
      behind the last one whatever marker comes next. */
  ghost function EncodeBandScan(p: Pass, interval: nat, zzs: seq<Cells>, plans: seq<seq<nat>>, rst: nat, last: Byte): Option<seq<Byte>>
    requires p.ss <= p.se < 64
    decreases |zzs|
  {
    if |plans| == 0 then None
    else if interval == 0 || |zzs| <= interval then
      if |plans| != 1 || !Plannable(p, zzs, plans[0]) then None else
      var bits := EncodeBand(p, zzs, plans[0]);
      if bits.None? then None else Some(Segment(bits.value, last))
    else
      if !Plannable(p, zzs[..interval], plans[0]) then None else
      var bits := EncodeBand(p, zzs[..interval], plans[0]);
      var rest := EncodeBandScan(p, interval, zzs[interval..], plans[1..], rst + 1, last);
      if bits.None? || rest.None? then None
      else Some(Segment(bits.value, 0xd0 + rst % 8) + rest.value)
  }

  /** The blocks of one segment of the file come to the scan's precision. */
  lemma SegmentBand(p: Pass, zzs: seq<Cells>, plan: seq<nat>, blocks: seq<Cells>, d: seq<Byte>, start: nat, m: Byte)
    requires p.Valid() && AllBefore(p, blocks, zzs) && Plannable(p, zzs, plan) && IsMarker(m) && start <= |d|
    requires EncodeBand(p, zzs, plan).Some? && BytesHere(d, start, Segment(EncodeBand(p, zzs, plan).value, m))
    ensures var r := DecodeBand(p, Destuff(d, start), 0, blocks, 0);
            var next: nat := start + |Segment(EncodeBand(p, zzs, plan).value, m)|;
            && r.Band? && AllAfter(p, blocks, r.blocks, zzs) && r.next <= |Destuff(d, start)| < r.next + 8
            && NextMarker(d, start) == Some((m, next)) && next <= |d|
  {
    hide EncodeBand, Here, Destuff, NextMarker, AllBefore, AllAfter, Segment, BytesHere, PadOnes, Plannable, DecodeBand;
    var bits := EncodeBand(p, zzs, plan).value;
    SegmentRoundTrip(bits, m, d, start);
    PaddedHere(bits);
    BandRoundTrip(p, zzs, plan, Destuff(d, start), 0, blocks);
  }

  /** Decoding the bytes of an encoded AC scan, restart intervals included, brings
      every coefficient of the band of every block to the scan's precision and
      touches nothing else. */
  lemma {:induction false} BandScanRoundTrip(p: Pass, interval: nat, zzs: seq<Cells>, plans: seq<seq<nat>>, rst: nat, last: Byte,
                                             blocks: seq<Cells>, d: seq<Byte>, start: nat)
    requires p.Valid() && AllBefore(p, blocks, zzs) && IsMarker(last) && |zzs| <= 0x7fff_ffff && start <= |d|
    requires EncodeBandScan(p, interval, zzs, plans, rst, last).Some?
    requires BytesHere(d, start, EncodeBandScan(p, interval, zzs, plans, rst, last).value)
    ensures var r := BandFrom(p, interval, d, start, 0, blocks, 0, Todo(interval));
            && r.Passed? && AllAfter(p, blocks, r.blocks, zzs)
            && var end := start + |EncodeBandScan(p, interval, zzs, plans, rst, last).value|;
               !Restart(last) ==> end <= |d| && NextMarker(d, r.last) == Some((last, end as nat))
    decreases |zzs|
  {
    hide EncodeBand, Plannable, Destuff, NextMarker, AllBefore, AllAfter, Segment, BytesHere, DecodeBand, BandFrom;
    SameLength(p, blocks, zzs);
    if interval == 0 || |zzs| <= interval {
      SegmentBand(p, zzs, plans[0], blocks, d, start, last);
      LastInterval(p, interval, d, start, blocks, (last, start + |Segment(EncodeBand(p, zzs, plans[0]).value, last)|));
    } else {
      var k, m := interval, 0xd0 + rst % 8;
      var seg := Segment(EncodeBand(p, zzs[..k], plans[0]).value, m);
      BytesConcat(d, start, seg, EncodeBandScan(p, interval, zzs[k..], plans[1..], rst + 1, last).value);
      BeforeSplit(p, blocks, zzs, k);
      SegmentBand(p, zzs[..k], plans[0], blocks[..k], d, start, m);
      FullInterval(p, interval, d, start, blocks, k, (m, start + |seg|));
      BandScanRoundTrip(p, interval, zzs[k..], plans[1..], rst + 1, last, blocks[k..], d, start + |seg|);
      var r := DecodeBand(p, Destuff(d, start), 0, blocks[..k], 0).blocks;
      var q := BandFrom(p, interval, d, start + |seg|, 0, blocks[k..], 0, Todo(interval)).blocks;
      AfterJoin(p, blocks, r, q, zzs, k);
    }
  }

  lemma SameLength(p: Pass, blocks: seq<Cells>, zzs: seq<Cells>)
    requires p.ss <= p.se < 64 && AllBefore(p, blocks, zzs)
    ensures |blocks| == |zzs|
  {
  }

  /** The last interval, full or not. */
  lemma LastInterval(p: Pass, interval: nat, d: seq<Byte>, start: nat, blocks: seq<Cells>, mark: (Byte, nat))
    requires p.ss <= p.se < 64 && start <= |d| && NextMarker(d, start) == Some(mark) && mark.1 <= |d|
    requires |blocks| <= Todo(interval)
    requires var r := DecodeBand(p, Destuff(d, start), 0, blocks, 0); r.Band? && r.next <= |Destuff(d, start)| < r.next + 8
    ensures BandFrom(p, interval, d, start, 0, blocks, 0, Todo(interval)).Passed?
    ensures var r := BandFrom(p, interval, d, start, 0, blocks, 0, Todo(interval));
            r.blocks == DecodeBand(p, Destuff(d, start), 0, blocks, 0).blocks && (!Restart(mark.0) ==> r.last == start)
  {
    hide Destuff, NextMarker, DecodeBand, BandFrom, Ahead;
    var n := |blocks|;
    var r := DecodeBand(p, Destuff(d, start), 0, blocks, 0);
    assert blocks[..n] == blocks && blocks[n..] == [];
    if n < Todo(interval) {
      IntervalSteps(p, interval, d, start, 0, blocks, n, 0, Todo(interval));
      NoBlocksLeft(p, interval, d, start, r.next, r.eob, Todo(interval) - n, r.blocks);
    } else {
      FullInterval(p, interval, d, start, blocks, n, mark);
      NoBlocksLeft(p, interval, d, mark.1, 0, 0, Todo(interval), r.blocks);
      AheadEnds(r.blocks, [], start);
      assert r.blocks + [] == r.blocks;
    }
  }
}
