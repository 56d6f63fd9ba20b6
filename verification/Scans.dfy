/** Whole progressive AC scans: EOB runs across blocks, and the sequence of
    scans that brings every coefficient to full precision. */
module Scans {
  import opened Wrappers
  import opened Bits
  import opened Huffman
  import opened Zigzag
  import opened Coding
  import opened Progressive
  import opened Refinement
  import A = Approximation

  /** The parameters of a scan of one band. */
  datatype Pass = Pass(code: HuffCode, refine: bool, ss: nat, se: nat, al: nat) {
    ghost predicate Valid()
    {
      1 <= ss <= se < 64 && code.Safe()
    }
  }

  /** One block, by the reference of the kind of scan. */
  function Step(p: Pass, src: Bitstring, at: nat, cells: Cells, eob: nat): ProgResult
    requires p.ss <= p.se < 64
  {
    if p.refine then AcRefine(p.code, p.ss, p.se, p.al, src, at, cells, eob)
    else AcFirst(p.code, p.ss, p.se, p.al, src, at, cells, eob)
  }

  datatype BandResult = Band(blocks: seq<Cells>, eob: nat, next: nat) | Broken

  /** The blocks of a scan in order; the EOB run is carried between them. */
  function DecodeBand(p: Pass, src: Bitstring, at: nat, blocks: seq<Cells>, eob: nat): BandResult
    requires p.ss <= p.se < 64
    decreases |blocks|
  {
    if |blocks| == 0 then Band([], eob, at) else
    var r := Step(p, src, at, blocks[0], eob);
    if !r.Refined? then Broken else
    var rest := DecodeBand(p, src, r.next, blocks[1..], r.eob);
    if rest.Broken? then Broken else Band([r.cells] + rest.blocks, rest.eob, rest.next)
  }

  lemma {:induction false} DecodeBandSplit(p: Pass, src: Bitstring, at: nat, a: seq<Cells>, b: seq<Cells>, eob: nat)
    requires p.ss <= p.se < 64 && DecodeBand(p, src, at, a, eob).Band?
    ensures var r := DecodeBand(p, src, at, a, eob);
            var q := DecodeBand(p, src, r.next, b, r.eob);
            DecodeBand(p, src, at, a + b, eob) ==
              if q.Broken? then Broken else Band(r.blocks + q.blocks, q.eob, q.next)
    decreases |a|
  {
    hide Step;
    if |a| == 0 {
      assert a + b == b;
      var q := DecodeBand(p, src, at, b, eob);
      assert q.Band? ==> [] + q.blocks == q.blocks;
    } else {
      var r := Step(p, src, at, a[0], eob);
      assert (a + b)[1..] == a[1..] + b;
      DecodeBandSplit(p, src, r.next, a[1..], b, r.eob);
      var t := DecodeBand(p, src, r.next, a[1..], r.eob);
      var q := DecodeBand(p, src, t.next, b, t.eob);
      assert q.Band? ==> [r.cells] + (t.blocks + q.blocks) == [r.cells] + t.blocks + q.blocks;
    }
  }

  // ----- the encoder's side -----

  /** The block adds no coefficient of its own, so an EOB run may cover it. */
  ghost predicate Quiet(p: Pass, zz: Cells)
    requires p.ss <= p.se < 64
  {
    forall i :: p.ss <= i <= p.se ==>
      if p.refine then !Fresh(zz[i], p.al) else A.Trunc(zz[i], p.al) == 0
  }

  /** What a covered block contributes: its correction bits. */
  function TailBits(p: Pass, zz: Cells): Bitstring
    requires p.ss <= p.se < 64
  {
    if p.refine then Corr(zz, p.ss, p.se + 1, p.al) else []
  }

  function HeadBits(p: Pass, zz: Cells, run: nat): Option<Bitstring>
    requires p.ss <= p.se < 64 && run >= 1
  {
    if p.refine then EncodeRefine(p.code, zz, p.ss, p.se + 1, p.al, PutEob(p.code, run))
    else EncodeFirst(p.code, zz, p.ss, p.se, p.al, run)
  }

  ghost predicate HeadEnds(p: Pass, zz: Cells)
    requires p.ss <= p.se < 64
  {
    if p.refine then RefineEndsInEob(zz, p.ss, p.se + 1, p.al) else FirstEndsInEob(zz, p.se, p.al)
  }

  function Tails(p: Pass, zzs: seq<Cells>): Bitstring
    requires p.ss <= p.se < 64
  {
    if |zzs| == 0 then [] else TailBits(p, zzs[0]) + Tails(p, zzs[1..])
  }

  /** Any legal grouping of the blocks into EOB runs: plan lists the sizes. */
  ghost predicate Plannable(p: Pass, zzs: seq<Cells>, plan: seq<nat>)
    requires p.ss <= p.se < 64
  {
    if |plan| == 0 then |zzs| == 0
    else
      && 1 <= plan[0] <= |zzs|
      && (plan[0] > 1 ==> HeadEnds(p, zzs[0]))
      && (forall i :: 1 <= i < plan[0] ==> Quiet(p, zzs[i]))
      && Plannable(p, zzs[plan[0]..], plan[1..])
  }

  ghost function EncodeBand(p: Pass, zzs: seq<Cells>, plan: seq<nat>): Option<Bitstring>
    requires p.ss <= p.se < 64 && Plannable(p, zzs, plan)
  {
    if |plan| == 0 then Some([]) else
    var n := plan[0];
    Join(HeadBits(p, zzs[0], n), Join(Some(Tails(p, zzs[1..n])), EncodeBand(p, zzs[n..], plan[1..])))
  }

  // ----- one block -----

  /** Precision of the band before the scan: nothing yet, or one bit less. */
  ghost predicate Before(p: Pass, cells: Cells, zz: Cells)
    requires p.ss <= p.se < 64
  {
    if p.refine then AtPrecision(cells, zz, p.ss, p.se + 1, p.al + 1)
    else forall i :: p.ss <= i <= p.se ==> cells[Zig(i)] == 0
  }

  ghost predicate After(p: Pass, was: Cells, now: Cells, zz: Cells)
    requires p.ss <= p.se < 64
  {
    AtPrecision(now, zz, p.ss, p.se + 1, p.al) && SameOutside(now, was, p.ss, p.se + 1)
  }

  lemma HeadStep(p: Pass, zz: Cells, run: nat, src: Bitstring, at: nat, cells: Cells)
    requires p.Valid() && run >= 1 && Codable(zz) && Before(p, cells, zz)
    requires HeadBits(p, zz, run).Some? && Here(src, at, HeadBits(p, zz, run).value)
    ensures var r := Step(p, src, at, cells, 0);
            && r.Refined? && After(p, cells, r.cells, zz)
            && r.eob == (if HeadEnds(p, zz) then run - 1 else 0)
            && r.next == at + |HeadBits(p, zz, run).value|
  {
    hide EncodeFirst, EncodeRefine, AcFirst, RefineFrom, Here, Codable, HuffCode.Safe, Zig, A.Approx, PutEob, Sharpen, FirstEndsInEob;
    if p.refine {
      RefineRoundTrip(p.code, zz, p.se, p.al, run, src, at, p.ss, cells);
      SharpenAfter(p, zz, cells);
    } else {
      FirstRoundTrip(p.code, zz, p.ss, p.se, p.al, run, src, at, cells);
    }
  }

  lemma SharpenAfter(p: Pass, zz: Cells, cells: Cells)
    requires p.ss <= p.se < 64
    ensures After(p, cells, Sharpen(cells, zz, p.ss, p.se + 1, p.al), zz)
  {
    hide Zig, A.Approx, Sharpen;
    forall i | 0 <= i < 64
      ensures Sharpen(cells, zz, p.ss, p.se + 1, p.al)[Zig(i)] ==
                if p.ss <= i <= p.se then A.Approx(zz[i], p.al) else cells[Zig(i)]
    {
      SharpenPlaces(cells, zz, p.ss, p.se + 1, p.al, i);
    }
  }

  lemma TailStep(p: Pass, zz: Cells, src: Bitstring, at: nat, cells: Cells, eob: nat)
    requires p.Valid() && eob > 0 && Codable(zz) && Before(p, cells, zz) && Quiet(p, zz)
    requires Here(src, at, TailBits(p, zz))
    ensures var r := Step(p, src, at, cells, eob);
            && r.Refined? && After(p, cells, r.cells, zz)
            && r.eob == eob - 1 && r.next == at + |TailBits(p, zz)|
  {
    hide CorrectFrom, Here, Codable, HuffCode.Safe, Zig, A.Approx, A.Trunc, Sharpen, Corr, Fresh;
    if p.refine {
      CorrectBandTrip(zz, p.se, p.al, src, at, p.ss, cells);
      SharpenAfter(p, zz, cells);
    } else {
      forall i | p.ss <= i <= p.se ensures A.Approx(zz[i], p.al) == 0 {
        A.ApproxBound(zz[i], p.al);
      }
    }
  }

  // ----- runs and scans -----

  ghost predicate AllBefore(p: Pass, blocks: seq<Cells>, zzs: seq<Cells>)
    requires p.ss <= p.se < 64
  {
    |blocks| == |zzs| && forall i :: 0 <= i < |zzs| ==> Codable(zzs[i]) && Before(p, blocks[i], zzs[i])
  }

  ghost predicate AllAfter(p: Pass, was: seq<Cells>, now: seq<Cells>, zzs: seq<Cells>)
    requires p.ss <= p.se < 64
  {
    |was| == |now| == |zzs| && forall i :: 0 <= i < |zzs| ==> After(p, was[i], now[i], zzs[i])
  }

  /** An EOB run covers exactly the announced number of blocks. */
  lemma {:induction false} TailsRoundTrip(p: Pass, zzs: seq<Cells>, src: Bitstring, at: nat, blocks: seq<Cells>, eob: nat)
    requires p.Valid() && AllBefore(p, blocks, zzs) && |zzs| <= eob
    requires forall i :: 0 <= i < |zzs| ==> Quiet(p, zzs[i])
    requires Here(src, at, Tails(p, zzs))
    ensures var r := DecodeBand(p, src, at, blocks, eob);
            && r.Band? && AllAfter(p, blocks, r.blocks, zzs)
            && r.eob == eob - |zzs| && r.next == at + |Tails(p, zzs)|
    decreases |zzs|
  {
    hide Step, Here, Quiet, Before, After, Codable, TailBits;
    if |zzs| > 0 {
      HereConcat(src, at, TailBits(p, zzs[0]), Tails(p, zzs[1..]));
      TailStep(p, zzs[0], src, at, blocks[0], eob);
      TailsRoundTrip(p, zzs[1..], src, at + |TailBits(p, zzs[0])|, blocks[1..], eob - 1);
    }
  }

  /** One group: a block that announces the run, and the blocks it covers. */
  lemma GroupRoundTrip(p: Pass, zzs: seq<Cells>, src: Bitstring, at: nat, blocks: seq<Cells>)
    requires p.Valid() && AllBefore(p, blocks, zzs) && |zzs| >= 1
    requires |zzs| > 1 ==> HeadEnds(p, zzs[0])
    requires forall i :: 1 <= i < |zzs| ==> Quiet(p, zzs[i])
    requires HeadBits(p, zzs[0], |zzs|).Some? && Here(src, at, HeadBits(p, zzs[0], |zzs|).value + Tails(p, zzs[1..]))
    ensures var r := DecodeBand(p, src, at, blocks, 0);
            && r.Band? && AllAfter(p, blocks, r.blocks, zzs) && r.eob == 0
            && r.next == at + |HeadBits(p, zzs[0], |zzs|).value| + |Tails(p, zzs[1..])|
  {
    hide Step, Here, Quiet, Before, After, Codable, TailBits, HeadBits, HeadEnds, Tails;
    var head := HeadBits(p, zzs[0], |zzs|).value;
    HereConcat(src, at, head, Tails(p, zzs[1..]));
    HeadStep(p, zzs[0], |zzs|, src, at, blocks[0]);
    TailsRoundTrip(p, zzs[1..], src, at + |head|, blocks[1..], Step(p, src, at, blocks[0], 0).eob);
  }

  /** Decoding an encoded scan brings every coefficient of every block to the
      scan's precision, whatever grouping into EOB runs was chosen. */
  lemma {:induction false} BandRoundTrip(p: Pass, zzs: seq<Cells>, plan: seq<nat>, src: Bitstring, at: nat, blocks: seq<Cells>)
    requires p.Valid() && AllBefore(p, blocks, zzs) && Plannable(p, zzs, plan)
    requires EncodeBand(p, zzs, plan).Some? && Here(src, at, EncodeBand(p, zzs, plan).value)
    ensures var r := DecodeBand(p, src, at, blocks, 0);
            && r.Band? && AllAfter(p, blocks, r.blocks, zzs) && r.eob == 0
            && r.next == at + |EncodeBand(p, zzs, plan).value|
    decreases |plan|
  {
    hide Step, Here, AllBefore, AllAfter, HeadBits, Tails, DecodeBand, EncodeBand, Plannable;
    if |plan| > 0 {
      var n := plan[0];
      PlanHead(p, zzs, plan);
      var group := HeadBits(p, zzs[0], n).value + Tails(p, zzs[1..n]);
      HereConcat(src, at, group, EncodeBand(p, zzs[n..], plan[1..]).value);
      BeforeSplit(p, blocks, zzs, n);
      assert zzs[..n][1..] == zzs[1..n];
      GroupRoundTrip(p, zzs[..n], src, at, blocks[..n]);
      BandRoundTrip(p, zzs[n..], plan[1..], src, at + |group|, blocks[n..]);
      assert blocks[..n] + blocks[n..] == blocks;
      DecodeBandSplit(p, src, at, blocks[..n], blocks[n..], 0);
      var r, q := DecodeBand(p, src, at, blocks[..n], 0).blocks, DecodeBand(p, src, at + |group|, blocks[n..], 0).blocks;
      AfterJoin(p, blocks, r, q, zzs, n);
    } else {
      NoBlocks(p, zzs, plan, src, at, blocks);
    }
  }

  /** The first group of a plan, and what is left. */
  lemma PlanHead(p: Pass, zzs: seq<Cells>, plan: seq<nat>)
    requires p.ss <= p.se < 64 && |plan| > 0 && Plannable(p, zzs, plan) && EncodeBand(p, zzs, plan).Some?
    ensures var n := plan[0];
            && 1 <= n <= |zzs| && (n > 1 ==> HeadEnds(p, zzs[0]))
            && (forall i :: 1 <= i < n ==> Quiet(p, zzs[..n][i]))
            && Plannable(p, zzs[n..], plan[1..]) && HeadBits(p, zzs[0], n).Some? && EncodeBand(p, zzs[n..], plan[1..]).Some?
            && EncodeBand(p, zzs, plan).value ==
                 HeadBits(p, zzs[0], n).value + Tails(p, zzs[1..n]) + EncodeBand(p, zzs[n..], plan[1..]).value
  {
    hide Quiet, HeadBits, HeadEnds, Tails;
    var n := plan[0];
    var rest := EncodeBand(p, zzs[n..], plan[1..]);
    assert rest.Some? && HeadBits(p, zzs[0], n).Some?;
    var head, tails := HeadBits(p, zzs[0], n).value, Tails(p, zzs[1..n]);
    assert head + (tails + rest.value) == head + tails + rest.value;
  }

  lemma BeforeSplit(p: Pass, blocks: seq<Cells>, zzs: seq<Cells>, n: nat)
    requires p.ss <= p.se < 64 && AllBefore(p, blocks, zzs) && n <= |zzs|
    ensures |blocks| == |zzs| && AllBefore(p, blocks[..n], zzs[..n]) && AllBefore(p, blocks[n..], zzs[n..])
  {
    hide Before, Codable;
  }

  lemma AfterJoin(p: Pass, blocks: seq<Cells>, r: seq<Cells>, q: seq<Cells>, zzs: seq<Cells>, n: nat)
    requires p.ss <= p.se < 64 && n <= |zzs| == |blocks|
    requires AllAfter(p, blocks[..n], r, zzs[..n]) && AllAfter(p, blocks[n..], q, zzs[n..])
    ensures AllAfter(p, blocks, r + q, zzs)
  {
    hide After;
    var now := r + q;
    forall i | 0 <= i < |zzs|
      ensures After(p, blocks[i], now[i], zzs[i])
    {
      if i >= n {
        assert zzs[i] == zzs[n..][i - n] && blocks[i] == blocks[n..][i - n] && now[i] == q[i - n];
      } else {
        assert zzs[i] == zzs[..n][i] && blocks[i] == blocks[..n][i] && now[i] == r[i];
      }
    }
  }

  lemma NoBlocks(p: Pass, zzs: seq<Cells>, plan: seq<nat>, src: Bitstring, at: nat, blocks: seq<Cells>)
    requires p.ss <= p.se < 64 && |plan| == 0 && Plannable(p, zzs, plan) && AllBefore(p, blocks, zzs)
    ensures DecodeBand(p, src, at, blocks, 0) == Band([], 0, at) && AllAfter(p, blocks, [], zzs)
    ensures EncodeBand(p, zzs, plan) == Some([])
  {
  }

  // ----- a sequence of scans -----

  /** One scan as it arrives: its table, its bits, and the encoder's grouping. */
  datatype ScanData = ScanData(code: HuffCode, src: Bitstring, plan: seq<nat>)

  function PassOf(s: ScanData, refine: bool, ss: nat, se: nat, al: nat): Pass
  {
    Pass(s.code, refine, ss, se, al)
  }

  /** Decode scans at positions al, al - 1, ..., each on the result of the last. */
  function DecodeScans(scans: seq<ScanData>, refine: bool, ss: nat, se: nat, al: nat, blocks: seq<Cells>): Option<seq<Cells>>
    requires ss <= se < 64 && |scans| <= al + 1
    decreases |scans|
  {
    if |scans| == 0 then Some(blocks) else
    var r := DecodeBand(PassOf(scans[0], refine, ss, se, al), scans[0].src, 0, blocks, 0);
    if r.Broken? then None
    else if |scans| == 1 then Some(r.blocks)
    else DecodeScans(scans[1..], true, ss, se, al - 1, r.blocks)
  }

  /** Scan number t carries the bits of the coefficients at its position. */
  ghost predicate Carries(scans: seq<ScanData>, refine: bool, ss: nat, se: nat, al: nat, zzs: seq<Cells>, t: nat)
    requires 1 <= ss <= se < 64 && t < |scans| <= al + 1
  {
    var p := PassOf(scans[t], refine || t > 0, ss, se, al - t);
    && p.Valid() && Plannable(p, zzs, scans[t].plan)
    && var bits := EncodeBand(p, zzs, scans[t].plan);
       bits.Some? && Here(scans[t].src, 0, bits.value)
  }

  /** A first scan at position al and refinements down to position 0 leave
      every coefficient of the band with exactly its value, and touch nothing
      outside the band. */
  lemma {:induction false} SuccessiveApproximation(scans: seq<ScanData>, refine: bool, ss: nat, se: nat, al: nat,
                                                   zzs: seq<Cells>, blocks: seq<Cells>)
    requires 1 <= ss <= se < 64 && |scans| == al + 1
    requires forall t :: 0 <= t < |scans| ==> Carries(scans, refine, ss, se, al, zzs, t)
    requires AllBefore(PassOf(scans[0], refine, ss, se, al), blocks, zzs)
    ensures var r := DecodeScans(scans, refine, ss, se, al, blocks);
            && r.Some? && |r.value| == |zzs|
            && forall i, k :: 0 <= i < |zzs| && 0 <= k < 64 ==>
                 r.value[i][Zig(k)] == if ss <= k <= se then zzs[i][k] else blocks[i][Zig(k)]
    decreases al
  {
    hide Step, Here, EncodeBand, Plannable, DecodeBand, A.Approx, Zig, Codable;
    var p := PassOf(scans[0], refine, ss, se, al);
    assert Carries(scans, refine, ss, se, al, zzs, 0);
    BandRoundTrip(p, zzs, scans[0].plan, scans[0].src, 0, blocks);
    var next := DecodeBand(p, scans[0].src, 0, blocks, 0).blocks;
    if al > 0 {
      NextCarries(scans, scans[1..], refine, ss, se, al, al - 1, zzs);
      NextBefore(p, PassOf(scans[1], true, ss, se, al - 1), blocks, next, zzs);
      SuccessiveApproximation(scans[1..], true, ss, se, al - 1, zzs, next);
      LastStep(p, blocks, next, zzs);
    } else {
      FullPrecision(p, blocks, next, zzs);
    }
  }

  lemma NextCarries(scans: seq<ScanData>, rest: seq<ScanData>, refine: bool, ss: nat, se: nat, al: nat, low: nat, zzs: seq<Cells>)
    requires 1 <= ss <= se < 64 && |scans| == al + 1 && al == low + 1 && rest == scans[1..]
    requires forall t :: 0 <= t < |scans| ==> Carries(scans, refine, ss, se, al, zzs, t)
    ensures forall t :: 0 <= t < |rest| ==> Carries(rest, true, ss, se, low, zzs, t)
  {
    hide Here, EncodeBand, Plannable;
    forall t | 0 <= t < |rest| ensures Carries(rest, true, ss, se, low, zzs, t) {
      assert Carries(scans, refine, ss, se, al, zzs, t + 1);
    }
  }

  lemma NextBefore(p: Pass, q: Pass, was: seq<Cells>, now: seq<Cells>, zzs: seq<Cells>)
    requires 1 <= p.ss <= p.se < 64 && q.refine && q.ss == p.ss && q.se == p.se && p.al == q.al + 1
    requires AllBefore(p, was, zzs) && AllAfter(p, was, now, zzs)
    ensures AllBefore(q, now, zzs)
  {
    hide AtPrecision, SameOutside, Codable;
    forall i | 0 <= i < |zzs| ensures Codable(zzs[i]) && Before(q, now[i], zzs[i]) {
      assert After(p, was[i], now[i], zzs[i]);
    }
  }

  lemma LastStep(p: Pass, was: seq<Cells>, now: seq<Cells>, zzs: seq<Cells>)
    requires 1 <= p.ss <= p.se < 64 && AllAfter(p, was, now, zzs)
    ensures forall i, k :: 0 <= i < |zzs| && 0 <= k < 64 && !(p.ss <= k <= p.se) ==> now[i][Zig(k)] == was[i][Zig(k)]
  {
    hide Zig, A.Approx;
    forall i, k | 0 <= i < |zzs| && 0 <= k < 64 && !(p.ss <= k <= p.se) ensures now[i][Zig(k)] == was[i][Zig(k)] {
      assert After(p, was[i], now[i], zzs[i]);
    }
  }

  lemma FullPrecision(p: Pass, was: seq<Cells>, now: seq<Cells>, zzs: seq<Cells>)
    requires 1 <= p.ss <= p.se < 64 && p.al == 0 && AllAfter(p, was, now, zzs)
    ensures forall i, k :: 0 <= i < |zzs| && 0 <= k < 64 ==>
              now[i][Zig(k)] == if p.ss <= k <= p.se then zzs[i][k] else was[i][Zig(k)]
  {
    hide Zig, A.Approx;
    forall i, k | 0 <= i < |zzs| && 0 <= k < 64
      ensures now[i][Zig(k)] == if p.ss <= k <= p.se then zzs[i][k] else was[i][Zig(k)]
    {
      assert After(p, was[i], now[i], zzs[i]);
      A.ApproxBound(zzs[i][k], 0);
    }
  }
}
