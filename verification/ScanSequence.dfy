/** Any sequence of DC and AC scans of a component, in any legal order: how
    precisely each of the 64 coefficients is known at every moment, and that they
    are exact at the end. */
module ScanSequence {
  import opened Wrappers
  import opened Machine
  import opened Zigzag
  import opened Coding
  import opened Refinement
  import opened Scans
  import opened DcScans
  import A = Approximation

  /** What a scan carries: a band and a bit position.  The DC coefficient is a band of
      its own. */
  datatype Kind = Kind(refining: bool, ss: nat, se: nat, low: nat) {
    predicate Dc()
    {
      ss == 0
    }

    predicate Formed()
    {
      low <= 13 && if Dc() then se == 0 else ss <= se < 64
    }

    /** Coefficient k is in the band of the scan. */
    predicate Covers(k: nat)
    {
      ss <= k <= se
    }
  }

  datatype Scan =
    | Dc(dc: DcScan, refining: bool, low: nat)
    | Ac(ac: ScanData, refining: bool, ss: nat, se: nat, low: nat)
  {
    function AsKind(): Kind
    {
      if Dc? then Kind(refining, 0, 0, low) else Kind(refining, ss, se, low)
    }

    predicate Formed()
    {
      low <= 13 && (Ac? ==> 1 <= ss <= se < 64)
    }

    function AsPass(): Pass
      requires Ac?
    {
      PassOf(ac, refining, ss, se, low)
    }
  }

  /** For each coefficient the bit position from which on it is known. */
  type Levels = s: seq<Option<nat>> | |s| == 64 witness seq(64, _ => None)

  function Unknown(): Levels
  {
    var s := seq<Option<nat>>(64, _ => None);
    s
  }

  /** A scan that may come next.  A first DC scan clears its blocks, so it comes
      first of all; every coefficient is introduced once and then refined bit by
      bit. */
  ghost predicate Legal(lv: Levels, s: Kind)
  {
    && s.Formed()
    && (if s.Dc() && !s.refining then forall k :: 0 <= k < 64 ==> lv[k] == None else lv[0].Some?)
    && forall k :: 0 <= k < 64 && s.Covers(k) ==> lv[k] == if s.refining then Some(s.low + 1) else None
  }

  function Next(lv: Levels, s: Kind): Levels
  {
    var n := seq<Option<nat>>(64, k requires 0 <= k < 64 => if s.Covers(k) then Some(s.low) else lv[k]);
    n
  }

  function Decode(s: Scan, blocks: seq<Cells>): Option<seq<Cells>>
    requires s.Formed()
  {
    if s.Dc? then DcBand(s.dc.code, s.refining, s.low, s.dc.src, 0, blocks, 0)
    else
      var r := DecodeBand(s.AsPass(), s.ac.src, 0, blocks, 0);
      if r.Broken? then None else Some(r.blocks)
  }

  /** The DC values of the blocks. */
  function DcValues(zzs: seq<Cells>): (vs: seq<int>)
    ensures |vs| == |zzs| && forall i :: 0 <= i < |zzs| ==> vs[i] == zzs[i][0]
  {
    seq(|zzs|, i requires 0 <= i < |zzs| => zzs[i][0])
  }

  /** The scan carries the bits of the coefficients, in any legal grouping. */
  ghost predicate Sends(s: Scan, zzs: seq<Cells>)
    requires s.Formed()
  {
    if s.Dc? then
      && s.dc.code.Safe()
      && var bits := EncodeDc(s.dc.code, s.refining, s.low, DcValues(zzs), 0);
         bits.Some? && Here(s.dc.src, 0, bits.value)
    else
      && s.AsPass().Valid() && Plannable(s.AsPass(), zzs, s.ac.plan)
      && var bits := EncodeBand(s.AsPass(), zzs, s.ac.plan);
         bits.Some? && Here(s.ac.src, 0, bits.value)
  }

  /** Coefficient k from position a up. */
  function Known(v: int, k: nat, a: nat): int
  {
    if k == 0 then DcApprox(v, a) else A.Approx(v, a)
  }

  /** The block holds every coefficient at its level, and zero where nothing has come
      yet; before the first scan it may hold anything. */
  ghost predicate Shows(lv: Levels, cells: Cells, zz: Cells)
  {
    lv[0].Some? ==> forall k :: 0 <= k < 64 ==> cells[Zig(k)] == if lv[k].Some? then Known(zz[k], k, lv[k].value) else 0
  }

  ghost predicate AtLevels(lv: Levels, blocks: seq<Cells>, zzs: seq<Cells>)
  {
    |blocks| == |zzs| && forall i :: 0 <= i < |zzs| ==> Shows(lv, blocks[i], zzs[i])
  }

  ghost predicate AllCodable(zzs: seq<Cells>)
  {
    forall i :: 0 <= i < |zzs| ==> Codable(zzs[i])
  }

  // ----- one scan -----

  lemma ZigStart()
    ensures Zig(0) == 0 && forall k :: 1 <= k < 64 ==> Zig(k) != 0
  {
    hide Zig;
    ZigZero();
    forall k | 1 <= k < 64
      ensures Zig(k) != 0
    {
      ZigPermutes(k);
      ZigPermutes(0);
    }
  }

  lemma DcShows(lv: Levels, s: Kind, was: Cells, now: Cells, zz: Cells)
    requires s.Dc() && Legal(lv, s) && Shows(lv, was, zz) && now == DcResult(s.refining, was, zz[0], s.low)
    ensures Shows(Next(lv, s), now, zz)
  {
    hide Zig, DcApprox, A.Approx;
    ZigStart();
  }

  lemma AcShows(lv: Levels, s: Kind, p: Pass, was: Cells, now: Cells, zz: Cells)
    requires !s.Dc() && Legal(lv, s) && Shows(lv, was, zz) && p.ss == s.ss && p.se == s.se && p.al == s.low
    requires p.ss <= p.se < 64 && After(p, was, now, zz)
    ensures Shows(Next(lv, s), now, zz)
  {
    hide Zig, DcApprox, A.Approx;
    assert !s.Covers(0);
  }

  /** A refinement finds the DC value with one bit less. */
  lemma DcIsReady(lv: Levels, s: Kind, cells: Cells, zz: Cells)
    requires s.Dc() && Legal(lv, s) && Shows(lv, cells, zz) && s.refining
    ensures cells[0] == DcApprox(zz[0], s.low + 1)
  {
    hide Zig, DcApprox, A.Approx;
    ZigStart();
    assert s.Covers(0) && cells[Zig(0)] == Known(zz[0], 0, s.low + 1);
  }

  lemma AcIsReady(lv: Levels, s: Kind, p: Pass, cells: Cells, zz: Cells)
    requires !s.Dc() && Legal(lv, s) && Shows(lv, cells, zz)
    requires p.ss == s.ss && p.se == s.se && p.al == s.low && p.refine == s.refining && p.ss <= p.se < 64
    ensures Before(p, cells, zz)
  {
    hide Zig, A.Approx;
    forall k | p.ss <= k <= p.se
      ensures cells[Zig(k)] == if p.refine then A.Approx(zz[k], p.al + 1) else 0
    {
      assert s.Covers(k);
    }
  }

  lemma DcKeepsLevels(lv: Levels, s: Kind, blocks: seq<Cells>, now: seq<Cells>, zzs: seq<Cells>)
    requires s.Dc() && Legal(lv, s) && AtLevels(lv, blocks, zzs) && DcDone(s.refining, blocks, now, DcValues(zzs), s.low)
    ensures AtLevels(Next(lv, s), now, zzs)
  {
    hide Shows, Legal, DcResult;
    forall i | 0 <= i < |zzs|
      ensures Shows(Next(lv, s), now[i], zzs[i])
    {
      DcShows(lv, s, blocks[i], now[i], zzs[i]);
    }
  }

  lemma DcReady(lv: Levels, s: Kind, blocks: seq<Cells>, zzs: seq<Cells>)
    requires s.Dc() && Legal(lv, s) && AtLevels(lv, blocks, zzs) && AllCodable(zzs)
    ensures forall i :: 0 <= i < |zzs| ==> Int16(DcValues(zzs)[i])
    ensures s.refining ==> DcAt(blocks, DcValues(zzs), s.low + 1)
  {
    hide Shows, Legal, DcApprox;
    if s.refining {
      forall i | 0 <= i < |zzs|
        ensures blocks[i][0] == DcApprox(zzs[i][0], s.low + 1)
      {
        DcIsReady(lv, s, blocks[i], zzs[i]);
      }
    }
  }

  lemma AcReady(lv: Levels, s: Scan, blocks: seq<Cells>, zzs: seq<Cells>)
    requires s.Ac? && s.Formed() && Legal(lv, s.AsKind()) && AtLevels(lv, blocks, zzs) && AllCodable(zzs)
    ensures AllBefore(s.AsPass(), blocks, zzs)
  {
    hide Shows, Legal, Before, Codable;
    forall i | 0 <= i < |zzs|
      ensures Codable(zzs[i]) && Before(s.AsPass(), blocks[i], zzs[i])
    {
      AcIsReady(lv, s.AsKind(), s.AsPass(), blocks[i], zzs[i]);
    }
  }

  lemma AcKeepsLevels(lv: Levels, s: Scan, blocks: seq<Cells>, now: seq<Cells>, zzs: seq<Cells>)
    requires s.Ac? && s.Formed() && Legal(lv, s.AsKind()) && AtLevels(lv, blocks, zzs) && AllAfter(s.AsPass(), blocks, now, zzs)
    ensures AtLevels(Next(lv, s.AsKind()), now, zzs)
  {
    hide Shows, Legal, After;
    forall i | 0 <= i < |zzs|
      ensures Shows(Next(lv, s.AsKind()), now[i], zzs[i])
    {
      AcShows(lv, s.AsKind(), s.AsPass(), blocks[i], now[i], zzs[i]);
    }
  }

  /** A legal scan that sends the coefficients brings those of its band to its
      position and touches no other. */
  lemma ScanKeepsLevels(lv: Levels, s: Scan, blocks: seq<Cells>, zzs: seq<Cells>)
    requires s.Formed() && Legal(lv, s.AsKind()) && Sends(s, zzs) && AtLevels(lv, blocks, zzs) && AllCodable(zzs)
    ensures Decode(s, blocks).Some? && AtLevels(Next(lv, s.AsKind()), Decode(s, blocks).value, zzs)
  {
    hide Legal, AtLevels, AllCodable, EncodeDc, EncodeBand, Plannable, Here, DcBand, DecodeBand, Next, AllBefore, AllAfter, DcDone, DcAt, Int16;
    SameLength(lv, blocks, zzs);
    if s.Dc? {
      DcReady(lv, s.AsKind(), blocks, zzs);
      DcBandRoundTrip(s.dc.code, s.refining, s.low, DcValues(zzs), s.dc.src, 0, blocks, 0, 0);
      DcKeepsLevels(lv, s.AsKind(), blocks, Decode(s, blocks).value, zzs);
    } else {
      AcReady(lv, s, blocks, zzs);
      BandRoundTrip(s.AsPass(), zzs, s.ac.plan, s.ac.src, 0, blocks);
      AcKeepsLevels(lv, s, blocks, Decode(s, blocks).value, zzs);
    }
  }

  lemma SameLength(lv: Levels, blocks: seq<Cells>, zzs: seq<Cells>)
    requires AtLevels(lv, blocks, zzs)
    ensures |blocks| == |zzs|
  {
  }

  // ----- any sequence -----

  ghost predicate LegalAll(lv: Levels, scans: seq<Scan>, zzs: seq<Cells>)
    decreases |scans|
  {
    |scans| > 0 ==>
      && scans[0].Formed() && Legal(lv, scans[0].AsKind()) && Sends(scans[0], zzs)
      && LegalAll(Next(lv, scans[0].AsKind()), scans[1..], zzs)
  }

  function NextAll(lv: Levels, scans: seq<Scan>): Levels
    decreases |scans|
  {
    if |scans| == 0 then lv else NextAll(Next(lv, scans[0].AsKind()), scans[1..])
  }

  function DecodeAll(scans: seq<Scan>, blocks: seq<Cells>): Option<seq<Cells>>
    requires forall t :: 0 <= t < |scans| ==> scans[t].Formed()
    decreases |scans|
  {
    if |scans| == 0 then Some(blocks) else
    var r := Decode(scans[0], blocks);
    if r.None? then None else DecodeAll(scans[1..], r.value)
  }

  /** After any legal sequence every coefficient is at the level that the sequence
      has reached. */
  lemma {:induction false} SequenceKeepsLevels(lv: Levels, scans: seq<Scan>, blocks: seq<Cells>, zzs: seq<Cells>)
    requires (forall t :: 0 <= t < |scans| ==> scans[t].Formed()) && LegalAll(lv, scans, zzs)
    requires AtLevels(lv, blocks, zzs) && AllCodable(zzs)
    ensures DecodeAll(scans, blocks).Some? && AtLevels(NextAll(lv, scans), DecodeAll(scans, blocks).value, zzs)
    decreases |scans|
  {
    hide Legal, Sends, AtLevels, AllCodable, Decode, Next;
    if |scans| > 0 {
      ScanKeepsLevels(lv, scans[0], blocks, zzs);
      SequenceKeepsLevels(Next(lv, scans[0].AsKind()), scans[1..], Decode(scans[0], blocks).value, zzs);
    }
  }

  /** From blocks with any content, every legal interleaving of DC and AC scans
      that takes all coefficients down to position 0 leaves all 64 coefficients of
      every block exact. */
  lemma AllScansExact(scans: seq<Scan>, blocks: seq<Cells>, zzs: seq<Cells>)
    requires (forall t :: 0 <= t < |scans| ==> scans[t].Formed()) && LegalAll(Unknown(), scans, zzs)
    requires |blocks| == |zzs| && AllCodable(zzs)
    requires forall k :: 0 <= k < 64 ==> NextAll(Unknown(), scans)[k] == Some(0)
    ensures var r := DecodeAll(scans, blocks);
            && r.Some? && |r.value| == |zzs|
            && forall i, k :: 0 <= i < |zzs| && 0 <= k < 64 ==> r.value[i][Zig(k)] == zzs[i][k]
  {
    hide LegalAll, NextAll, DecodeAll, AllCodable, Zig;
    SequenceKeepsLevels(Unknown(), scans, blocks, zzs);
    var r := DecodeAll(scans, blocks).value;
    forall i, k | 0 <= i < |zzs| && 0 <= k < 64
      ensures r[i][Zig(k)] == zzs[i][k]
    {
      FullyKnown(zzs[i][k], k);
    }
  }

  lemma FullyKnown(v: int, k: nat)
    ensures Known(v, k, 0) == v
  {
    A.ApproxBound(v, 0);
    ShiftZero(v);
  }

  /** A first DC scan has to come first: whatever AC coefficients a block held, it
      clears them. */
  lemma LateDcErases(s: Scan, blocks: seq<Cells>, zzs: seq<Cells>, i: nat, k: nat)
    requires s.Dc? && !s.refining && s.Formed() && Sends(s, zzs) && AllCodable(zzs) && |blocks| == |zzs|
    requires i < |zzs| && 1 <= k < 64
    ensures Decode(s, blocks).Some? && |Decode(s, blocks).value| == |zzs| && Decode(s, blocks).value[i][Zig(k)] == 0
  {
    hide EncodeDc, Here, DcBand, Zig, DcAt, Int16, DcApprox;
    ZigStart();
    Values(zzs);
    DcBandRoundTrip(s.dc.code, false, s.low, DcValues(zzs), s.dc.src, 0, blocks, 0, 0);
    assert Decode(s, blocks).value[i] == DcResult(false, blocks[i], zzs[i][0], s.low);
  }

  lemma Values(zzs: seq<Cells>)
    requires AllCodable(zzs)
    ensures forall i :: 0 <= i < |zzs| ==> Int16(DcValues(zzs)[i])
  {
  }
}
