/** DC prediction over whole scans: across any MCUs and restart intervals, and on
    any bytes, the predictors are the exact sums of the differences read since the
    last restart. */
module Prediction {
  import opened Bits
  import opened BitReader
  import opened Zigzag
  import opened BaselineScan

  /** One block as it is read: its component, its difference, and whether it is the
      first block behind a restart. */
  datatype Step = Step(unit: nat, diff: int, reset: bool)

  /** The blocks of one MCU. */
  function McuTrace(comps: seq<Comp>, mcu: seq<nat>, src: Bitstring, at: nat, preds: seq<int>, reset: bool): (tr: seq<Step>)
    requires |preds| == |comps| && forall b :: 0 <= b < |mcu| ==> mcu[b] < |comps|
    ensures |tr| <= |mcu|
  {
    var ds := Differences(comps, mcu, src, at, preds);
    seq(|ds|, b requires 0 <= b < |ds| => Step(mcu[b], ds[b], reset && b == 0))
  }

  /** The blocks of a scan, with the arguments of ScanFrom. */
  function ScanTrace(comps: seq<Comp>, mcu: seq<nat>, interval: nat, d: seq<Byte>,
                     start: nat, at: nat, preds: seq<int>, todo: int, left: nat, reset: bool): seq<Step>
    requires start <= |d| && |preds| == |comps| && forall b :: 0 <= b < |mcu| ==> mcu[b] < |comps|
    decreases left
  {
    if left == 0 then [] else
    var src := Destuff(d, start);
    var r := DecodeUnits(comps, mcu, src, at, preds);
    if !r.Units? then [] else
    var here := McuTrace(comps, mcu, src, at, preds, reset);
    if todo > 1 then here + ScanTrace(comps, mcu, interval, d, start, r.next, r.preds, todo - 1, left - 1, false)
    else
      var m := NextMarker(d, start);
      if m.None? || !Restart(m.value.0) then here
      else here + ScanTrace(comps, mcu, interval, d, m.value.1, 0, Zeroes(|comps|), Todo(interval), left - 1, true)
  }

  /** The sum of the differences of component n among the first k blocks since the
      last restart among them; p0 counts when there is none. */
  function SumSince(tr: seq<Step>, p0: int, n: nat, k: nat): int
    requires k <= |tr|
  {
    if k == 0 then p0 else
    var s := tr[k - 1];
    (if s.reset then 0 else SumSince(tr, p0, n, k - 1)) + (if s.unit == n then s.diff else 0)
  }

  lemma {:induction false} SumOfFirst(a: seq<Step>, b: seq<Step>, p0: int, n: nat, k: nat)
    requires k <= |a|
    ensures SumSince(a + b, p0, n, k) == SumSince(a, p0, n, k)
  {
    if k > 0 {
      SumOfFirst(a, b, p0, n, k - 1);
    }
  }

  lemma {:induction false} SumOfSecond(a: seq<Step>, b: seq<Step>, p0: int, n: nat, k: nat)
    requires k <= |b|
    ensures SumSince(a + b, p0, n, |a| + k) == SumSince(b, SumSince(a, p0, n, |a|), n, k)
  {
    if k > 0 {
      assert (a + b)[|a| + k - 1] == b[k - 1];
      SumOfSecond(a, b, p0, n, k - 1);
    } else {
      SumOfFirst(a, b, p0, n, |a|);
    }
  }

  /** Behind a restart nothing earlier counts. */
  lemma {:induction false} SumForgets(tr: seq<Step>, p0: int, q0: int, n: nat, k: nat)
    requires 0 < k <= |tr| && tr[0].reset
    ensures SumSince(tr, p0, n, k) == SumSince(tr, q0, n, k)
  {
    if k > 1 {
      SumForgets(tr, p0, q0, n, k - 1);
    }
  }

  /** Inside an MCU the sum is that of the differences. */
  lemma {:induction false} SumInMcu(comps: seq<Comp>, mcu: seq<nat>, src: Bitstring, at: nat, preds: seq<int>, reset: bool, n: nat, k: nat)
    requires |preds| == |comps| && forall b :: 0 <= b < |mcu| ==> mcu[b] < |comps|
    requires n < |preds| && (reset ==> preds[n] == 0) && |Differences(comps, mcu, src, at, preds)| == |mcu| && k <= |mcu|
    ensures SumSince(McuTrace(comps, mcu, src, at, preds, reset), preds[n], n, k) ==
              preds[n] + SumOf(mcu, Differences(comps, mcu, src, at, preds), n, k)
    decreases k
  {
    hide Differences;
    if k > 0 {
      SumInMcu(comps, mcu, src, at, preds, reset, n, k - 1);
    }
  }

  /** The DC cells of `bs` are the quantiser times the sums of the trace. */
  ghost predicate Exact(comps: seq<Comp>, tr: seq<Step>, preds: seq<int>, bs: seq<Cells>)
    requires |preds| == |comps|
  {
    |bs| == |tr| && forall k :: 0 <= k < |tr| ==> ExactAt(comps, tr, preds, bs, k)
  }

  ghost predicate ExactAt(comps: seq<Comp>, tr: seq<Step>, preds: seq<int>, bs: seq<Cells>, k: nat)
    requires |preds| == |comps| && k < |tr| == |bs|
  {
    var n := tr[k].unit;
    n < |comps| && bs[k][0] == DcCell(comps[n], SumSince(tr, preds[n], n, k + 1))
  }

  ghost predicate AllZero(preds: seq<int>)
  {
    forall n :: 0 <= n < |preds| ==> preds[n] == 0
  }

  /** One MCU: its cells are exact, and the new predictors are the sums. */
  lemma McuExact(comps: seq<Comp>, mcu: seq<nat>, src: Bitstring, at: nat, preds: seq<int>, reset: bool)
    requires |preds| == |comps| && forall b :: 0 <= b < |mcu| ==> mcu[b] < |comps|
    requires (reset ==> AllZero(preds)) && DecodeUnits(comps, mcu, src, at, preds).Units?
    ensures var r, tr := DecodeUnits(comps, mcu, src, at, preds), McuTrace(comps, mcu, src, at, preds, reset);
            && Exact(comps, tr, preds, r.blocks)
            && |r.preds| == |preds| && forall n :: 0 <= n < |preds| ==> r.preds[n] == SumSince(tr, preds[n], n, |tr|)
  {
    hide DecodeUnits, Differences, SumOf, SumSince, DcCell;
    PredictionIsSum(comps, mcu, src, at, preds);
    var r, tr := DecodeUnits(comps, mcu, src, at, preds), McuTrace(comps, mcu, src, at, preds, reset);
    UnitsLength(comps, mcu, src, at, preds);
    forall n | 0 <= n < |preds|
      ensures r.preds[n] == SumSince(tr, preds[n], n, |tr|)
    {
      SumInMcu(comps, mcu, src, at, preds, reset, n, |mcu|);
    }
    forall k | 0 <= k < |tr|
      ensures ExactAt(comps, tr, preds, r.blocks, k)
    {
      SumInMcu(comps, mcu, src, at, preds, reset, mcu[k], k + 1);
    }
  }

  lemma UnitsLength(comps: seq<Comp>, mcu: seq<nat>, src: Bitstring, at: nat, preds: seq<int>)
    requires |preds| == |comps| && forall b :: 0 <= b < |mcu| ==> mcu[b] < |comps|
    requires DecodeUnits(comps, mcu, src, at, preds).Units?
    ensures |DecodeUnits(comps, mcu, src, at, preds).blocks| == |mcu| && |DecodeUnits(comps, mcu, src, at, preds).preds| == |comps|
  {
  }

  /** Two stretches, the second from the sums of the first or behind a restart. */
  lemma ExactJoin(comps: seq<Comp>, a: seq<Step>, b: seq<Step>, preds: seq<int>, next: seq<int>, ca: seq<Cells>, cb: seq<Cells>)
    requires |preds| == |comps| == |next| && Exact(comps, a, preds, ca) && Exact(comps, b, next, cb)
    requires |b| == 0 || b[0].reset || forall n :: 0 <= n < |preds| ==> next[n] == SumSince(a, preds[n], n, |a|)
    ensures Exact(comps, a + b, preds, ca + cb)
  {
    hide SumSince, DcCell, ExactAt;
    forall k | 0 <= k < |a + b|
      ensures ExactAt(comps, a + b, preds, ca + cb, k)
    {
      if k < |a| {
        ExactBefore(comps, a, b, preds, ca, cb, k);
      } else {
        ExactBehind(comps, a, b, preds, next, ca, cb, k - |a|);
      }
    }
  }

  lemma ExactBefore(comps: seq<Comp>, a: seq<Step>, b: seq<Step>, preds: seq<int>, ca: seq<Cells>, cb: seq<Cells>, k: nat)
    requires |preds| == |comps| && k < |a| == |ca| && |b| == |cb| && ExactAt(comps, a, preds, ca, k)
    ensures ExactAt(comps, a + b, preds, ca + cb, k)
  {
    hide SumSince, DcCell;
    assert (a + b)[k] == a[k] && (ca + cb)[k] == ca[k];
    SumOfFirst(a, b, preds[a[k].unit], a[k].unit, k + 1);
  }

  lemma ExactBehind(comps: seq<Comp>, a: seq<Step>, b: seq<Step>, preds: seq<int>, next: seq<int>, ca: seq<Cells>, cb: seq<Cells>, i: nat)
    requires |preds| == |comps| == |next| && |a| == |ca| && i < |b| == |cb| && ExactAt(comps, b, next, cb, i)
    requires b[0].reset || forall n :: 0 <= n < |preds| ==> next[n] == SumSince(a, preds[n], n, |a|)
    ensures ExactAt(comps, a + b, preds, ca + cb, |a| + i)
  {
    hide SumSince, DcCell;
    assert (a + b)[|a| + i] == b[i] && (ca + cb)[|a| + i] == cb[i];
    JoinedSum(a, b, preds, next, i);
  }

  lemma JoinedSum(a: seq<Step>, b: seq<Step>, preds: seq<int>, next: seq<int>, i: nat)
    requires |preds| == |next| && i < |b| && b[i].unit < |preds|
    requires b[0].reset || forall n :: 0 <= n < |preds| ==> next[n] == SumSince(a, preds[n], n, |a|)
    ensures var n := b[i].unit; SumSince(a + b, preds[n], n, |a| + i + 1) == SumSince(b, next[n], n, i + 1)
  {
    hide SumSince;
    var n := b[i].unit;
    SumOfSecond(a, b, preds[n], n, i + 1);
    if b[0].reset {
      SumForgets(b, SumSince(a, preds[n], n, |a|), next[n], n, i + 1);
    }
  }

  lemma {:induction false} FirstIsReset(comps: seq<Comp>, mcu: seq<nat>, interval: nat, d: seq<Byte>,
                                        start: nat, at: nat, preds: seq<int>, todo: int, left: nat)
    requires start <= |d| && |preds| == |comps| && forall b :: 0 <= b < |mcu| ==> mcu[b] < |comps|
    ensures var tr := ScanTrace(comps, mcu, interval, d, start, at, preds, todo, left, true); |mcu| > 0 && |tr| > 0 ==> tr[0].reset
  {
    hide DecodeUnits, Differences, Destuff, NextMarker;
    if left > 0 && DecodeUnits(comps, mcu, Destuff(d, start), at, preds).Units? && |mcu| > 0 {
      PredictionIsSum(comps, mcu, Destuff(d, start), at, preds);
    }
  }

  lemma {:induction false} EmptyMcu(comps: seq<Comp>, mcu: seq<nat>, interval: nat, d: seq<Byte>,
                                    start: nat, at: nat, preds: seq<int>, todo: int, left: nat, reset: bool)
    requires start <= |d| && |preds| == |comps| && |mcu| == 0
    ensures |ScanTrace(comps, mcu, interval, d, start, at, preds, todo, left, reset)| == 0
    decreases left
  {
    hide DecodeUnits, Differences, Destuff, NextMarker;
    if left > 0 {
      var r := DecodeUnits(comps, mcu, Destuff(d, start), at, preds);
      if r.Units? {
        UnitsLength(comps, mcu, Destuff(d, start), at, preds);
        EmptyMcu(comps, mcu, interval, d, start, r.next, r.preds, todo - 1, left - 1, false);
        var m := NextMarker(d, start);
        if m.Some? {
          EmptyMcu(comps, mcu, interval, d, m.value.1, 0, Zeroes(|comps|), Todo(interval), left - 1, true);
        }
      }
    }
  }

  /** What a scan leaves: blocks whose DC cells are exact for its trace. */
  ghost predicate ScanExact(comps: seq<Comp>, preds: seq<int>, r: ScanResult, tr: seq<Step>)
    requires |preds| == |comps|
  {
    r.Finished? ==> Exact(comps, tr, preds, r.blocks)
  }

  /** Whatever the bytes: when a scan finishes, the DC cell of every block is exactly
      the quantiser times the sum of its component's differences since the last
      restart marker. */
  lemma {:induction false} ScanPredictionIsSum(comps: seq<Comp>, mcu: seq<nat>, interval: nat, d: seq<Byte>,
                                               start: nat, at: nat, preds: seq<int>, todo: int, left: nat, reset: bool)
    requires start <= |d| && |preds| == |comps| && forall b :: 0 <= b < |mcu| ==> mcu[b] < |comps|
    requires reset ==> AllZero(preds)
    ensures ScanExact(comps, preds, ScanFrom(comps, mcu, interval, d, start, at, preds, todo, left),
                      ScanTrace(comps, mcu, interval, d, start, at, preds, todo, left, reset))
    decreases left
  {
    hide DecodeUnits, Destuff, NextMarker, McuTrace, SumSince, Exact;
    var src := Destuff(d, start);
    if left == 0 {
      NoSteps(comps, preds);
    } else if DecodeUnits(comps, mcu, src, at, preds).Units? {
      var r := DecodeUnits(comps, mcu, src, at, preds);
      McuExact(comps, mcu, src, at, preds, reset);
      var m := NextMarker(d, start);
      if todo > 1 {
        ScanPredictionIsSum(comps, mcu, interval, d, start, r.next, r.preds, todo - 1, left - 1, false);
        Continue(comps, McuTrace(comps, mcu, src, at, preds, reset),
                 ScanTrace(comps, mcu, interval, d, start, r.next, r.preds, todo - 1, left - 1, false), preds, r.preds, r.blocks,
                 ScanFrom(comps, mcu, interval, d, start, r.next, r.preds, todo - 1, left - 1));
      } else if m.Some? && Restart(m.value.0) {
        ScanPredictionIsSum(comps, mcu, interval, d, m.value.1, 0, Zeroes(|comps|), Todo(interval), left - 1, true);
        FirstIsReset(comps, mcu, interval, d, m.value.1, 0, Zeroes(|comps|), Todo(interval), left - 1);
        if |mcu| == 0 {
          EmptyMcu(comps, mcu, interval, d, m.value.1, 0, Zeroes(|comps|), Todo(interval), left - 1, true);
        }
        Continue(comps, McuTrace(comps, mcu, src, at, preds, reset),
                 ScanTrace(comps, mcu, interval, d, m.value.1, 0, Zeroes(|comps|), Todo(interval), left - 1, true), preds, Zeroes(|comps|), r.blocks,
                 ScanFrom(comps, mcu, interval, d, m.value.1, 0, Zeroes(|comps|), Todo(interval), left - 1));
      }
    }
  }

  lemma NoSteps(comps: seq<Comp>, preds: seq<int>)
    requires |preds| == |comps|
    ensures Exact(comps, [], preds, [])
  {
  }

  lemma Continue(comps: seq<Comp>, a: seq<Step>, b: seq<Step>, preds: seq<int>, next: seq<int>, ca: seq<Cells>, rest: ScanResult)
    requires |preds| == |comps| == |next| && Exact(comps, a, preds, ca) && ScanExact(comps, next, rest, b)
    requires |b| == 0 || b[0].reset || forall n :: 0 <= n < |preds| ==> next[n] == SumSince(a, preds[n], n, |a|)
    ensures ScanExact(comps, preds, Prepend(ca, rest), a + b)
  {
    hide Exact, SumSince;
    if rest.Finished? {
      ExactJoin(comps, a, b, preds, next, ca, rest.blocks);
    }
  }

  /** The same for the scan at a position of the file, from cleared predictors. */
  lemma PredictionOfScan(comps: seq<Comp>, mcu: seq<nat>, interval: nat, d: seq<Byte>, start: nat, total: nat)
    requires start <= |d| && forall b :: 0 <= b < |mcu| ==> mcu[b] < |comps|
    ensures var zero := Zeroes(|comps|);
            var r := ScanFrom(comps, mcu, interval, d, start, 0, zero, Todo(interval), total);
            var tr := ScanTrace(comps, mcu, interval, d, start, 0, zero, Todo(interval), total, true);
            r.Finished? ==>
              && |r.blocks| == |tr|
              && forall k :: 0 <= k < |tr| ==>
                   tr[k].unit < |comps| && r.blocks[k][0] == DcCell(comps[tr[k].unit], SumSince(tr, 0, tr[k].unit, k + 1))
  {
    hide ScanFrom, ScanTrace, SumSince, DcCell;
    ScanPredictionIsSum(comps, mcu, interval, d, start, 0, Zeroes(|comps|), Todo(interval), total, true);
    var zero := Zeroes(|comps|);
    var r := ScanFrom(comps, mcu, interval, d, start, 0, zero, Todo(interval), total);
    var tr := ScanTrace(comps, mcu, interval, d, start, 0, zero, Todo(interval), total, true);
    if r.Finished? {
      forall k | 0 <= k < |tr|
        ensures tr[k].unit < |comps| && r.blocks[k][0] == DcCell(comps[tr[k].unit], SumSince(tr, 0, tr[k].unit, k + 1))
      {
        assert ExactAt(comps, tr, zero, r.blocks, k);
      }
    }
  }
}
