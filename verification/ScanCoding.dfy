/** A whole encoded sequential scan, bytes and restart markers included, and
    the theorem that parsing it gives back every block. */
module ScanCoding {
  import opened Wrappers
  import opened Bits
  import opened BitReader
  import opened Zigzag
  import opened Coding
  import opened Stuffing
  import opened BaselineScan

  /** Everything that stays fixed during a scan. */
  datatype Setup = Setup(comps: seq<Comp>, mcu: seq<nat>, interval: nat) {
    ghost predicate Valid()
    {
      AllSafe(comps) && ValidMcu(comps, mcu)
    }

    /** An MCU that the decoder can give back exactly. */
    ghost predicate FitsOne(m: seq<Cells>)
      requires ValidMcu(comps, mcu)
    {
      |m| == |mcu| && Representable(comps, mcu, m)
    }

    ghost predicate Fits(ms: seq<seq<Cells>>)
      requires ValidMcu(comps, mcu)
    {
      forall i :: 0 <= i < |ms| ==> FitsOne(ms[i])
    }
  }

  /** The bits of consecutive MCUs of one restart interval. */
  ghost function EncodeMcus(s: Setup, ms: seq<seq<Cells>>, preds: seq<int>): Option<Bitstring>
    requires s.Valid() && s.Fits(ms) && |preds| == |s.comps|
    decreases |ms|
  {
    if |ms| == 0 then Some([])
    else Join(EncodeUnits(s.comps, s.mcu, ms[0], preds), EncodeMcus(s, ms[1..], PredsAfter(s.mcu, ms[0], preds)))
  }

  /** The blocks of MCUs as the decoder delivers them. */
  ghost function Flat(s: Setup, ms: seq<seq<Cells>>): seq<Cells>
    requires s.Valid() && s.Fits(ms)
    decreases |ms|
  {
    if |ms| == 0 then [] else Dequants(s.comps, s.mcu, ms[0]) + Flat(s, ms[1..])
  }

  /** A scan: intervals separated by restart markers counting modulo eight,
      and after the last one whatever marker comes next in the file. */
  ghost function EncodeScan(s: Setup, ms: seq<seq<Cells>>, rst: nat, last: Byte): Option<seq<Byte>>
    requires s.Valid() && s.Fits(ms)
    decreases |ms|
  {
    if s.interval == 0 || |ms| <= s.interval then
      var bits := EncodeMcus(s, ms, Zeroes(|s.comps|));
      if bits.None? then None else Some(Segment(bits.value, last))
    else
      var bits := EncodeMcus(s, ms[..s.interval], Zeroes(|s.comps|));
      var rest := EncodeScan(s, ms[s.interval..], rst + 1, last);
      if bits.None? || rest.None? then None
      else Some(Segment(bits.value, 0xd0 + rst % 8) + rest.value)
  }

  ghost function Scan(s: Setup, d: seq<Byte>, start: nat, at: nat, preds: seq<int>, todo: int, left: nat): ScanResult
    requires s.Valid() && start <= |d| && |preds| == |s.comps|
  {
    ScanFrom(s.comps, s.mcu, s.interval, d, start, at, preds, todo, left)
  }

  /** Where an interval of MCUs leads the decoder: to the end of the scan, or
      over a restart marker into the next segment. */
  ghost function Onward(s: Setup, d: seq<Byte>, m: (Byte, nat), left: nat): ScanResult
    requires s.Valid() && m.1 <= |d|
  {
    if left == 0 then Finished([])
    else Scan(s, d, m.1, 0, Zeroes(|s.comps|), Todo(s.interval), left)
  }

  /** One MCU in the middle of an interval. */
  lemma McuStep(s: Setup, m: seq<Cells>, d: seq<Byte>, start: nat, at: nat, preds: seq<int>, todo: int, left: nat)
    requires s.Valid() && s.FitsOne(m) && start <= |d| && |preds| == |s.comps| && todo > 1 && left >= 1
    requires EncodeUnits(s.comps, s.mcu, m, preds).Some? && Here(Destuff(d, start), at, EncodeUnits(s.comps, s.mcu, m, preds).value)
    ensures Scan(s, d, start, at, preds, todo, left) ==
              Prepend(Dequants(s.comps, s.mcu, m),
                      Scan(s, d, start, at + |EncodeUnits(s.comps, s.mcu, m, preds).value|, PredsAfter(s.mcu, m, preds), todo - 1, left - 1))
  {
    hide EncodeUnits, DecodeUnits, Dequants, PredsAfter, Here, Destuff, NextMarker, AllSafe, Prepend, Representable;
    UnitsRoundTrip(s.comps, s.mcu, m, Destuff(d, start), at, preds);
  }

  /** The last MCU of an interval: the rest of the segment is padding, and the
      marker behind it is a restart or ends the scan. */
  lemma LastMcuStep(s: Setup, m: seq<Cells>, d: seq<Byte>, start: nat, at: nat, preds: seq<int>, left: nat, mark: (Byte, nat))
    requires s.Valid() && s.FitsOne(m) && start <= |d| && |preds| == |s.comps| && left >= 1
    requires EncodeUnits(s.comps, s.mcu, m, preds).Some? && Here(Destuff(d, start), at, EncodeUnits(s.comps, s.mcu, m, preds).value)
    requires var end := at + |EncodeUnits(s.comps, s.mcu, m, preds).value|; end <= |Destuff(d, start)| < end + 8
    requires NextMarker(d, start) == Some(mark) && mark.1 <= |d| && (left > 1 ==> Restart(mark.0))
    ensures Scan(s, d, start, at, preds, 1, left) == Prepend(Dequants(s.comps, s.mcu, m), Onward(s, d, mark, left - 1))
  {
    hide EncodeUnits, DecodeUnits, Dequants, PredsAfter, Here, Destuff, NextMarker, AllSafe, Representable, Zeroes, Todo;
    UnitsRoundTrip(s.comps, s.mcu, m, Destuff(d, start), at, preds);
    var bs := Dequants(s.comps, s.mcu, m);
    assert bs + [] == bs;
    if left == 1 && Restart(mark.0) {
      assert Scan(s, d, mark.1, 0, Zeroes(|s.comps|), Todo(s.interval), 0) == Finished([]);
    }
  }

  /** The MCUs of one segment are delivered, and decoding goes on behind its marker. */
  lemma {:induction false} IntervalRoundTrip(s: Setup, ms: seq<seq<Cells>>, d: seq<Byte>, start: nat, at: nat, preds: seq<int>,
                                             todo: int, left: nat, mark: (Byte, nat))
    requires s.Valid() && s.Fits(ms) && start <= |d| && |preds| == |s.comps| && 1 <= |ms| <= left && |ms| <= todo
    requires |ms| < left ==> todo == |ms| && Restart(mark.0)
    requires EncodeMcus(s, ms, preds).Some? && Here(Destuff(d, start), at, EncodeMcus(s, ms, preds).value)
    requires var end := at + |EncodeMcus(s, ms, preds).value|; end <= |Destuff(d, start)| < end + 8
    requires NextMarker(d, start) == Some(mark) && mark.1 <= |d|
    ensures Scan(s, d, start, at, preds, todo, left) == Prepend(Flat(s, ms), Onward(s, d, mark, left - |ms|))
    decreases |ms|
  {
    hide EncodeUnits, Dequants, PredsAfter, Here, Destuff, NextMarker, AllSafe, Representable, Zeroes, Todo, Scan, Onward, Prepend;
    var m, rest := ms[0], ms[1..];
    var preds' := PredsAfter(s.mcu, m, preds);
    var e := EncodeUnits(s.comps, s.mcu, m, preds).value;
    HereConcat(Destuff(d, start), at, e, EncodeMcus(s, rest, preds').value);
    var bs := Dequants(s.comps, s.mcu, m);
    var tail := Onward(s, d, mark, left - |ms|);
    if |rest| == 0 {
      assert e + [] == e;
      assert Flat(s, ms) == bs by { assert bs + [] == bs; }
      if todo == 1 {
        LastMcuStep(s, m, d, start, at, preds, left, mark);
      } else {
        McuStep(s, m, d, start, at, preds, todo, left);
        EmptyScan(s, d, start, at + |e|, preds', todo - 1, mark);
      }
    } else {
      McuStep(s, m, d, start, at, preds, todo, left);
      IntervalRoundTrip(s, rest, d, start, at + |e|, preds', todo - 1, left - 1, mark);
      PrependTwice(bs, Flat(s, rest), tail);
    }
  }

  lemma EmptyScan(s: Setup, d: seq<Byte>, start: nat, at: nat, preds: seq<int>, todo: int, mark: (Byte, nat))
    requires s.Valid() && start <= |d| && |preds| == |s.comps| && mark.1 <= |d|
    ensures Scan(s, d, start, at, preds, todo, 0) == Finished([]) == Onward(s, d, mark, 0)
  {
  }

  lemma {:induction false} FlatSplit(s: Setup, ms: seq<seq<Cells>>, k: nat)
    requires s.Valid() && s.Fits(ms) && k <= |ms|
    ensures Flat(s, ms[..k]) + Flat(s, ms[k..]) == Flat(s, ms)
    decreases k
  {
    hide Dequants, AllSafe, Representable;
    if k == 0 {
      assert ms[0..] == ms;
    } else {
      FlatSplit(s, ms[1..], k - 1);
      assert ms[..k][1..] == ms[1..][..k - 1];
      assert ms[1..][k - 1..] == ms[k..];
      var bs := Dequants(s.comps, s.mcu, ms[0]);
      assert bs + (Flat(s, ms[1..][..k - 1]) + Flat(s, ms[k..])) == bs + Flat(s, ms[1..][..k - 1]) + Flat(s, ms[k..]);
    }
  }

  /** One segment of the file, read from its first byte. */
  lemma SegmentStep(s: Setup, ms: seq<seq<Cells>>, d: seq<Byte>, p: nat, m: Byte, left: nat)
    requires s.Valid() && s.Fits(ms) && 1 <= |ms| <= left && IsMarker(m) && |ms| <= Todo(s.interval)
    requires |ms| < left ==> s.interval == |ms| && Restart(m)
    requires EncodeMcus(s, ms, Zeroes(|s.comps|)).Some?
    requires BytesHere(d, p, Segment(EncodeMcus(s, ms, Zeroes(|s.comps|)).value, m))
    ensures var next: nat := p + |Segment(EncodeMcus(s, ms, Zeroes(|s.comps|)).value, m)|;
            && next <= |d|
            && Scan(s, d, p, 0, Zeroes(|s.comps|), Todo(s.interval), left) ==
                 Prepend(Flat(s, ms), Onward(s, d, (m, next), left - |ms|))
  {
    hide EncodeMcus, Flat, Here, Destuff, NextMarker, AllSafe, Scan, Onward, Prepend, Segment, BytesHere, PadOnes;
    var bits := EncodeMcus(s, ms, Zeroes(|s.comps|)).value;
    SegmentRoundTrip(bits, m, d, p);
    PaddedHere(bits);
    IntervalRoundTrip(s, ms, d, p, 0, Zeroes(|s.comps|), Todo(s.interval), left, (m, p + |Segment(bits, m)|));
  }

  /** Parsing an encoded scan, with its stuffed bytes and restart markers,
      delivers every block dequantised, in order, and nothing else. */
  lemma {:induction false} ScanRoundTrip(s: Setup, ms: seq<seq<Cells>>, rst: nat, last: Byte, d: seq<Byte>, p: nat)
    requires s.Valid() && s.Fits(ms) && IsMarker(last) && |ms| <= 0x7fff_ffff && p <= |d|
    requires EncodeScan(s, ms, rst, last).Some? && BytesHere(d, p, EncodeScan(s, ms, rst, last).value)
    ensures Scan(s, d, p, 0, Zeroes(|s.comps|), Todo(s.interval), |ms|) == Finished(Flat(s, ms))
    decreases |ms|
  {
    hide EncodeMcus, Here, Destuff, NextMarker, AllSafe, Representable, Zeroes, Scan, Onward, Segment, BytesHere;
    if |ms| == 0 {
      EmptyScan(s, d, p, 0, Zeroes(|s.comps|), Todo(s.interval), (last, p));
    } else if s.interval == 0 || |ms| <= s.interval {
      SegmentStep(s, ms, d, p, last, |ms|);
      var next: nat := p + |Segment(EncodeMcus(s, ms, Zeroes(|s.comps|)).value, last)|;
      EmptyScan(s, d, p, 0, Zeroes(|s.comps|), 1, (last, next));
      assert Flat(s, ms) + [] == Flat(s, ms);
    } else {
      var k, m := s.interval, 0xd0 + rst % 8;
      var seg := Segment(EncodeMcus(s, ms[..k], Zeroes(|s.comps|)).value, m);
      BytesConcat(d, p, seg, EncodeScan(s, ms[k..], rst + 1, last).value);
      SegmentStep(s, ms[..k], d, p, m, |ms|);
      ScanRoundTrip(s, ms[k..], rst + 1, last, d, p + |seg|);
      OnwardScan(s, d, (m, p + |seg|), |ms| - k);
      FlatSplit(s, ms, k);
    }
  }

  lemma OnwardScan(s: Setup, d: seq<Byte>, m: (Byte, nat), left: nat)
    requires s.Valid() && m.1 <= |d| && left >= 1
    ensures Onward(s, d, m, left) == Scan(s, d, m.1, 0, Zeroes(|s.comps|), Todo(s.interval), left)
  {
  }

  // ----- where a written scan ends -----

  ghost function Last(s: Setup, d: seq<Byte>, start: nat, at: nat, preds: seq<int>, todo: int, left: nat): nat
    requires s.Valid() && start <= |d| && |preds| == |s.comps|
  {
    LastStart(s.comps, s.mcu, s.interval, d, start, at, preds, todo, left)
  }

  lemma {:induction false} IntervalEnds(s: Setup, ms: seq<seq<Cells>>, d: seq<Byte>, start: nat, at: nat, preds: seq<int>,
                                        todo: int, left: nat, mark: (Byte, nat))
    requires s.Valid() && s.Fits(ms) && start <= |d| && |preds| == |s.comps| && 1 <= |ms| <= left && |ms| <= todo
    requires |ms| < left ==> todo == |ms| && Restart(mark.0)
    requires EncodeMcus(s, ms, preds).Some? && Here(Destuff(d, start), at, EncodeMcus(s, ms, preds).value)
    requires NextMarker(d, start) == Some(mark) && mark.1 <= |d|
    ensures Last(s, d, start, at, preds, todo, left) ==
              if todo == |ms| && Restart(mark.0) then Last(s, d, mark.1, 0, Zeroes(|s.comps|), Todo(s.interval), left - |ms|)
              else start
    decreases |ms|
  {
    hide EncodeUnits, DecodeUnits, Dequants, PredsAfter, Here, Destuff, NextMarker, AllSafe, Representable, Zeroes, Todo;
    var m, rest := ms[0], ms[1..];
    var preds' := PredsAfter(s.mcu, m, preds);
    var e := EncodeUnits(s.comps, s.mcu, m, preds).value;
    HereConcat(Destuff(d, start), at, e, EncodeMcus(s, rest, preds').value);
    UnitsRoundTrip(s.comps, s.mcu, m, Destuff(d, start), at, preds);
    if |rest| > 0 {
      IntervalEnds(s, rest, d, start, at + |e|, preds', todo - 1, left - 1, mark);
    }
  }

  /** Behind a written scan stands the marker that was written last, unless that
      marker is a restart. */
  lemma {:induction false} ScanEnds(s: Setup, ms: seq<seq<Cells>>, rst: nat, last: Byte, d: seq<Byte>, p: nat)
    requires s.Valid() && s.Fits(ms) && IsMarker(last) && !Restart(last) && 1 <= |ms| <= 0x7fff_ffff && p <= |d|
    requires EncodeScan(s, ms, rst, last).Some? && BytesHere(d, p, EncodeScan(s, ms, rst, last).value)
    ensures var start := Last(s, d, p, 0, Zeroes(|s.comps|), Todo(s.interval), |ms|);
            && p + |EncodeScan(s, ms, rst, last).value| <= |d|
            && NextMarker(d, start) == Some((last, p + |EncodeScan(s, ms, rst, last).value| as nat))
    decreases |ms|
  {
    hide EncodeMcus, Here, Destuff, NextMarker, AllSafe, Representable, Zeroes, Last, Segment, BytesHere, PadOnes;
    var one := if s.interval == 0 || |ms| <= s.interval then |ms| else s.interval;
    var m := if one == |ms| then last else 0xd0 + rst % 8;
    var part := if one == |ms| then ms else ms[..one];
    var bits := EncodeMcus(s, part, Zeroes(|s.comps|)).value;
    var seg := Segment(bits, m);
    if one < |ms| {
      BytesConcat(d, p, seg, EncodeScan(s, ms[one..], rst + 1, last).value);
    }
    SegmentRoundTrip(bits, m, d, p);
    PaddedHere(bits);
    IntervalEnds(s, part, d, p, 0, Zeroes(|s.comps|), Todo(s.interval), |ms|, (m, p + |seg|));
    if one < |ms| {
      ScanEnds(s, ms[one..], rst + 1, last, d, p + |seg|);
    }
  }
}
