/** The PS/2 bit receiver: one call per falling clock edge, eleven bits to a
    frame, a reset of the frame when the line was silent too long. */
module Ps2Receiver {
  import opened Wrappers
  import opened Bits

  const TWO64: int := 0x1_0000_0000_0000_0000

  /** Subtraction of unsigned 64-bit clock values. */
  function Elapsed(now: int, last: int): int { (now - last) % TWO64 }

  function Ones(b: seq<bool>): nat
  {
    if |b| == 0 then 0 else Ones(b[..|b| - 1]) + BitOf(b[|b| - 1])
  }

  /** Value of bits that arrive least significant first. */
  function LsbVal(b: seq<bool>): nat
  {
    if |b| == 0 then 0 else BitOf(b[0]) + 2 * LsbVal(b[1..])
  }

  function LsbBits(v: nat, n: nat): (r: seq<bool>)
    ensures |r| == n
  {
    if n == 0 then [] else [v % 2 == 1] + LsbBits(v / 2, n - 1)
  }

  lemma {:induction false} LsbRoundTrip(v: nat, n: nat)
    requires v < Pow2(n)
    ensures LsbVal(LsbBits(v, n)) == v
  {
    if n > 0 {
      LsbRoundTrip(v / 2, n - 1);
      assert LsbBits(v, n)[1..] == LsbBits(v / 2, n - 1);
    }
  }

  // ----- reference -----

  /** The bits of the current frame, and the one bits of earlier, abandoned
      frames that the parity counter still contains. */
  datatype Rx = Rx(got: seq<bool>, stray: nat, last: nat)

  /** The checks on a full frame. */
  predicate Good(f: seq<bool>, stray: nat)
    requires |f| == 11
  {
    !f[0] && f[10] && (Ones(f) + stray) % 2 == 0
  }

  function Data(f: seq<bool>): nat
    requires |f| == 11
  {
    LsbVal(f[1..9])
  }

  predicate Late(rx: Rx, now: nat)
  {
    Elapsed(now, if rx.last == 0 then now else rx.last) > 10
  }

  function Step(rx: Rx, bit: bool, now: nat): (Rx, Option<nat>)
    requires |rx.got| < 11
  {
    var got := (if Late(rx, now) then [] else rx.got) + [bit];
    var stray := if Late(rx, now) then rx.stray + Ones(rx.got) else rx.stray;
    if |got| < 11 then (Rx(got, stray, now), None)
    else (Rx([], 0, now), if Good(got, stray) then Some(Data(got)) else None)
  }

  // ----- the driver -----

  class Receiver {
    var message: seq<bool>   // the low eleven bits, least significant first; the others stay clear
    var nbBit: nat
    var parity: nat
    var lastUpdate: nat
    ghost var rx: Rx

    ghost predicate Valid()
      reads this
    {
      && |rx.got| == nbBit < 11
      && message == Zeros(11 - nbBit) + rx.got
      && parity == Ones(rx.got) + rx.stray
      && lastUpdate == rx.last
    }

    constructor ()
      ensures Valid() && rx == Rx([], 0, 0)
    {
      message, nbBit, parity, lastUpdate := Zeros(11), 0, 0, 0;
      rx := Rx([], 0, 0);
    }

    /** The registers hold `before` and count `stray` ones too many. */
    ghost predicate Holding(before: seq<bool>, stray: nat)
      reads `nbBit, `message, `parity
    {
      |before| == nbBit < 11 && message == Zeros(11 - nbBit) + before && parity == Ones(before) + stray
    }

    /** Abandon a frame that has been idle for too long. */
    method Refresh(now: nat) returns (ghost before: seq<bool>, ghost stray: nat)
      requires Valid()
      modifies `message, `nbBit, `lastUpdate
      ensures lastUpdate == now && Holding(before, stray)
      ensures before == (if Late(rx, now) then [] else rx.got)
      ensures stray == if Late(rx, now) then rx.stray + Ones(rx.got) else rx.stray
    {
      hide Ones, Zeros, Elapsed;
      ZeroOnes();
      EmptyEnds([], Zeros(11));
      before, stray := rx.got, rx.stray;
      if lastUpdate == 0 {
        lastUpdate := now;
      }
      if Elapsed(now, lastUpdate) > 10 {
        message, nbBit := Zeros(11), 0;
        before, stray := [], rx.stray + Ones(rx.got);
      }
      lastUpdate := now;
    }

    method PushBit(bit: bool, ghost before: seq<bool>, ghost stray: nat)
      requires Holding(before, stray)
      modifies `message, `nbBit, `parity
      ensures nbBit == |before| + 1 && parity == Ones(before + [bit]) + stray
      ensures message == if nbBit < 11 then Zeros(11 - nbBit) + (before + [bit]) else before + [bit]
    {
      hide Ones, Zeros;
      nbBit := nbBit + 1;
      parity := parity + BitOf(bit);
      ShiftIn(before, bit);
      OneMore(before, bit);
      message := message[1..] + [bit];
    }

    /** One data bit, sampled at the given time. */
    method ReceiveMessage(bit: bool, now: nat) returns (r: Option<nat>)
      requires Valid()
      modifies this
      ensures Valid() && (rx, r) == Step(old(rx), bit, now)
    {
      hide Ones, LsbVal, Zeros, Late, Good, Data;
      ZeroOnes();
      ghost var before, stray := Refresh(now);
      PushBit(bit, before, stray);
      rx := Step(rx, bit, now).0;
      if nbBit < 11 {
        return None;
      }
      nbBit := 0;
      r := Judge(message, parity, stray);
      EmptyEnds([], Zeros(11));
      parity, message := 0, Zeros(11);
    }
  }

  /** The checks of a complete frame. */
  method Judge(message: seq<bool>, parity: nat, ghost stray: nat) returns (r: Option<nat>)
    requires |message| == 11 && parity == Ones(message) + stray
    ensures r == if Good(message, stray) then Some(Data(message)) else None
  {
    hide Ones, LsbVal;
    if message[0] {
      return None;
    }
    if !message[10] {
      return None;
    }
    if parity % 2 != 0 {
      return None;
    }
    return Some(LsbVal(message[1..9]));
  }

  lemma ZeroOnes()
    ensures Ones([]) == 0
  {
  }

  /** Shifting a bit in at the top appends it to the frame. */
  lemma ShiftIn(before: seq<bool>, bit: bool)
    requires |before| < 11
    ensures (Zeros(11 - |before|) + before)[1..] + [bit] == Zeros(10 - |before|) + (before + [bit])
    ensures |before| == 10 ==> Zeros(0) + (before + [bit]) == before + [bit]
  {
    hide Zeros;
    ZerosTail(11 - |before|);
    ShiftSeq(Zeros(11 - |before|), before, bit);
    EmptyEnds(Zeros(0), before + [bit]);
  }

  lemma OneMore(before: seq<bool>, bit: bool)
    ensures Ones(before + [bit]) == Ones(before) + BitOf(bit)
  {
    hide Ones;
    OnesConcat(before, [bit]);
    OneBit(bit);
  }

  lemma ShiftSeq(z: seq<bool>, before: seq<bool>, bit: bool)
    requires |z| >= 1
    ensures (z + before)[1..] + [bit] == z[1..] + (before + [bit])
  {
  }

  lemma ZerosTail(n: nat)
    requires n >= 1
    ensures Zeros(n)[1..] == Zeros(n - 1)
  {
  }

  lemma EmptyEnds(e: seq<bool>, s: seq<bool>)
    requires |e| == 0
    ensures e + s == s && s + [] == s
  {
  }

  lemma OneBit(b: bool)
    ensures Ones([b]) == BitOf(b)
  {
  }

  // ----- frames -----

  /** A frame as a keyboard sends it: start bit, data, odd parity, stop bit. */
  function Frame(b: Byte): (f: seq<bool>)
    ensures |f| == 11
  {
    [false] + LsbBits(b, 8) + [Ones(LsbBits(b, 8)) % 2 == 0] + [true]
  }

  lemma {:induction false} OnesConcat(a: seq<bool>, b: seq<bool>)
    ensures Ones(a + b) == Ones(a) + Ones(b)
  {
    if |b| == 0 {
      assert a + b == a;
    } else {
      OnesConcat(a, b[..|b| - 1]);
      assert (a + b)[..|a + b| - 1] == a + b[..|b| - 1];
    }
  }

  /** With no stray bits a frame is accepted exactly when its start bit is 0,
      its stop bit is 1 and data and parity together hold an odd number of ones. */
  lemma AcceptsExactly(f: seq<bool>)
    requires |f| == 11
    ensures Good(f, 0) <==> !f[0] && f[10] && Ones(f[1..10]) % 2 == 1
  {
    assert f == f[..1] + f[1..10] + f[10..];
    OnesConcat(f[..1] + f[1..10], f[10..]);
    OnesConcat(f[..1], f[1..10]);
    assert Ones(f[..1]) == BitOf(f[0]) && Ones(f[10..]) == BitOf(f[10]);
  }

  /** A clean frame is accepted exactly when the stray ones are even in number. */
  lemma CleanFrame(b: Byte, stray: nat)
    ensures Good(Frame(b), stray) <==> stray % 2 == 0
    ensures Data(Frame(b)) == b
  {
    hide LsbBits, LsbVal;
    var d := LsbBits(b, 8);
    var p := Ones(d) % 2 == 0;
    OnesConcat([false] + d + [p], [true]);
    OnesConcat([false] + d, [p]);
    OnesConcat([false], d);
    assert Ones([false]) == 0 && Ones([true]) == 1 && Ones([p]) == BitOf(p);
    assert Frame(b)[1..9] == d;
    Powers();
    LsbRoundTrip(b, 8);
  }

  /** A run of the receiver: its final state and the bytes it returned. */
  function Run(rx: Rx, bits: seq<bool>, times: seq<nat>): (Rx, seq<nat>)
    requires |rx.got| < 11 && |times| == |bits|
    decreases |bits|
  {
    if |bits| == 0 then (rx, []) else
    var (rx', r) := Step(rx, bits[0], times[0]);
    var (end, out) := Run(rx', bits[1..], times[1..]);
    (end, (if r.Some? then [r.value] else []) + out)
  }

  /** The clock never stands still at zero nor lets ten milliseconds pass. */
  ghost predicate Steady(last: nat, times: seq<nat>)
  {
    && (forall i :: 0 <= i < |times| ==> times[i] > 0)
    && (forall i :: 1 <= i < |times| ==> times[i - 1] <= times[i] <= times[i - 1] + 10)
    && (|times| > 0 && last > 0 ==> last <= times[0] <= last + 10)
  }

  lemma NotLate(rx: Rx, times: seq<nat>)
    requires |times| > 0 && Steady(rx.last, times)
    ensures !Late(rx, times[0]) && Steady(times[0], times[1..])
  {
  }

  lemma RunFirst(rx: Rx, bits: seq<bool>, times: seq<nat>)
    requires |bits| == |times| > 0 && |rx.got| < 11
    ensures var (rx', r) := Step(rx, bits[0], times[0]);
            var (end, out) := Run(rx', bits[1..], times[1..]);
            Run(rx, bits, times) == (end, (if r.Some? then [r.value] else []) + out)
  {
    hide Late, Good, Data, Ones;
  }

  /** The rest of a frame: its bits arrive, then it is judged. */
  lemma {:induction false} FinishFrame(rx: Rx, bits: seq<bool>, times: seq<nat>, more: seq<bool>, moreTimes: seq<nat>)
    requires |bits| >= 1 && |rx.got| + |bits| == 11 && |times| == |bits| && |more| == |moreTimes|
    requires Steady(rx.last, times + moreTimes)
    ensures var f, last := rx.got + bits, times[|times| - 1];
            var (end, out) := Run(Rx([], 0, last), more, moreTimes);
            && Run(rx, bits + more, times + moreTimes) ==
                 (end, (if Good(f, rx.stray) then [Data(f)] else []) + out)
            && Steady(last, moreTimes)
    decreases |bits|
  {
    hide Good, Data, Late, Steady, Run;
    var all, ts := bits + more, times + moreTimes;
    NotLate(rx, ts);
    RunFirst(rx, all, ts);
    assert all[1..] == bits[1..] + more && ts[1..] == times[1..] + moreTimes;
    var rx' := Step(rx, all[0], ts[0]).0;
    if |bits| == 1 {
      assert bits[1..] + more == more && times[1..] + moreTimes == moreTimes;
      assert rx.got + [bits[0]] == rx.got + bits;
    } else {
      FinishFrame(rx', bits[1..], times[1..], more, moreTimes);
      assert rx'.got + bits[1..] == rx.got + bits;
      var (end, out) := Run(Rx([], 0, times[|times| - 1]), more, moreTimes);
      assert [] + ((if Good(rx.got + bits, rx.stray) then [Data(rx.got + bits)] else []) + out) ==
             (if Good(rx.got + bits, rx.stray) then [Data(rx.got + bits)] else []) + out;
    }
  }

  function Frames(bytes: seq<Byte>): (r: seq<bool>)
    ensures |r| == 11 * |bytes|
  {
    if |bytes| == 0 then [] else Frame(bytes[0]) + Frames(bytes[1..])
  }

  /** Any bytes sent as clean frames without a timeout are received exactly. */
  lemma {:induction false} FramesRoundTrip(bytes: seq<Byte>, times: seq<nat>, last: nat)
    requires |times| == 11 * |bytes| && Steady(last, times)
    ensures Run(Rx([], 0, last), Frames(bytes), times).1 == bytes
    decreases |bytes|
  {
    hide Good, Data, Steady, Frame, Step;
    if |bytes| > 0 {
      var rest := Frames(bytes[1..]);
      assert times == times[..11] + times[11..];
      FinishFrame(Rx([], 0, last), Frame(bytes[0]), times[..11], rest, times[11..]);
      assert [] + Frame(bytes[0]) == Frame(bytes[0]);
      CleanFrame(bytes[0], 0);
      FramesRoundTrip(bytes[1..], times[11..], times[..11][10]);
      assert [bytes[0] as nat] + bytes[1..] == bytes;
    }
  }

  /** A bit is late if more than ten milliseconds of the 64-bit clock have passed since
      the last one; the first bit of all is never late. */
  lemma LateExactly(rx: Rx, now: nat)
    ensures Late(rx, now) <==> rx.last != 0 && (now - rx.last) % 0x1_0000_0000_0000_0000 > 10
  {
  }

  /** After a timeout the first clean frame is lost exactly when the abandoned
      bits held an odd number of ones: the parity counter was not cleared. */
  lemma AfterTimeout(rx: Rx, b: Byte, times: seq<nat>)
    requires |rx.got| < 11 && |times| == 11 && Steady(times[0], times[1..]) && times[0] > 0
    requires rx.last != 0 && (times[0] - rx.last) % 0x1_0000_0000_0000_0000 > 10
    ensures Run(rx, Frame(b), times).1 == if (rx.stray + Ones(rx.got)) % 2 == 0 then [b as nat] else []
  {
    hide Good, Data, Frame, Late, Steady, Run, Ones;
    LateExactly(rx, times[0]);
    var f := Frame(b);
    var stray := rx.stray + Ones(rx.got);
    var rx' := Rx([f[0]], stray, times[0]);
    assert Step(rx, f[0], times[0]) == (rx', None) by { assert [] + [f[0]] == [f[0]]; }
    RunStep(rx, f, times);
    assert f[1..] + [] == f[1..] && times[1..] + [] == times[1..];
    FinishFrame(rx', f[1..], times[1..], [], []);
    assert [f[0]] + f[1..] == f;
    CleanFrame(b, stray);
    RunNothing(Rx([], 0, times[1..][9]));
  }

  lemma RunStep(rx: Rx, bits: seq<bool>, times: seq<nat>)
    requires |rx.got| < 11 && |times| == |bits| && |bits| > 0 && Step(rx, bits[0], times[0]).1 == None
    ensures Run(rx, bits, times).1 == Run(Step(rx, bits[0], times[0]).0, bits[1..], times[1..]).1
  {
    hide Step;
  }

  lemma RunNothing(rx: Rx)
    requires |rx.got| < 11
    ensures Run(rx, [], []) == (rx, [])
  {
  }
}
