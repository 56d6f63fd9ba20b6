/** The host program that turns mouse and keyboard callbacks into events on
    the wire: coalescing of mouse motion and suppression of key repeats. */
module InputServer {
  import opened Bits
  import opened Machine
  import opened UartProtocol

  const MIN_MOUSE_MOVE_TIME: int := 10000000

  type KeyId = int

  function Clamp(x: int, lo: int, hi: int): int
  {
    if x < lo then lo else if x > hi then hi else x
  }

  // ----- what a log of events adds up to -----

  function SumX(es: seq<Event>): int
  {
    if |es| == 0 then 0 else SumX(es[..|es| - 1]) + match es[|es| - 1] case Move(dx, _) => dx case _ => 0
  }

  function SumY(es: seq<Event>): int
  {
    if |es| == 0 then 0 else SumY(es[..|es| - 1]) + match es[|es| - 1] case Move(_, dy) => dy case _ => 0
  }

  lemma SumAppend(es: seq<Event>, e: Event)
    ensures SumX(es + [e]) == SumX(es) + match e case Move(dx, _) => dx case _ => 0
    ensures SumY(es + [e]) == SumY(es) + match e case Move(_, dy) => dy case _ => 0
  {
    assert (es + [e])[..|es|] == es;
  }

  // ----- alternation of a key -----

  datatype KeyAction = KeyAction(key: KeyId, down: bool)

  /** Whether a key is down after a log of key actions. */
  function Down(log: seq<KeyAction>, k: KeyId): bool
  {
    if |log| == 0 then false
    else if log[|log| - 1].key == k then log[|log| - 1].down
    else Down(log[..|log| - 1], k)
  }

  /** Press and release alternate for every key, starting with a press. */
  ghost predicate Alternates(log: seq<KeyAction>)
  {
    forall i :: 0 <= i < |log| ==> log[i].down == !Down(log[..i], log[i].key)
  }

  lemma AlternatesAppend(log: seq<KeyAction>, a: KeyAction)
    requires Alternates(log) && a.down == !Down(log, a.key)
    ensures Alternates(log + [a])
    ensures forall k :: Down(log + [a], k) == if k == a.key then a.down else Down(log, k)
  {
    var all := log + [a];
    assert all[..|log|] == log;
    forall i | 0 <= i < |all| ensures all[i].down == !Down(all[..i], all[i].key) {
      assert i <= |log| && all[..i] == log[..i];
    }
  }

  /** The key events that a log of actions sends. */
  function KeyEvents(codes: map<KeyId, int>, log: seq<KeyAction>): seq<Event>
    requires forall i :: 0 <= i < |log| ==> log[i].key in codes
  {
    if |log| == 0 then []
    else KeyEvents(codes, log[..|log| - 1]) + [Key(codes[log[|log| - 1].key], log[|log| - 1].down)]
  }

  function OnlyKeys(es: seq<Event>): seq<Event>
  {
    if |es| == 0 then []
    else OnlyKeys(es[..|es| - 1]) + if es[|es| - 1].Key? then [es[|es| - 1]] else []
  }

  lemma OnlyKeysAppend(es: seq<Event>, e: Event)
    ensures OnlyKeys(es + [e]) == OnlyKeys(es) + if e.Key? then [e] else []
  {
    assert (es + [e])[..|es|] == es;
  }

  /** A clamped value is the value itself inside the range, else the end that it is
      beyond. */
  lemma ClampIsNearest(x: int, lo: int, hi: int, y: int)
    requires lo <= y <= hi
    ensures lo <= Clamp(x, lo, hi) <= hi && Abs(x - Clamp(x, lo, hi)) <= Abs(x - y)
  {
  }

  lemma ClampedMove(x: int, y: int)
    ensures Sendable(Move(Clamp(x, -255, 255), Clamp(y, -255, 255)))
    ensures (-255 <= x <= 255 ==> Clamp(x, -255, 255) == x) && (-255 <= y <= 255 ==> Clamp(y, -255, 255) == y)
  {
  }

  class Server {
    const codes: map<KeyId, int>       // kernel code of each known key
    const buttons: map<int, Byte>      // kernel code of each known button
    var lastX: int
    var lastY: int
    var lastTime: int
    var accX: int
    var accY: int
    var pressed: set<KeyId>
    var pipe: seq<Byte>

    ghost var sent: seq<Event>         // every event written so far
    ghost var wantX: int               // motion handed over for sending, unclamped
    ghost var wantY: int
    ghost var lossless: bool           // no clamp has bitten yet
    ghost var keyLog: seq<KeyAction>   // presses and releases that were sent

    /** The pipe carries exactly the events sent. */
    ghost predicate WireValid()
      reads `sent, `pipe
    {
      (forall i :: 0 <= i < |sent| ==> Sendable(sent[i])) && pipe == EncodeAll(sent)
    }

    /** Motion is sent or pending; unless a clamp bit, the events add up to it. */
    ghost predicate MotionValid()
      reads `sent, `wantX, `wantY, `accX, `accY, `lastX, `lastY, `lossless
    {
      && wantX + accX == lastX && wantY + accY == lastY
      && (lossless ==> SumX(sent) == wantX && SumY(sent) == wantY)
    }

    /** The key events sent are those of a log in which every key alternates. */
    ghost predicate KeysValid()
      reads `sent, `keyLog, `pressed
    {
      && (forall k :: k in codes ==> 0 <= codes[k] < 65536)
      && Alternates(keyLog)
      && (forall i :: 0 <= i < |keyLog| ==> keyLog[i].key in codes)
      && (forall k :: k in codes ==> (k in pressed <==> Down(keyLog, k)))
      && OnlyKeys(sent) == KeyEvents(codes, keyLog)
    }

    ghost predicate Valid()
      reads this
    {
      WireValid() && MotionValid() && KeysValid()
    }

    constructor (codes: map<KeyId, int>, buttons: map<int, Byte>)
      requires forall k :: k in codes ==> 0 <= codes[k] < 65536
      ensures Valid() && lossless && sent == [] && this.codes == codes && this.buttons == buttons
    {
      this.codes, this.buttons := codes, buttons;
      lastX, lastY, lastTime, accX, accY := 0, 0, 0, 0, 0;
      pressed, pipe := {}, [];
      sent, wantX, wantY, lossless, keyLog := [], 0, 0, true, [];
    }

    /** Write one event to the pipe. */
    method Write(e: Event)
      requires WireValid() && Sendable(e)
      modifies `pipe, `sent
      ensures WireValid() && sent == old(sent) + [e]
      ensures OnlyKeys(sent) == old(OnlyKeys(sent)) + if e.Key? then [e] else []
      ensures SumX(sent) == old(SumX(sent)) + match e case Move(dx, _) => dx case _ => 0
      ensures SumY(sent) == old(SumY(sent)) + match e case Move(_, dy) => dy case _ => 0
    {
      hide Encode, Sendable;
      EncodeAppend(sent, e);
      OnlyKeysAppend(sent, e);
      SumAppend(sent, e);
      pipe := pipe + Encode(e);
      sent := sent + [e];
    }

    /** Mouse motion: too soon after the last message it is only accumulated,
        else everything pending is sent, clamped to a byte and a sign.  now1
        and now2 are the two readings of the clock. */
    method OnMouseMove(x: int, y: int, now1: int, now2: int)
      requires Valid()
      modifies this
      ensures Valid() && lastX == x && lastY == y
      ensures var px, py := x - old(lastX) + old(accX), y - old(lastY) + old(accY);
              if now1 - old(lastTime) < 10000000 then
                && sent == old(sent) && accX == px && accY == py
                && lossless == old(lossless) && lastTime == old(lastTime)
              else
                && sent == old(sent) + [Move(Clamp(px, -255, 255), Clamp(py, -255, 255))]
                && accX == 0 && accY == 0 && lastTime == now2
                && lossless == (old(lossless) && -255 <= px <= 255 && -255 <= py <= 255)
      ensures pressed == old(pressed) && keyLog == old(keyLog)
    {
      hide Server.WireValid, Server.KeysValid, SumX, SumY, Sendable, Clamp;
      var dx, dy := x - lastX, y - lastY;
      lastX, lastY := x, y;
      if now1 - lastTime < MIN_MOUSE_MOVE_TIME {
        accX, accY := accX + dx, accY + dy;
        return;
      }
      lastTime := now2;
      wantX, wantY := wantX + accX + dx, wantY + accY + dy;
      lossless := lossless && -255 <= accX + dx <= 255 && -255 <= accY + dy <= 255;
      dx, dy := Clamp(accX + dx, -255, 255), Clamp(accY + dy, -255, 255);
      accX, accY := 0, 0;
      ClampedMove(old(accX) + x - old(lastX), old(accY) + y - old(lastY));
      WriteMouse(Move(dx, dy));
    }

    /** Write an event that is not about a key. */
    method WriteMouse(e: Event)
      requires WireValid() && KeysValid() && Sendable(e) && !e.Key?
      modifies `pipe, `sent
      ensures WireValid() && KeysValid() && sent == old(sent) + [e]
      ensures SumX(sent) == old(SumX(sent)) + match e case Move(dx, _) => dx case _ => 0
      ensures SumY(sent) == old(SumY(sent)) + match e case Move(_, dy) => dy case _ => 0
    {
      hide Alternates, SumX, SumY, OnlyKeys, KeyEvents, Down, Sendable, EncodeAll;
      Write(e);
    }

    method OnMouseClick(button: int, isPressed: bool)
      requires Valid()
      modifies `pipe, `sent
      ensures Valid()
      ensures sent == old(sent) + if button in buttons then [Click(buttons[button], isPressed)] else []
    {
      hide Alternates, EncodeAll, SumX, SumY, OnlyKeys, KeyEvents, Down;
      if button !in buttons {
        return;
      }
      Write(Click(buttons[button], isPressed));
    }

    method OnMouseScroll(dx: int, dy: int)
      requires Valid()
      modifies `pipe, `sent
      ensures Valid()
      ensures sent == old(sent) + [Scroll(Clamp(dx, -255, 255), Clamp(dy, -255, 255))]
    {
      hide Alternates, EncodeAll, SumX, SumY, OnlyKeys, KeyEvents, Down;
      Write(Scroll(Clamp(dx, -255, 255), Clamp(dy, -255, 255)));
    }

    /** A key callback: ignored for unknown keys, repeats and lone releases. */
    method OnKey(key: KeyId, down: bool)
      requires Valid()
      modifies `pipe, `sent, `pressed, `keyLog
      ensures Valid()
      ensures if key in codes && (key in old(pressed)) != down then
                && sent == old(sent) + [Key(codes[key], down)]
                && keyLog == old(keyLog) + [KeyAction(key, down)]
                && pressed == if down then old(pressed) + {key} else old(pressed) - {key}
              else sent == old(sent) && keyLog == old(keyLog) && pressed == old(pressed)
    {
      hide Alternates, EncodeAll, SumX, SumY, OnlyKeys, Down;
      if key !in codes {
        return;
      }
      if down {
        if key in pressed {
          return;
        }
        pressed := pressed + {key};
      } else {
        if key !in pressed {
          return;
        }
        pressed := pressed - {key};
      }
      AlternatesAppend(keyLog, KeyAction(key, down));
      assert (keyLog + [KeyAction(key, down)])[..|keyLog|] == keyLog;
      keyLog := keyLog + [KeyAction(key, down)];
      Write(Key(codes[key], down));
    }
  }

  /** End to end: at any moment the kernel's handler, run over everything the
      server wrote, has seen exactly the events sent; if no clamp has bitten,
      their motion plus what is pending is the position of the mouse. */
  lemma KernelSeesEverything(s: Server)
    requires s.Valid()
    ensures HandleAll(s.pipe) == (s.sent, [])
    ensures s.lossless ==> SumX(HandleAll(s.pipe).0) + s.accX == s.lastX && SumY(HandleAll(s.pipe).0) + s.accY == s.lastY
    ensures OnlyKeys(HandleAll(s.pipe).0) == KeyEvents(s.codes, s.keyLog) && Alternates(s.keyLog)
  {
    hide SumX, SumY, OnlyKeys, KeyEvents, Alternates, EncodeAll, HandleAll;
    StreamRoundTrip(s.sent);
  }

  // ----- alternation as the kernel sees it -----

  ghost predicate Legal(codes: map<KeyId, int>, log: seq<KeyAction>)
  {
    Alternates(log) && forall i :: 0 <= i < |log| ==> log[i].key in codes
  }

  /** The log with kernel codes instead of keys. */
  function Mapped(codes: map<KeyId, int>, log: seq<KeyAction>): (r: seq<KeyAction>)
    requires forall i :: 0 <= i < |log| ==> log[i].key in codes
    ensures |r| == |log|
    ensures forall i :: 0 <= i < |log| ==> r[i] == KeyAction(codes[log[i].key], log[i].down)
  {
    seq(|log|, i requires 0 <= i < |log| => KeyAction(codes[log[i].key], log[i].down))
  }

  ghost predicate Injective(codes: map<KeyId, int>)
  {
    forall a, b :: a in codes && b in codes && codes[a] == codes[b] ==> a == b
  }

  lemma {:induction false} DownMapped(codes: map<KeyId, int>, log: seq<KeyAction>, k: KeyId)
    requires Injective(codes) && k in codes && forall i :: 0 <= i < |log| ==> log[i].key in codes
    ensures Down(Mapped(codes, log), codes[k]) == Down(log, k)
    decreases |log|
  {
    if |log| > 0 {
      var n := |log| - 1;
      assert Mapped(codes, log)[..n] == Mapped(codes, log[..n]);
      DownMapped(codes, log[..n], k);
    }
  }

  /** Presses and releases alternate for every kernel code, in all runs, exactly
      when no two keys share a code.  The server's table does let keys share
      one (both names of the left control key, for instance). */
  lemma AlternationPerCode(codes: map<KeyId, int>)
    ensures (forall log: seq<KeyAction> :: Legal(codes, log) ==> Alternates(Mapped(codes, log))) <==> Injective(codes)
  {
    if Injective(codes) {
      forall log: seq<KeyAction> | Legal(codes, log) ensures Alternates(Mapped(codes, log)) {
        var m := Mapped(codes, log);
        forall i | 0 <= i < |m| ensures m[i].down == !Down(m[..i], m[i].key) {
          assert m[..i] == Mapped(codes, log[..i]);
          DownMapped(codes, log[..i], log[i].key);
        }
      }
    } else {
      var a, b :| a in codes && b in codes && codes[a] == codes[b] && a != b;
      var log := [KeyAction(a, true), KeyAction(b, true)];
      assert log[..0] == [] && log[..1] == [KeyAction(a, true)];
      assert Legal(codes, log);
      var m := Mapped(codes, log);
      assert m[..1] == [KeyAction(codes[a], true)];
      assert m[1].down && Down(m[..1], m[1].key);
      assert !Alternates(m);
    }
  }
}
