/** The input protocol on the serial line: what the host writes for an input
    event and how the kernel's interrupt handler reads it back. */
module UartProtocol {
  import opened Machine
  import opened Bits

  datatype Event =
    | Move(dx: int, dy: int)
    | Click(button: Byte, pressed: bool)
    | Scroll(dx: int, dy: int)
    | Key(code: int, pressed: bool)

  /** Events that the wire format has room for. */
  predicate Sendable(e: Event)
  {
    match e
    case Move(dx, dy) => -255 <= dx <= 255 && -255 <= dy <= 255
    case Click(_, _) => true
    case Scroll(dx, dy) => -255 <= dx <= 255 && -255 <= dy <= 255
    case Key(code, _) => 0 <= code < 65536
  }

  function Flag(b: bool, weight: nat): nat { if b then weight else 0 }

  // ----- host side -----

  function Header(kind: nat, bit4: bool, bit5: bool): Byte
    requires kind < 16
  {
    kind + Flag(bit4, 16) + Flag(bit5, 32)
  }

  function Encode(e: Event): seq<Byte>
    requires Sendable(e)
  {
    match e
    case Move(dx, dy) => [Header(1, dx < 0, dy < 0), Abs(dx), Abs(dy)]
    case Click(button, pressed) => [Header(2, pressed, false), button]
    case Scroll(dx, dy) => [Header(3, dx < 0, dy < 0), Abs(dx), Abs(dy)]
    case Key(code, pressed) => [Header(4, pressed, false), code % 256, code / 256]
  }

  function EncodeAll(es: seq<Event>): seq<Byte>
    requires forall i :: 0 <= i < |es| ==> Sendable(es[i])
  {
    if |es| == 0 then [] else Encode(es[0]) + EncodeAll(es[1..])
  }

  lemma {:induction false} EncodeAppend(es: seq<Event>, e: Event)
    requires (forall i :: 0 <= i < |es| ==> Sendable(es[i])) && Sendable(e)
    ensures EncodeAll(es + [e]) == EncodeAll(es) + Encode(e)
  {
    hide Encode;
    if |es| == 0 {
      assert es + [e] == [e];
      assert Encode(e) + [] == Encode(e);
    } else {
      EncodeAppend(es[1..], e);
      assert (es + [e])[1..] == es[1..] + [e];
    }
  }

  // ----- kernel side -----

  /** The outcome of one run of the handler on the bytes that will arrive. */
  datatype Outcome =
    | Idle                              // nothing to read
    | Got(event: Event, used: nat)
    | Dropped(used: nat)                // unknown kind: only the header is read
    | Blocked                           // waits for the rest of the event

  function Bit(header: Byte, weight: nat): bool
    requires weight > 0
  {
    header / weight % 2 == 1
  }

  function Signed(mag: int, negative: bool): int { if negative then -mag else mag }

  /** A little-endian 16-bit number. */
  function Word(low: int, high: int): int { low + 256 * high }

  function Handle(b: seq<Byte>): (r: Outcome)
    ensures r.Got? ==> 1 <= r.used <= |b|
    ensures r.Dropped? ==> r.used == 1 <= |b|
  {
    if |b| == 0 then Idle else
    var h := b[0];
    match h % 16
    case 1 => if |b| < 3 then Blocked else Got(Move(Signed(b[1], Bit(h, 16)), Signed(b[2], Bit(h, 32))), 3)
    case 2 => if |b| < 2 then Blocked else Got(Click(b[1], Bit(h, 16)), 2)
    case 3 => if |b| < 3 then Blocked else Got(Scroll(Signed(b[1], Bit(h, 16)), Signed(b[2], Bit(h, 32))), 3)
    case 4 => if |b| < 3 then Blocked else Got(Key(Word(b[1], b[2]), Bit(h, 16)), 3)
    case _ => Dropped(1)
  }

  /** The events of a byte stream and what is left when the handler stops. */
  function HandleAll(b: seq<Byte>): (seq<Event>, seq<Byte>)
    decreases |b|
  {
    match Handle(b)
    case Idle => ([], b)
    case Blocked => ([], b)
    case Dropped(n) => HandleAll(b[n..])
    case Got(e, n) => var (es, rest) := HandleAll(b[n..]); ([e] + es, rest)
  }

  lemma HeaderBits(kind: nat, bit4: bool, bit5: bool)
    requires 1 <= kind <= 4
    ensures Header(kind, bit4, bit5) % 16 == kind
    ensures Bit(Header(kind, bit4, bit5), 16) == bit4 && Bit(Header(kind, bit4, bit5), 32) == bit5
  {
  }

  /** One event survives the wire, whatever follows it, and is not taken for
      another one while it is incomplete. */
  lemma EventRoundTrip(e: Event, rest: seq<Byte>, n: nat)
    requires Sendable(e)
    ensures Handle(Encode(e) + rest) == Got(e, |Encode(e)|)
    ensures 0 < n < |Encode(e)| ==> Handle(Encode(e)[..n]) == Blocked
  {
    hide Header, Bit;
    match e {
      case Move(dx, dy) => HeaderBits(1, dx < 0, dy < 0);
      case Click(_, pressed) => HeaderBits(2, pressed, false);
      case Scroll(dx, dy) => HeaderBits(3, dx < 0, dy < 0);
      case Key(code, pressed) => HeaderBits(4, pressed, false);
    }
  }

  /** The handler gives back exactly the list of events that was written. */
  lemma {:induction false} StreamRoundTrip(es: seq<Event>)
    requires forall i :: 0 <= i < |es| ==> Sendable(es[i])
    ensures HandleAll(EncodeAll(es)) == (es, [])
  {
    hide Encode, Handle, Sendable;
    if |es| == 0 {
      assert Handle([]) == Idle by { EmptyIsIdle(); }
    } else {
      var first, rest := Encode(es[0]), EncodeAll(es[1..]);
      EventRoundTrip(es[0], rest, 0);
      assert (first + rest)[|first|..] == rest;
      StreamRoundTrip(es[1..]);
      assert [es[0]] + es[1..] == es;
    }
  }

  lemma EmptyIsIdle()
    ensures Handle([]) == Idle
  {
  }

  /** The interrupt handler, reading from the receive FIFO. */
  class Handler {
    var fifo: seq<Byte>
    var notified: seq<Event>

    constructor (bytes: seq<Byte>)
      ensures fifo == bytes && notified == []
    {
      fifo, notified := bytes, [];
    }

    method ReadOne() returns (b: Byte)
      requires |fifo| > 0
      modifies `fifo
      ensures b == old(fifo)[0] && fifo == old(fifo)[1..]
    {
      b := fifo[0];
      fifo := fifo[1..];
    }

    /** One interrupt.  Reading blocks until a byte is there, so the call
        needs the whole event to have been sent. */
    method OnIrq()
      requires !Handle(fifo).Blocked?
      modifies this
      ensures match old(Handle(fifo))
              case Idle => fifo == old(fifo) && notified == old(notified)
              case Got(e, n) => fifo == old(fifo)[n..] && notified == old(notified) + [e]
              case Dropped(n) => fifo == old(fifo)[n..] && notified == old(notified)
              case Blocked => true
    {
      if |fifo| == 0 {
        return;
      }
      var header := ReadOne();
      match header % 16 {
        case 1 =>
          var dxMag := ReadOne();
          var dyMag := ReadOne();
          var dx: int, dy: int := dxMag, dyMag;
          if Bit(header, 16) {
            dx := -dx;
          }
          if Bit(header, 32) {
            dy := -dy;
          }
          notified := notified + [Move(dx, dy)];
        case 2 =>
          var button := ReadOne();
          notified := notified + [Click(button, Bit(header, 16))];
        case 3 =>
          var dxMag := ReadOne();
          var dyMag := ReadOne();
          var dx: int, dy: int := dxMag, dyMag;
          if Bit(header, 16) {
            dx := -dx;
          }
          if Bit(header, 32) {
            dy := -dy;
          }
          notified := notified + [Scroll(dx, dy)];
        case 4 =>
          var low := ReadOne();
          var high := ReadOne();
          notified := notified + [Key(Word(low, high), Bit(header, 16))];
        case _ =>
      }
    }
  }
}
