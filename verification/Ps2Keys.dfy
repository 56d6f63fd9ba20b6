/** The scan-code state machine of the PS/2 keyboard driver: bytes in, key
    events with modifier flags out. */
module Ps2Keys {
  import opened Bits

  const PRINT_SCREEN: int := 0xe012
  const PAUSE: int := 0xe013

  datatype Mods = Mods(ctrl: bool, shift: bool, alt: bool, num: bool, caps: bool, scroll: bool)

  datatype KeyEvent = KeyEvent(code: int, released: bool, mods: Mods)

  predicate IsCtrl(k: int) { k == 0x14 || k == 0xe014 }
  predicate IsShift(k: int) { k == 0x12 || k == 0x59 }
  predicate IsAlt(k: int) { k == 0x11 || k == 0xe011 }
  predicate IsModifier(k: int)
  {
    IsCtrl(k) || IsShift(k) || IsAlt(k) || k == 0x77 || k == 0x58 || k == 0x7e
  }

  /** A held modifier: follows the key, or toggles on release when sticky. */
  function Held(on: bool, release: bool, sticky: bool): bool
  {
    if sticky then (if release then !on else on) else !release
  }

  /** What a modifier key does to the flags. */
  function Apply(m: Mods, k: int, release: bool, sticky: bool): Mods
  {
    if IsCtrl(k) then m.(ctrl := Held(m.ctrl, release, sticky))
    else if IsShift(k) then m.(shift := Held(m.shift, release, sticky))
    else if IsAlt(k) then m.(alt := Held(m.alt, release, sticky))
    else if k == 0x77 then m.(num := m.num != release)
    else if k == 0x58 then m.(caps := m.caps != release)
    else if k == 0x7e then m.(scroll := m.scroll != release)
    else m
  }

  // ----- the driver -----

  /** The bytes of a key code are not complete yet. */
  predicate Partial(stack: int)
  {
    || stack == 0xe012 || stack == 0xe07c
    || stack == 0xe114 || stack == 0xe11477 || stack == 0xe11477e114
  }

  /** Multi-byte sequences with a key code of their own. */
  function Translate(stack: int): int
  {
    if stack == 0xe012e07c || stack == 0xe07ce012 then PRINT_SCREEN
    else if stack == 0xe11477e11477 then PAUSE
    else stack
  }

  datatype State = State(mods: Mods, release: bool, stack: int)

  /** One byte: the new state and the event it completes, if any. */
  function Step(s: State, b: Byte, sticky: bool): (State, seq<KeyEvent>)
  {
    if b == 0xf0 then (s.(release := true), []) else
    var stack := (s.stack * 256 + b) % 0x1_0000_0000_0000_0000;
    if b >= 0x90 || Partial(stack) then (s.(stack := stack), [])
    else if IsModifier(stack) then (State(Apply(s.mods, stack, s.release, sticky), false, 0), [])
    else (State(s.mods, false, 0), [KeyEvent(Translate(stack), s.release, s.mods)])
  }

  class Driver {
    var mods: Mods
    var release: bool
    var stack: int
    var sticky: bool
    var events: seq<KeyEvent>

    ghost function Abstract(): State
      reads this
    {
      State(mods, release, stack)
    }

    constructor ()
      ensures Abstract() == State(Mods(false, false, false, false, false, false), false, 0)
      ensures !sticky && events == []
    {
      mods, release, stack, sticky := Mods(false, false, false, false, false, false), false, 0, false;
      events := [];
    }

    method SetStickyKeys(enable: bool)
      modifies `sticky
      ensures sticky == enable
    {
      sticky := enable;
    }

    /** One byte from the keyboard: stack it, wait for more, set a flag or report a
        key. */
    method ProcessMessage(b: Byte)
      modifies `mods, `release, `stack, `events
      ensures var (s, es) := Step(old(Abstract()), b, sticky);
              Abstract() == s && events == old(events) + es
    {
      hide Partial, Translate;
      if b == 0xf0 {
        release := true;
        return;
      }
      stack := (stack * 256 + b) % 0x1_0000_0000_0000_0000;
      if b >= 0x90 {
        return;
      }
      if Partial(stack) {
        return;
      }
      if IsCtrl(stack) {
        var on := mods.ctrl;
        if sticky {
          if release {
            on := !on;
          }
        } else {
          on := !release;
        }
        mods := mods.(ctrl := on);
        stack, release := 0, false;
        return;
      }
      if IsShift(stack) {
        var on := mods.shift;
        if sticky {
          if release {
            on := !on;
          }
        } else {
          on := !release;
        }
        mods := mods.(shift := on);
        stack, release := 0, false;
        return;
      }
      if IsAlt(stack) {
        var on := mods.alt;
        if sticky {
          if release {
            on := !on;
          }
        } else {
          on := !release;
        }
        mods := mods.(alt := on);
        stack, release := 0, false;
        return;
      }
      if stack == 0x77 {
        if release {
          mods := mods.(num := !mods.num);
        }
        stack, release := 0, false;
        return;
      }
      if stack == 0x58 {
        if release {
          mods := mods.(caps := !mods.caps);
        }
        stack, release := 0, false;
        return;
      }
      if stack == 0x7e {
        if release {
          mods := mods.(scroll := !mods.scroll);
        }
        stack, release := 0, false;
        return;
      }
      var code := Translate(stack);
      events := events + [KeyEvent(code, release, mods)];
      stack, release := 0, false;
    }
  }

  // ----- streams of keys -----

  /** What a user does, and the bytes a scan-code-set-2 keyboard sends for it. */
  datatype Action =
    | Plain(code: Byte, up: bool)
    | Extended(code: Byte, up: bool)
    | PrintScreen(up: bool)
    | Pause

  /** Codes below the prefixes; the two halves of Print Screen are not keys. */
  predicate Ordinary(a: Action)
  {
    match a
    case Plain(c, _) => c < 0x90
    case Extended(c, _) => c < 0x90 && c != 0x12 && c != 0x7c
    case PrintScreen(_) => true
    case Pause => true
  }

  function Wire(a: Action): seq<Byte>
  {
    match a
    case Plain(c, up) => if up then [0xf0, c] else [c]
    case Extended(c, up) => if up then [0xe0, 0xf0, c] else [0xe0, c]
    case PrintScreen(up) => if up then [0xe0, 0xf0, 0x7c, 0xe0, 0xf0, 0x12] else [0xe0, 0x12, 0xe0, 0x7c]
    case Pause => [0xe1, 0x14, 0x77, 0xe1, 0xf0, 0x14, 0xf0, 0x77]
  }

  function CodeOf(a: Action): int
  {
    match a
    case Plain(c, _) => c
    case Extended(c, _) => 0xe000 + c
    case PrintScreen(_) => 0xe012
    case Pause => 0xe013
  }

  /** Whether the driver reports a release.  Pause has no break code of its own;
      its make sequence contains one, so it is reported as a release. */
  function Releases(a: Action): bool
  {
    match a
    case Plain(_, up) => up
    case Extended(_, up) => up
    case PrintScreen(up) => up
    case Pause => true
  }

  function IsModifierAction(a: Action): bool
  {
    (a.Plain? || a.Extended?) && IsModifier(CodeOf(a))
  }

  /** Modifier flags after a list of actions: a fold over the modifier keys. */
  function ModsAfter(m: Mods, acts: seq<Action>, sticky: bool): Mods
    decreases |acts|
  {
    if |acts| == 0 then m
    else ModsAfter(if IsModifierAction(acts[0]) then Apply(m, CodeOf(acts[0]), Releases(acts[0]), sticky) else m, acts[1..], sticky)
  }

  /** One event for every action that is not a modifier, with the flags that
      the earlier modifier actions left. */
  function Expected(m: Mods, acts: seq<Action>, sticky: bool): seq<KeyEvent>
    decreases |acts|
  {
    if |acts| == 0 then []
    else if IsModifierAction(acts[0]) then Expected(Apply(m, CodeOf(acts[0]), Releases(acts[0]), sticky), acts[1..], sticky)
    else [KeyEvent(CodeOf(acts[0]), Releases(acts[0]), m)] + Expected(m, acts[1..], sticky)
  }

  function Run(s: State, bytes: seq<Byte>, sticky: bool): (State, seq<KeyEvent>)
    decreases |bytes|
  {
    if |bytes| == 0 then (s, []) else
    var (s', e) := Step(s, bytes[0], sticky);
    var (end, es) := Run(s', bytes[1..], sticky);
    (end, e + es)
  }

  lemma {:induction false} RunConcat(s: State, a: seq<Byte>, b: seq<Byte>, sticky: bool)
    ensures var (s', e) := Run(s, a, sticky);
            var (end, es) := Run(s', b, sticky);
            Run(s, a + b, sticky) == (end, e + es)
    decreases |a|
  {
    hide Step;
    if |a| == 0 {
      assert a + b == b;
      assert [] + Run(s, b, sticky).1 == Run(s, b, sticky).1;
    } else {
      var (s1, e1) := Step(s, a[0], sticky);
      assert (a + b)[1..] == a[1..] + b;
      RunConcat(s1, a[1..], b, sticky);
      var (s', e) := Run(s1, a[1..], sticky);
      var (end, es) := Run(s', b, sticky);
      assert e1 + (e + es) == e1 + e + es;
    }
  }

  function Bytes(acts: seq<Action>): seq<Byte>
    decreases |acts|
  {
    if |acts| == 0 then [] else Wire(acts[0]) + Bytes(acts[1..])
  }

  /** A byte that completes nothing only moves the state. */
  lemma RunQuiet(s: State, b: Byte, rest: seq<Byte>, sticky: bool)
    requires Step(s, b, sticky).1 == []
    ensures Run(s, [b] + rest, sticky) == Run(Step(s, b, sticky).0, rest, sticky)
  {
    hide Step;
    assert ([b] + rest)[1..] == rest;
    var t := Run(Step(s, b, sticky).0, rest, sticky);
    assert [] + t.1 == t.1;
  }

  lemma RunLast(s: State, b: Byte, sticky: bool)
    ensures Run(s, [b], sticky) == Step(s, b, sticky)
  {
    hide Step;
    assert [b][1..] == [];
    var e := Step(s, b, sticky).1;
    assert e + [] == e;
  }

  /** A prefix byte is stacked, the break prefix only sets the flag. */
  lemma Prefix(m: Mods, r: bool, stack: nat, b: Byte, sticky: bool)
    requires b >= 0x90 && stack < 0x100_0000_0000
    ensures Step(State(m, r, stack), b, sticky) ==
              (if b == 0xf0 then State(m, true, stack) else State(m, r, stack * 256 + b), [])
  {
    hide Partial, IsModifier, Translate;
  }

  lemma Stacked(m: Mods, r: bool, stack: nat, b: Byte, sticky: bool)
    requires b < 0x90 && stack < 0x100_0000_0000 && Partial(stack * 256 + b)
    ensures Step(State(m, r, stack), b, sticky) == (State(m, r, stack * 256 + b), [])
  {
    hide IsModifier, Translate;
  }

  lemma Completes(m: Mods, r: bool, stack: nat, b: Byte, sticky: bool)
    requires b < 0x90 && stack < 0x100_0000_0000
    requires var k := stack * 256 + b; !Partial(k) && !IsModifier(k)
    ensures Step(State(m, r, stack), b, sticky) ==
              (State(m, false, 0), [KeyEvent(Translate(stack * 256 + b), r, m)])
  {
    hide Partial, IsModifier, Translate, Apply;
  }

  /** The end of a one- or two-byte code. */
  lemma ShortEnd(m: Mods, c: Byte, ext: bool, up: bool, sticky: bool)
    requires var a := if ext then Extended(c, up) else Plain(c, up); Ordinary(a)
    ensures var a := if ext then Extended(c, up) else Plain(c, up);
            Step(State(m, up, if ext then 0xe0 else 0), c, sticky) ==
              (State(ModsAfter(m, [a], sticky), false, 0), Expected(m, [a], sticky))
  {
    hide Apply, IsModifier;
    var a := if ext then Extended(c, up) else Plain(c, up);
    assert [a][1..] == [];
    assert [KeyEvent(CodeOf(a), Releases(a), m)] + [] == [KeyEvent(CodeOf(a), Releases(a), m)];
  }

  lemma ShortRun(m: Mods, c: Byte, ext: bool, up: bool, sticky: bool)
    requires var a := if ext then Extended(c, up) else Plain(c, up); Ordinary(a)
    ensures var a := if ext then Extended(c, up) else Plain(c, up);
            Run(State(m, false, 0), Wire(a), sticky) ==
              (State(ModsAfter(m, [a], sticky), false, 0), Expected(m, [a], sticky))
  {
    hide Step, Run, Apply, IsModifier, ModsAfter, Expected, Ordinary;
    var a := if ext then Extended(c, up) else Plain(c, up);
    ShortEnd(m, c, ext, up, sticky);
    var stack := if ext then 0xe0 else 0;
    RunLast(State(m, up, stack), c, sticky);
    if up {
      Prefix(m, false, stack, 0xf0, sticky);
      RunQuiet(State(m, false, stack), 0xf0, [c], sticky);
      assert [0xf0] + [c] == [0xf0, c];
    }
    if ext {
      Prefix(m, false, 0, 0xe0, sticky);
      var rest := if up then [0xf0, c] else [c];
      RunQuiet(State(m, false, 0), 0xe0, rest, sticky);
      assert [0xe0] + rest == Wire(a);
    }
  }

  lemma PrintScreenRun(m: Mods, up: bool, sticky: bool)
    ensures Run(State(m, false, 0), Wire(PrintScreen(up)), sticky) == (State(m, false, 0), [KeyEvent(PRINT_SCREEN, up, m)])
  {
    hide Step, Run, Apply;
    var w := Wire(PrintScreen(up));
    var first, second := if up then 0x7c else 0x12, if up then 0x12 else 0x7c;
    var half := if up then 0xe07c else 0xe012;
    Prefix(m, false, 0, 0xe0, sticky);
    Prefix(m, false, 0xe0, 0xf0, sticky);
    Stacked(m, up, 0xe0, first, sticky);
    Prefix(m, up, half, 0xe0, sticky);
    Prefix(m, up, half * 256 + 0xe0, 0xf0, sticky);
    Completes(m, up, half * 256 + 0xe0, second, sticky);
    RunLast(State(m, up, half * 256 + 0xe0), second, sticky);
    PrintScreenGlue(State(m, false, 0), State(m, false, 0xe0), State(m, up, 0xe0), State(m, up, half),
                    State(m, up, half * 256 + 0xe0), up, sticky);
  }

  lemma PrintScreenGlue(s: State, s1: State, s2: State, s3: State, s4: State, up: bool, sticky: bool)
    requires Step(s, 0xe0, sticky) == (s1, [])
    requires if up then Step(s1, 0xf0, sticky) == (s2, []) else s1 == s2
    requires Step(s2, if up then 0x7c else 0x12, sticky) == (s3, [])
    requires Step(s3, 0xe0, sticky) == (s4, [])
    requires up ==> Step(s4, 0xf0, sticky) == (s4, [])
    ensures Run(s, Wire(PrintScreen(up)), sticky) == Run(s4, [if up then 0x12 else 0x7c], sticky)
  {
    hide Step, Run;
    var w := Wire(PrintScreen(up));
    assert [w[0]] + w[1..] == w;
    RunQuiet(s, w[0], w[1..], sticky);
    assert [w[1]] + w[2..] == w[1..];
    RunQuiet(s1, w[1], w[2..], sticky);
    assert [w[2]] + w[3..] == w[2..];
    if up {
      RunQuiet(s2, w[2], w[3..], sticky);
      assert [w[3]] + w[4..] == w[3..];
      RunQuiet(s3, w[3], w[4..], sticky);
      assert [w[4]] + w[5..] == w[4..];
      RunQuiet(s4, w[4], w[5..], sticky);
      assert w[5..] == [0x12];
    } else {
      RunQuiet(s3, w[2], w[3..], sticky);
      assert w[3..] == [0x7c];
    }
  }

  lemma PauseRun(m: Mods, sticky: bool)
    ensures Run(State(m, false, 0), Wire(Pause), sticky) == (State(m, false, 0), [KeyEvent(PAUSE, true, m)])
  {
    hide Step, Run, Apply;
    Prefix(m, false, 0, 0xe1, sticky);
    Stacked(m, false, 0xe1, 0x14, sticky);
    Stacked(m, false, 0xe114, 0x77, sticky);
    Prefix(m, false, 0xe11477, 0xe1, sticky);
    Prefix(m, false, 0xe11477e1, 0xf0, sticky);
    Stacked(m, true, 0xe11477e1, 0x14, sticky);
    Prefix(m, true, 0xe11477e114, 0xf0, sticky);
    Completes(m, true, 0xe11477e114, 0x77, sticky);
    var w := Wire(Pause);
    assert [w[0]] + w[1..] == w;
    RunQuiet(State(m, false, 0), w[0], w[1..], sticky);
    assert [w[1]] + w[2..] == w[1..];
    RunQuiet(State(m, false, 0xe1), w[1], w[2..], sticky);
    assert [w[2]] + w[3..] == w[2..];
    RunQuiet(State(m, false, 0xe114), w[2], w[3..], sticky);
    assert [w[3]] + w[4..] == w[3..];
    RunQuiet(State(m, false, 0xe11477), w[3], w[4..], sticky);
    assert [w[4]] + w[5..] == w[4..];
    RunQuiet(State(m, false, 0xe11477e1), w[4], w[5..], sticky);
    assert [w[5]] + w[6..] == w[5..];
    RunQuiet(State(m, true, 0xe11477e1), w[5], w[6..], sticky);
    assert [w[6]] + w[7..] == w[6..];
    RunQuiet(State(m, true, 0xe11477e114), w[6], w[7..], sticky);
    assert w[7..] == [0x77];
    RunLast(State(m, true, 0xe11477e114), 0x77, sticky);
  }

  lemma AlwaysReported(m: Mods, a: Action, sticky: bool)
    requires !IsModifierAction(a)
    ensures ModsAfter(m, [a], sticky) == m && Expected(m, [a], sticky) == [KeyEvent(CodeOf(a), Releases(a), m)]
  {
    hide Apply, IsModifierAction, CodeOf, Releases;
    assert [a][1..] == [];
    assert Expected(m, [], sticky) == [];
  }

  /** One action from a resting driver: it rests again, the flags follow, and
      exactly the expected event comes out. */
  lemma OneAction(m: Mods, a: Action, sticky: bool)
    requires Ordinary(a)
    ensures Run(State(m, false, 0), Wire(a), sticky) == (State(ModsAfter(m, [a], sticky), false, 0), Expected(m, [a], sticky))
  {
    hide Apply, Run, IsModifier, Step, Wire, Ordinary;
    match a {
      case Plain(c, up) =>
        ShortRun(m, c, false, up, sticky);
      case Extended(c, up) =>
        ShortRun(m, c, true, up, sticky);
      case PrintScreen(up) =>
        AlwaysReported(m, a, sticky);
        PrintScreenRun(m, up, sticky);
      case Pause =>
        AlwaysReported(m, a, sticky);
        PauseRun(m, sticky);
    }
  }

  lemma FirstAction(m: Mods, acts: seq<Action>, sticky: bool)
    requires |acts| > 0
    ensures var m' := ModsAfter(m, acts[..1], sticky);
            && ModsAfter(m, acts, sticky) == ModsAfter(m', acts[1..], sticky)
            && Expected(m, acts, sticky) == Expected(m, acts[..1], sticky) + Expected(m', acts[1..], sticky)
  {
    hide Apply, IsModifierAction, CodeOf, Releases;
    var a := acts[..1];
    assert a[0] == acts[0] && a[1..] == [];
    var m1 := if IsModifierAction(a[0]) then Apply(m, CodeOf(a[0]), Releases(a[0]), sticky) else m;
    assert ModsAfter(m, a, sticky) == ModsAfter(m1, [], sticky) == m1;
    var e := Expected(m, a, sticky);
    assert Expected(m1, [], sticky) == [];
    if IsModifierAction(a[0]) {
      assert e == [];
      assert [] + Expected(m1, acts[1..], sticky) == Expected(m1, acts[1..], sticky);
    } else {
      assert e == [KeyEvent(CodeOf(a[0]), Releases(a[0]), m)] + [] == [KeyEvent(CodeOf(a[0]), Releases(a[0]), m)];
    }
  }

  /** Any stream of ordinary keys, Print Screen and Pause: one event for each
      key that is not a modifier, in order, with the flags of the modifier
      keys before it, and no byte left over. */
  lemma {:induction false} KeyStream(m: Mods, acts: seq<Action>, sticky: bool)
    requires forall i :: 0 <= i < |acts| ==> Ordinary(acts[i])
    ensures Run(State(m, false, 0), Bytes(acts), sticky) ==
              (State(ModsAfter(m, acts, sticky), false, 0), Expected(m, acts, sticky))
    decreases |acts|
  {
    hide Step, Ordinary, Wire, Apply, IsModifierAction, CodeOf, Releases, Run, ModsAfter, Expected;
    if |acts| == 0 {
      EmptyRun(m, acts, sticky);
    } else {
      var a, rest := acts[0], acts[1..];
      assert acts[..1] == [a];
      FirstAction(m, acts, sticky);
      OneAction(m, a, sticky);
      RunConcat(State(m, false, 0), Wire(a), Bytes(rest), sticky);
      KeyStream(ModsAfter(m, [a], sticky), rest, sticky);
    }
  }

  lemma EmptyRun(m: Mods, acts: seq<Action>, sticky: bool)
    requires |acts| == 0
    ensures Run(State(m, false, 0), Bytes(acts), sticky) ==
              (State(ModsAfter(m, acts, sticky), false, 0), Expected(m, acts, sticky))
  {
  }

  // ----- what the flags mean -----

  /** The modifier keys of the keyboard. */
  predicate CtrlKey(a: Action) { (a.Plain? || a.Extended?) && a.code == 0x14 }
  predicate AltKey(a: Action) { (a.Plain? || a.Extended?) && a.code == 0x11 }
  predicate ShiftKey(a: Action) { a.Plain? && (a.code == 0x12 || a.code == 0x59) }
  predicate NumKey(a: Action) { a.Plain? && a.code == 0x77 }
  predicate CapsKey(a: Action) { a.Plain? && a.code == 0x58 }
  predicate ScrollKey(a: Action) { a.Plain? && a.code == 0x7e }

  /** How often the key is released. */
  function Released(acts: seq<Action>, key: Action -> bool): nat
  {
    if |acts| == 0 then 0
    else Released(acts[..|acts| - 1], key) + if key(acts[|acts| - 1]) && Releases(acts[|acts| - 1]) then 1 else 0
  }

  /** The flag tells whether the key was pressed last; without any action on the key it
      is as before. */
  ghost predicate Follows(was: bool, now: bool, acts: seq<Action>, key: Action -> bool)
  {
    && ((forall i :: 0 <= i < |acts| ==> !key(acts[i])) ==> now == was)
    && forall i :: 0 <= i < |acts| && key(acts[i]) && (forall k :: i < k < |acts| ==> !key(acts[k])) ==> now == !Releases(acts[i])
  }

  /** The flag changes with every release of the key. */
  ghost predicate Toggles(was: bool, now: bool, acts: seq<Action>, key: Action -> bool)
  {
    now == if Released(acts, key) % 2 == 1 then !was else was
  }

  /** One more action. */
  lemma ModsStep(m: Mods, acts: seq<Action>, sticky: bool)
    requires |acts| > 0
    ensures var a, before := acts[|acts| - 1], ModsAfter(m, acts[..|acts| - 1], sticky);
            ModsAfter(m, acts, sticky) == if IsModifierAction(a) then Apply(before, CodeOf(a), Releases(a), sticky) else before
    decreases |acts|
  {
    hide Apply, IsModifierAction, CodeOf, Releases;
    if |acts| > 1 {
      var m1 := if IsModifierAction(acts[0]) then Apply(m, CodeOf(acts[0]), Releases(acts[0]), sticky) else m;
      ModsStep(m1, acts[1..], sticky);
      assert acts[1..][..|acts| - 2] == acts[..|acts| - 1][1..];
    } else {
      assert acts[1..] == [] && acts[..0] == [];
    }
  }

  predicate AnyModifier(a: Action)
  {
    CtrlKey(a) || ShiftKey(a) || AltKey(a) || NumKey(a) || CapsKey(a) || ScrollKey(a)
  }

  /** The flag of a key after one more action. */
  ghost predicate Moves(was: bool, now: bool, a: Action, key: bool, sticky: bool)
  {
    now == if !key then was else if sticky then was != Releases(a) else !Releases(a)
  }

  lemma OneCtrl(m: Mods, a: Action, sticky: bool)
    requires Ordinary(a)
    ensures var r := if IsModifierAction(a) then Apply(m, CodeOf(a), Releases(a), sticky) else m;
            Moves(m.ctrl, r.ctrl, a, CtrlKey(a), sticky) && Moves(m.num, r.num, a, NumKey(a), true)
  {
    hide Releases;
  }

  lemma OneShift(m: Mods, a: Action, sticky: bool)
    requires Ordinary(a)
    ensures var r := if IsModifierAction(a) then Apply(m, CodeOf(a), Releases(a), sticky) else m;
            Moves(m.shift, r.shift, a, ShiftKey(a), sticky) && Moves(m.caps, r.caps, a, CapsKey(a), true)
  {
    hide Releases;
  }

  lemma OneAlt(m: Mods, a: Action, sticky: bool)
    requires Ordinary(a)
    ensures var r := if IsModifierAction(a) then Apply(m, CodeOf(a), Releases(a), sticky) else m;
            Moves(m.alt, r.alt, a, AltKey(a), sticky) && Moves(m.scroll, r.scroll, a, ScrollKey(a), true)
  {
    hide Releases;
  }

  lemma FlagStep(was: bool, mid: bool, now: bool, acts: seq<Action>, key: Action -> bool, sticky: bool)
    requires |acts| > 0 && (if sticky then Toggles(was, mid, acts[..|acts| - 1], key) else Follows(was, mid, acts[..|acts| - 1], key))
    requires Moves(mid, now, acts[|acts| - 1], key(acts[|acts| - 1]), sticky)
    ensures if sticky then Toggles(was, now, acts, key) else Follows(was, now, acts, key)
  {
    hide Releases;
    var n := |acts| - 1;
    assert forall i :: 0 <= i < n ==> acts[..n][i] == acts[i];
  }

  ghost predicate HeldAre(m: Mods, r: Mods, acts: seq<Action>, sticky: bool)
  {
    if sticky then Toggles(m.ctrl, r.ctrl, acts, CtrlKey) && Toggles(m.shift, r.shift, acts, ShiftKey) && Toggles(m.alt, r.alt, acts, AltKey)
    else Follows(m.ctrl, r.ctrl, acts, CtrlKey) && Follows(m.shift, r.shift, acts, ShiftKey) && Follows(m.alt, r.alt, acts, AltKey)
  }

  ghost predicate LocksAre(m: Mods, r: Mods, acts: seq<Action>)
  {
    Toggles(m.num, r.num, acts, NumKey) && Toggles(m.caps, r.caps, acts, CapsKey) && Toggles(m.scroll, r.scroll, acts, ScrollKey)
  }

  lemma HeldStep(m: Mods, mid: Mods, r: Mods, acts: seq<Action>, sticky: bool)
    requires |acts| > 0 && Ordinary(acts[|acts| - 1]) && HeldAre(m, mid, acts[..|acts| - 1], sticky)
    requires var a := acts[|acts| - 1]; r == if IsModifierAction(a) then Apply(mid, CodeOf(a), Releases(a), sticky) else mid
    ensures HeldAre(m, r, acts, sticky)
  {
    hide Apply, IsModifierAction, CodeOf, Releases, Follows, Toggles, Moves, Ordinary, CtrlKey, ShiftKey, AltKey, NumKey, CapsKey, ScrollKey;
    var a := acts[|acts| - 1];
    OneCtrl(mid, a, sticky);
    OneShift(mid, a, sticky);
    OneAlt(mid, a, sticky);
    FlagStep(m.ctrl, mid.ctrl, r.ctrl, acts, CtrlKey, sticky);
    FlagStep(m.shift, mid.shift, r.shift, acts, ShiftKey, sticky);
    FlagStep(m.alt, mid.alt, r.alt, acts, AltKey, sticky);
  }

  lemma LocksStep(m: Mods, mid: Mods, r: Mods, acts: seq<Action>, sticky: bool)
    requires |acts| > 0 && Ordinary(acts[|acts| - 1]) && LocksAre(m, mid, acts[..|acts| - 1])
    requires var a := acts[|acts| - 1]; r == if IsModifierAction(a) then Apply(mid, CodeOf(a), Releases(a), sticky) else mid
    ensures LocksAre(m, r, acts)
  {
    hide Apply, IsModifierAction, CodeOf, Releases, Follows, Toggles, Moves, Ordinary, CtrlKey, ShiftKey, AltKey, NumKey, CapsKey, ScrollKey;
    var a := acts[|acts| - 1];
    OneCtrl(mid, a, sticky);
    OneShift(mid, a, sticky);
    OneAlt(mid, a, sticky);
    FlagStep(m.num, mid.num, r.num, acts, NumKey, true);
    FlagStep(m.caps, mid.caps, r.caps, acts, CapsKey, true);
    FlagStep(m.scroll, mid.scroll, r.scroll, acts, ScrollKey, true);
  }

  /** The flags after any actions.  Ctrl, Shift and Alt follow the last press or
      release of their keys; sticky ones, and the locks always, change with every
      release; no other key changes a flag. */
  lemma {:induction false} FlagsExactly(m: Mods, acts: seq<Action>, sticky: bool)
    requires forall i :: 0 <= i < |acts| ==> Ordinary(acts[i])
    ensures HeldAre(m, ModsAfter(m, acts, sticky), acts, sticky) && LocksAre(m, ModsAfter(m, acts, sticky), acts)
    decreases |acts|
  {
    hide Apply, IsModifierAction, CodeOf, Releases, ModsAfter, HeldAre, LocksAre, Ordinary;
    if |acts| == 0 {
      NoFlags(m, acts, sticky);
    } else {
      var before := acts[..|acts| - 1];
      FlagsExactly(m, before, sticky);
      ModsStep(m, acts, sticky);
      HeldStep(m, ModsAfter(m, before, sticky), ModsAfter(m, acts, sticky), acts, sticky);
      LocksStep(m, ModsAfter(m, before, sticky), ModsAfter(m, acts, sticky), acts, sticky);
    }
  }

  lemma NoFlags(m: Mods, acts: seq<Action>, sticky: bool)
    requires |acts| == 0
    ensures ModsAfter(m, acts, sticky) == m && HeldAre(m, m, acts, sticky) && LocksAre(m, m, acts)
  {
  }

  /** The events: none for a modifier; for any other action one, with its code and
      direction and the flags that the actions before it left. */
  lemma {:induction false} EventsExactly(m: Mods, acts: seq<Action>, sticky: bool, n: nat)
    requires (forall i :: 0 <= i < |acts| ==> Ordinary(acts[i])) && n < |acts|
    ensures Expected(m, acts, sticky) ==
              Expected(m, acts[..n], sticky)
              + (if AnyModifier(acts[n]) then [] else [KeyEvent(CodeOf(acts[n]), Releases(acts[n]), ModsAfter(m, acts[..n], sticky))])
              + Expected(ModsAfter(m, acts[..n + 1], sticky), acts[n + 1..], sticky)
    decreases n
  {
    hide Apply, IsModifierAction, CodeOf, Releases, Expected, ModsAfter, Ordinary, AnyModifier;
    FirstAction(m, acts, sticky);
    FirstAction(m, acts[..n + 1], sticky);
    assert acts[..n + 1][..1] == acts[..1];
    if n == 0 {
      assert acts[..1] == [acts[0]] && acts[..0] == [];
      OneEvent(m, acts[0], sticky);
      NothingExpected(m, sticky);
    } else {
      var m' := ModsAfter(m, acts[..1], sticky);
      EventsExactly(m', acts[1..], sticky, n - 1);
      assert acts[1..][..n - 1] == acts[..n][1..] && acts[..n][..1] == acts[..1] && acts[1..][n..] == acts[n + 1..];
      assert acts[1..][..n] == acts[..n + 1][1..];
      FirstAction(m, acts[..n], sticky);
    }
  }

  lemma OneEvent(m: Mods, a: Action, sticky: bool)
    requires Ordinary(a)
    ensures Expected(m, [a], sticky) == if AnyModifier(a) then [] else [KeyEvent(CodeOf(a), Releases(a), m)]
  {
    hide Apply, Releases;
    assert [a][1..] == [];
    if !AnyModifier(a) {
      AlwaysReported(m, a, sticky);
    }
  }

  lemma NothingExpected(m: Mods, sticky: bool)
    ensures Expected(m, [], sticky) == [] && ModsAfter(m, [], sticky) == m
  {
  }
}
