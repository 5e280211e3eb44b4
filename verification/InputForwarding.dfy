/** Forwarding a viewer window's input to the session: which keys the session holds
  * down, and one touch sharing the pointer with the mouse.
  */
module InputForwarding {
  import opened Options

  const BTN_LEFT: nat := 0x110
  const BTN_RIGHT: nat := 0x111
  const BTN_MIDDLE: nat := 0x112
  const AXIS_VERTICAL: nat := 0
  const AXIS_HORIZONTAL: nat := 1
  const U32_MAX: nat := 0xFFFF_FFFF

  type Position = (real, real)

  datatype Op =
    | Motion(x: real, y: real)
    | Button(code: nat, state: nat)
    | Axis(axis: nat, value: real)
    | Key(code: nat, state: nat)

  datatype ClipChord = Copy | Paste

  /** What handling an event does, in order: operations sent to the session, and clipboard handoffs. */
  datatype Effect = Send(op: Op) | Handoff(chord: ClipChord)

  datatype Phase = Started | Moved | Ended | Cancelled

  datatype MouseButton = Left | Right | Middle | OtherButton

  /** A window event. `evdev` is None for a key without a code in the session;
    * wheel distances are already in session units.
    */
  datatype Event =
    | FocusGained
    | FocusLost
    | Touch(id: nat, phase: Phase, location: Position)
    | CursorMoved(position: Position)
    | MouseInput(pressed: bool, button: MouseButton)
    | MouseWheel(dx: real, dy: real)
    | KeyboardInput(evdev: Option<nat>, down: bool, repeat: bool)
    | OtherEvent

  datatype Window = Window(width: nat, height: nat, virtualWidth: nat, virtualHeight: nat)

  datatype Input = Input(
    lastPos: Option<Position>,
    heldButtons: nat,
    activeTouch: Option<nat>,
    heldKeys: set<nat>,
    bridged: bool)

  function MapToVirtual(at: Position, window: Window): Option<Position> {
    if window.width == 0 || window.height == 0 then None
    else Some((Scaled(at.0, window.virtualWidth as real, window.width as real),
               Scaled(at.1, window.virtualHeight as real, window.height as real)))
  }

  function Scaled(at: real, numerator: real, denominator: real): real
    requires denominator > 0.0
  {
    at * numerator / denominator
  }

  function MotionTo(at: Option<Position>): seq<Effect> {
    if at.Some? then [Send(Motion(at.value.0, at.value.1))] else []
  }

  const ALT_AND_META: set<nat> := {56, 100, 125, 126}
  const CTRL: set<nat> := {29, 97}
  const SHIFT: set<nat> := {42, 54}
  const KEY_C: nat := 46
  const KEY_X: nat := 45
  const KEY_V: nat := 47
  const KEY_INSERT: nat := 110
  const KEY_DELETE: nat := 111

  /** The standard copy, cut or paste shortcut pressed, if any. `held` includes `code`. */
  function ClipboardChord(code: nat, held: set<nat>): Option<ClipChord> {
    if held * ALT_AND_META != {} then None
    else
      var ctrl, shift := held * CTRL != {}, held * SHIFT != {};
      if (ctrl && code in {KEY_C, KEY_X, KEY_INSERT}) || (!ctrl && shift && code == KEY_DELETE) then Some(Copy)
      else if (ctrl && code == KEY_V) || (!ctrl && shift && code == KEY_INSERT) then Some(Paste)
      else None
  }

  /** First presses and releases only: the session makes its own repeats. */
  function KeyOp(evdev: nat, down: bool, repeat: bool): seq<Effect> {
    if repeat then [] else [Send(Key(evdev, if down then 1 else 0))]
  }

  /** Each key of `keys` is released exactly once, in some order. */
  ghost predicate ReleasesOf(effects: seq<Effect>, keys: set<nat>) {
    && |effects| == |keys|
    && (forall e :: e in effects ==> e.Send? && e.op.Key? && e.op.state == 0 && e.op.code in keys)
    && (forall k :: k in keys ==> Send(Key(k, 0)) in effects)
  }

  function TouchStep(s: Input, window: Window, id: nat, phase: Phase, location: Position): (Input, seq<Effect>) {
    var begins := phase == Started && s.activeTouch.None? && s.heldButtons == 0;
    var mapped := MapToVirtual(location, window);
    if begins && mapped.None? then (s, [])
    else if !begins && s.activeTouch != Some(id) then (s, [])
    else
      var moves := phase != Cancelled && mapped.Some?;
      var moved := s.(lastPos := if moves then Some(location) else s.lastPos);
      var motion := if moves then MotionTo(mapped) else [];
      if begins then (moved.(activeTouch := Some(id)), motion + [Send(Button(BTN_LEFT, 1))])
      else if phase == Ended || phase == Cancelled then
        (moved.(activeTouch := None), motion + [Send(Button(BTN_LEFT, 0))])
      else (moved, motion)
  }

  function CodeOf(button: MouseButton): nat {
    match button case Left => BTN_LEFT case Right => BTN_RIGHT case _ => BTN_MIDDLE
  }

  function MouseStep(s: Input, window: Window, pressed: bool, button: MouseButton): (Input, seq<Effect>) {
    if s.activeTouch.Some? || button == OtherButton then (s, [])
    else
      var code := CodeOf(button);
      if pressed then
        (s.(heldButtons := if s.heldButtons < U32_MAX then s.heldButtons + 1 else U32_MAX),
         (if s.lastPos.Some? then MotionTo(MapToVirtual(s.lastPos.value, window)) else []) + [Send(Button(code, 1))])
      else (s.(heldButtons := if s.heldButtons > 0 then s.heldButtons - 1 else 0), [Send(Button(code, 0))])
  }

  function KeyStep(s: Input, evdev: Option<nat>, down: bool, repeat: bool): (Input, seq<Effect>) {
    if evdev.None? then (s, [])
    else
      var code := evdev.value;
      var op := KeyOp(code, down, repeat);
      if down then
        var held := s.heldKeys + {code};
        var chord := ClipboardChord(code, held);
        (s.(heldKeys := held),
         (if code !in s.heldKeys && chord.Some? && s.bridged then [Handoff(chord.value)] else []) + op)
      else (s.(heldKeys := s.heldKeys - {code}), op)
  }

  /** What one event may do. Only focus loss leaves a choice: the order of the releases. */
  ghost predicate Handles(s: Input, window: Window, event: Event, t: Input, effects: seq<Effect>) {
    match event
    case FocusLost =>
      && t == s.(activeTouch := None, heldKeys := {})
      && var lifted: seq<Effect> := if s.activeTouch.Some? then [Send(Button(BTN_LEFT, 0))] else [];
         lifted <= effects && ReleasesOf(effects[|lifted|..], s.heldKeys)
    case Touch(id, phase, location) => (t, effects) == TouchStep(s, window, id, phase, location)
    case CursorMoved(position) =>
      && t == s.(lastPos := Some(position))
      && effects == if s.heldButtons == 0 then [] else MotionTo(MapToVirtual(position, window))
    case MouseInput(pressed, button) => (t, effects) == MouseStep(s, window, pressed, button)
    case MouseWheel(dx, dy) => t == s && effects == WheelEffects(dx, dy)
    case KeyboardInput(evdev, down, repeat) => (t, effects) == KeyStep(s, evdev, down, repeat)
    case _ => t == s && effects == []
  }

  class InputState {
    var lastPos: Option<Position>
    var heldButtons: nat
    var activeTouch: Option<nat>
    var heldKeys: set<nat>
    const bridged: bool
    var done: seq<Effect>

    constructor (bridged: bool)
      ensures View() == Input(None, 0, None, {}, bridged) && done == []
    {
      lastPos, heldButtons, activeTouch, heldKeys, done := None, 0, None, {}, [];
      this.bridged := bridged;
    }

    ghost function View(): Input
      reads this
    {
      Input(lastPos, heldButtons, activeTouch, heldKeys, bridged)
    }

    method ForwardInput(event: Event, window: Window)
      modifies this
      ensures old(done) <= done && Handles(old(View()), window, event, View(), done[|old(done)|..])
    {
      match event
      case FocusLost => LoseFocus(window);
      case Touch(id, phase, location) => ForwardTouch(id, phase, location, window);
      case CursorMoved(position) =>
        lastPos := Some(position);
        if heldButtons != 0 {
          done := done + MotionTo(MapToVirtual(position, window));
        }
      case MouseInput(pressed, button) => ForwardButton(pressed, button, window);
      case MouseWheel(dx, dy) => ForwardWheel(dx, dy);
      case KeyboardInput(evdev, down, repeat) => ForwardKey(evdev, down, repeat);
      case _ =>
    }

    method ForwardTouch(id: nat, phase: Phase, location: Position, window: Window)
      modifies this
      ensures (View(), done) == Appended(TouchStep(old(View()), window, id, phase, location), old(done))
    {
      assert done + [] == done;
      var begin := phase == Started && activeTouch.None? && heldButtons == 0;
      var mapped := MapToVirtual(location, window);
      if begin {
        if mapped.None? {
          return;
        }
        activeTouch := Some(id);
      }
      if activeTouch != Some(id) {
        return;
      }
      if phase != Cancelled && mapped.Some? {
        lastPos := Some(location);
        done := done + [Send(Motion(mapped.value.0, mapped.value.1))];
      }
      if begin {
        done := done + [Send(Button(BTN_LEFT, 1))];
      } else if phase == Ended || phase == Cancelled {
        done := done + [Send(Button(BTN_LEFT, 0))];
        activeTouch := None;
      }
      assert done == old(done) + TouchStep(old(View()), window, id, phase, location).1;
    }

    method ForwardButton(pressed: bool, button: MouseButton, window: Window)
      modifies this
      ensures (View(), done) == Appended(MouseStep(old(View()), window, pressed, button), old(done))
    {
      assert done + [] == done;
      if activeTouch.Some? || button == OtherButton {
        return;
      }
      var code := CodeOf(button);
      if pressed {
        if lastPos.Some? {
          done := done + MotionTo(MapToVirtual(lastPos.value, window));
        }
        heldButtons := if heldButtons < U32_MAX then heldButtons + 1 else U32_MAX;
      } else {
        heldButtons := if heldButtons > 0 then heldButtons - 1 else 0;
      }
      done := done + [Send(Button(code, if pressed then 1 else 0))];
      assert done == old(done) + MouseStep(old(View()), window, pressed, button).1;
    }

    method ForwardWheel(dx: real, dy: real)
      modifies this`done
      ensures done == old(done) + WheelEffects(dx, dy)
    {
      if dy != 0.0 {
        done := done + [Send(Axis(AXIS_VERTICAL, -dy))];
      }
      if dx != 0.0 {
        done := done + [Send(Axis(AXIS_HORIZONTAL, -dx))];
      }
    }

    method ForwardKey(evdev: Option<nat>, down: bool, repeat: bool)
      modifies this
      ensures (View(), done) == Appended(KeyStep(old(View()), evdev, down, repeat), old(done))
    {
      assert done + [] == done;
      if evdev.None? {
        return;
      }
      var code := evdev.value;
      if down {
        var firstPress := code !in heldKeys;
        heldKeys := heldKeys + {code};
        if firstPress && bridged {
          var chord := ClipboardChord(code, heldKeys);
          if chord.Some? {
            done := done + [Handoff(chord.value)];
          }
        }
      } else {
        heldKeys := heldKeys - {code};
      }
      done := done + KeyOp(code, down, repeat);
      assert done == old(done) + KeyStep(old(View()), evdev, down, repeat).1;
    }

    /** Lift an active touch and release every held key. */
    method LoseFocus(window: Window)
      modifies this
      ensures old(done) <= done && Handles(old(View()), window, FocusLost, View(), done[|old(done)|..])
    {
      ghost var lifted: seq<Effect> := if activeTouch.Some? then [Send(Button(BTN_LEFT, 0))] else [];
      assert done + [] == done;
      if activeTouch.Some? {
        activeTouch := None;
        done := done + [Send(Button(BTN_LEFT, 0))];
      }
      ghost var releases := ReleaseKeys();
      heldKeys := {};
      assert done[|old(done)|..] == lifted + releases && (lifted + releases)[|lifted|..] == releases;
    }

    method ReleaseKeys() returns (ghost releases: seq<Effect>)
      modifies this`done
      ensures done == old(done) + releases && ReleasesOf(releases, heldKeys)
    {
      var unreleased := heldKeys;
      releases := [];
      assert done + releases == done;
      while unreleased != {}
        invariant unreleased <= heldKeys
        invariant done == old(done) + releases
        invariant ReleasesOf(releases, heldKeys - unreleased)
      {
        var code :| code in unreleased;
        OneMoreRelease(releases, heldKeys - unreleased, code);
        assert old(done) + (releases + [Send(Key(code, 0))]) == (old(done) + releases) + [Send(Key(code, 0))];
        done := done + [Send(Key(code, 0))];
        releases := releases + [Send(Key(code, 0))];
        assert heldKeys - (unreleased - {code}) == (heldKeys - unreleased) + {code};
        unreleased := unreleased - {code};
      }
      assert heldKeys - unreleased == heldKeys;
    }
  }

  lemma OneMoreRelease(releases: seq<Effect>, keys: set<nat>, code: nat)
    requires ReleasesOf(releases, keys) && code !in keys
    ensures ReleasesOf(releases + [Send(Key(code, 0))], keys + {code})
  {
    var more := releases + [Send(Key(code, 0))];
    forall k | k in keys + {code}
      ensures Send(Key(k, 0)) in more
    {
      if k == code {
        assert more[|releases|] == Send(Key(code, 0));
      }
    }
  }

  /** A step's new state, and its effects after what was done before. */
  function Appended(step: (Input, seq<Effect>), done: seq<Effect>): (Input, seq<Effect>) {
    (step.0, done + step.1)
  }

  function WheelEffects(dx: real, dy: real): seq<Effect> {
    (if dy != 0.0 then [Send(Axis(AXIS_VERTICAL, -dy))] else []) +
    (if dx != 0.0 then [Send(Axis(AXIS_HORIZONTAL, -dx))] else [])
  }
}
