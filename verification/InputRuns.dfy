/** What forwarding keeps over every run of window events. */
module InputRuns {
  import opened Options
  import opened InputForwarding

  /** One handled event, with the state after it and what it did. */
  datatype Handled = Handled(event: Event, window: Window, after: Input, effects: seq<Effect>)

  function Opened(bridged: bool): Input {
    Input(None, 0, None, {}, bridged)
  }

  function Last(start: Input, run: seq<Handled>): Input {
    if run == [] then start else run[|run| - 1].after
  }

  ghost predicate IsRun(start: Input, run: seq<Handled>) {
    run != [] ==>
      var n := |run| - 1;
      && IsRun(start, run[..n])
      && Handles(Last(start, run[..n]), run[n].window, run[n].event, run[n].after, run[n].effects)
  }

  // ----- keys

  /** The keys down in the session after some effects. */
  function Down(down: set<nat>, effects: seq<Effect>): set<nat> {
    if effects == [] then down
    else
      var before := Down(down, effects[..|effects| - 1]);
      match effects[|effects| - 1]
      case Send(Key(code, state)) => if state == 0 then before - {code} else before + {code}
      case _ => before
  }

  function DownIn(run: seq<Handled>): set<nat> {
    if run == [] then {} else Down(DownIn(run[..|run| - 1]), run[|run| - 1].effects)
  }

  /** A release marked as a repeat is not sent, although the session has the key down. */
  predicate Sticks(event: Event, down: set<nat>) {
    event.KeyboardInput? && !event.down && event.repeat && event.evdev.Some? && event.evdev.value in down
  }

  lemma {:induction false} DownAppends(down: set<nat>, a: seq<Effect>, b: seq<Effect>)
    ensures Down(down, a + b) == Down(Down(down, a), b)
  {
    if b == [] {
      assert a + b == a;
    } else {
      var n := |b| - 1;
      DownAppends(down, a, b[..n]);
      assert (a + b)[..|a + b| - 1] == a + b[..n];
    }
  }

  lemma {:induction false} NoKeyNoChange(down: set<nat>, effects: seq<Effect>)
    requires forall e :: e in effects ==> e.Handoff? || !e.op.Key?
    ensures Down(down, effects) == down
  {
    if effects != [] {
      var n := |effects| - 1;
      NoKeyNoChange(down, effects[..n]);
      assert effects[n] in effects;
    }
  }

  lemma {:induction false} ReleasesEmpty(down: set<nat>, effects: seq<Effect>)
    requires forall e :: e in effects ==> e.Send? && e.op.Key? && e.op.state == 0
    ensures Down(down, effects) == down - set e | e in effects && e.Send? && e.op.Key? :: e.op.code
  {
    if effects != [] {
      var n := |effects| - 1;
      ReleasesEmpty(down, effects[..n]);
      assert effects == effects[..n] + [effects[n]];
      assert effects[n] in effects;
    }
  }

  lemma FocusLossReleasesAll(s: Input, window: Window, t: Input, effects: seq<Effect>, down: set<nat>)
    requires Handles(s, window, FocusLost, t, effects) && down <= s.heldKeys
    ensures Down(down, effects) == {}
  {
    var lifted: seq<Effect> := if s.activeTouch.Some? then [Send(Button(BTN_LEFT, 0))] else [];
    var releases := effects[|lifted|..];
    assert effects == lifted + releases;
    NoKeyNoChange(down, lifted);
    DownAppends(down, lifted, releases);
    ReleasesEmpty(down, releases);
    forall k | k in down
      ensures k !in Down(down, effects)
    {
      assert Send(Key(k, 0)) in releases;
    }
  }

  lemma KeyEffects(s: Input, evdev: nat, pressed: bool, repeat: bool, down: set<nat>)
    ensures Down(down, KeyStep(s, Some(evdev), pressed, repeat).1) ==
      if repeat then down else if pressed then down + {evdev} else down - {evdev}
  {
    var effects := KeyStep(s, Some(evdev), pressed, repeat).1;
    var op := KeyOp(evdev, pressed, repeat);
    var handoff := effects[..|effects| - |op|];
    assert effects == handoff + op;
    NoKeyNoChange(down, handoff);
    DownAppends(down, handoff, op);
    assert Down(down, []) == down;
    if !repeat {
      assert op[..0] == [];
    }
  }

  /** One event keeps the session's keys among the tracked ones exactly when it is not a
    * repeated release of a key that is down.
    */
  lemma KeysStayTrackedExactlyWhen(s: Input, window: Window, event: Event, t: Input, effects: seq<Effect>,
                                   down: set<nat>)
    requires Handles(s, window, event, t, effects) && down <= s.heldKeys
    ensures Down(down, effects) <= t.heldKeys <==> !Sticks(event, down)
    ensures event.FocusLost? ==> Down(down, effects) == {}
  {
    match event
    case FocusLost => FocusLossReleasesAll(s, window, t, effects, down);
    case KeyboardInput(evdev, pressed, repeat) =>
      if evdev.Some? {
        KeyEffects(s, evdev.value, pressed, repeat, down);
      } else {
        assert Down(down, []) == down;
      }
    case _ => NoKeyNoChange(down, effects);
  }

  ghost predicate NoneSticks(run: seq<Handled>) {
    run != [] ==> NoneSticks(run[..|run| - 1]) && !Sticks(run[|run| - 1].event, DownIn(run[..|run| - 1]))
  }

  ghost predicate AlwaysTracked(start: Input, run: seq<Handled>) {
    && DownIn(run) <= Last(start, run).heldKeys
    && (run != [] ==> AlwaysTracked(start, run[..|run| - 1]))
  }

  /** The keys the session has down are among the tracked ones at every moment of a run
    * exactly when the run has no repeated release of a key that is down.
    */
  lemma {:induction false} NoStuckKeysExactlyWhen(bridged: bool, run: seq<Handled>)
    requires IsRun(Opened(bridged), run)
    ensures AlwaysTracked(Opened(bridged), run) <==> NoneSticks(run)
  {
    if run != [] {
      var n := |run| - 1;
      NoStuckKeysExactlyWhen(bridged, run[..n]);
      if NoneSticks(run[..n]) {
        KeysStayTrackedExactlyWhen(Last(Opened(bridged), run[..n]), run[n].window, run[n].event, run[n].after,
                                   run[n].effects, DownIn(run[..n]));
      }
    }
  }

  ghost predicate RepeatsArePresses(run: seq<Handled>) {
    forall i :: 0 <= i < |run| && run[i].event.KeyboardInput? && run[i].event.repeat ==> run[i].event.down
  }

  /** With repeats only for presses no key is ever lost, and none is down right after
    * the window loses focus.
    */
  lemma {:induction false} NoStuckKeys(bridged: bool, run: seq<Handled>)
    requires IsRun(Opened(bridged), run) && RepeatsArePresses(run)
    ensures DownIn(run) <= Last(Opened(bridged), run).heldKeys
    ensures run != [] && run[|run| - 1].event.FocusLost? ==> DownIn(run) == {}
  {
    if run != [] {
      var n := |run| - 1;
      NoStuckKeys(bridged, run[..n]);
      KeysStayTrackedExactlyWhen(Last(Opened(bridged), run[..n]), run[n].window, run[n].event, run[n].after,
                                 run[n].effects, DownIn(run[..n]));
    }
  }

  // ----- clipboard chords

  /** The keys of the chords: C, X or Insert with Ctrl, or Delete with Shift alone, copies; V
    * with Ctrl, or Insert with Shift alone, pastes; nothing does with Alt or Meta.
    */
  lemma ChordKeys(code: nat, held: set<nat>)
    ensures var altOrMeta := 56 in held || 100 in held || 125 in held || 126 in held;
      var ctrl, shift := 29 in held || 97 in held, 42 in held || 54 in held;
      && (ClipboardChord(code, held) == Some(Copy) <==>
            !altOrMeta && if ctrl then code in {46, 45, 110} else shift && code == 111)
      && (ClipboardChord(code, held) == Some(Paste) <==>
            !altOrMeta && if ctrl then code == 47 else shift && code == 110)
  {
    var altOrMeta := 56 in held || 100 in held || 125 in held || 126 in held;
    assert altOrMeta <==> held * ALT_AND_META != {} by {
      SharesOne(held, ALT_AND_META);
    }
    SharesOne(held, CTRL);
    SharesOne(held, SHIFT);
  }

  lemma SharesOne(a: set<nat>, b: set<nat>)
    ensures a * b != {} <==> exists k :: k in b && k in a
  {
    if k :| k in b && k in a {
      assert k in a * b;
    }
  }

  /** A handoff happens exactly on the first press that makes a chord, and before that press
    * reaches the session.
    */
  lemma HandoffExactlyWhen(s: Input, window: Window, event: Event, t: Input, effects: seq<Effect>, chord: ClipChord)
    requires Handles(s, window, event, t, effects)
    ensures Handoff(chord) in effects <==>
      && event.KeyboardInput? && event.evdev.Some? && event.down && event.evdev.value !in s.heldKeys && s.bridged
      && ClipboardChord(event.evdev.value, s.heldKeys + {event.evdev.value}) == Some(chord)
    ensures Handoff(chord) in effects ==>
      effects == [Handoff(chord)] + if event.repeat then [] else [Send(Key(event.evdev.value, 1))]
  {
    if event.FocusLost? {
      FocusLossSends(s, window, t, effects);
    }
  }

  lemma FocusLossSends(s: Input, window: Window, t: Input, effects: seq<Effect>)
    requires Handles(s, window, FocusLost, t, effects)
    ensures forall e :: e in effects ==> e.Send?
  {
    var lifted: seq<Effect> := if s.activeTouch.Some? then [Send(Button(BTN_LEFT, 0))] else [];
    assert effects == lifted + effects[|lifted|..];
  }

  lemma {:induction false} StepOf(start: Input, run: seq<Handled>, k: nat)
    requires IsRun(start, run) && k < |run|
    ensures IsRun(start, run[..k + 1])
    ensures Handles(Last(start, run[..k]), run[k].window, run[k].event, run[k].after, run[k].effects)
    ensures Last(start, run[..k + 1]) == run[k].after
  {
    var n := |run| - 1;
    if k < n {
      StepOf(start, run[..n], k);
      assert run[..n][..k] == run[..k] && run[..n][..k + 1] == run[..k + 1];
    } else {
      assert run[..k + 1] == run;
    }
  }

  predicate LetsGo(event: Event, code: nat) {
    event.FocusLost? || (event.KeyboardInput? && event.evdev == Some(code) && !event.down)
  }

  lemma {:induction false} HeldUntilLetGo(start: Input, run: seq<Handled>, i: nat, j: nat, code: nat)
    requires IsRun(start, run) && i <= j <= |run| && code in Last(start, run[..i]).heldKeys
    requires forall k :: i <= k < j ==> !LetsGo(run[k].event, code)
    ensures code in Last(start, run[..j]).heldKeys
  {
    if i < j {
      HeldUntilLetGo(start, run, i, j - 1, code);
      var last := run[j - 1];
      StepOf(start, run, j - 1);
      StaysHeld(Last(start, run[..j - 1]), last.window, last.event, last.after, last.effects, code);
    }
  }

  lemma StaysHeld(s: Input, window: Window, event: Event, t: Input, effects: seq<Effect>, code: nat)
    requires Handles(s, window, event, t, effects) && code in s.heldKeys && !LetsGo(event, code)
    ensures code in t.heldKeys
  {
  }

  /** One handoff for one press: between two handoffs of a key the key was let go, or the
    * window lost focus.
    */
  lemma OneHandoffPerPress(start: Input, run: seq<Handled>, i: nat, j: nat, code: nat,
                           first: ClipChord, second: ClipChord)
    requires IsRun(start, run) && i < j < |run|
    requires run[i].event.KeyboardInput? && run[i].event.evdev == Some(code) && Handoff(first) in run[i].effects
    requires run[j].event.KeyboardInput? && run[j].event.evdev == Some(code) && Handoff(second) in run[j].effects
    ensures exists k :: i < k < j && LetsGo(run[k].event, code)
  {
    StepOf(start, run, i);
    StepOf(start, run, j);
    HandoffExactlyWhen(Last(start, run[..i]), run[i].window, run[i].event, run[i].after, run[i].effects, first);
    HandoffExactlyWhen(Last(start, run[..j]), run[j].window, run[j].event, run[j].after, run[j].effects, second);
    if forall k :: i < k < j ==> !LetsGo(run[k].event, code) {
      HeldUntilLetGo(start, run, i + 1, j, code);
    }
  }

  // ----- the pointer

  /** Where a window position is in the session. */
  function Mapped(at: Position, window: Window): Effect
    requires window.width > 0 && window.height > 0
  {
    var mapped := MapToVirtual(at, window).value;
    Send(Motion(mapped.0, mapped.1))
  }

  /** The pointer moves in the session only for drags, presses and touches, and then before the
    * button does: hovering sends nothing.
    */
  lemma PointerGoesFirst(s: Input, window: Window, event: Event, t: Input, effects: seq<Effect>)
    requires Handles(s, window, event, t, effects) && window.width > 0 && window.height > 0
    ensures event.CursorMoved? ==>
      && t.lastPos == Some(event.position)
      && effects == if s.heldButtons == 0 then [] else [Mapped(event.position, window)]
    ensures UsesMouse(s, event) && event.pressed && s.lastPos.Some? ==>
      effects == [Mapped(s.lastPos.value, window), Send(Button(CodeOf(event.button), 1))]
    ensures UsesMouse(s, event) && !event.pressed ==> effects == [Send(Button(CodeOf(event.button), 0))]
    ensures event.Touch? && event.phase != Cancelled && Some(event.id) in {s.activeTouch, t.activeTouch} ==>
      effects != [] && effects[0] == Mapped(event.location, window)
  {
  }

  /** The corners of the window are the corners of the session. */
  lemma CornersAreCorners(window: Window)
    requires window.width > 0 && window.height > 0
    ensures Mapped((0.0, 0.0), window) == Send(Motion(0.0, 0.0))
    ensures Mapped((window.width as real, window.height as real), window) ==
      Send(Motion(window.virtualWidth as real, window.virtualHeight as real))
  {
    var mapped := MapToVirtual((window.width as real, window.height as real), window).value;
    assert mapped.0 == Scaled(window.width as real, window.virtualWidth as real, window.width as real);
    assert mapped.1 == Scaled(window.height as real, window.virtualHeight as real, window.height as real);
    Cancels(window.width as real, window.virtualWidth as real);
    Cancels(window.height as real, window.virtualHeight as real);
  }

  lemma Cancels(divisor: real, r: real)
    requires divisor > 0.0
    ensures Scaled(divisor, r, divisor) == r
  {
  }

  function ButtonOps(effects: seq<Effect>): seq<Op> {
    if effects == [] then []
    else
      var last := effects[|effects| - 1];
      ButtonOps(effects[..|effects| - 1]) + if last.Send? && last.op.Button? then [last.op] else []
  }

  function ButtonsIn(run: seq<Handled>): seq<Op> {
    if run == [] then [] else ButtonsIn(run[..|run| - 1]) + ButtonOps(run[|run| - 1].effects)
  }

  const PRESS: Op := Button(BTN_LEFT, 1)
  const LIFT: Op := Button(BTN_LEFT, 0)

  ghost predicate Exclusive(s: Input) {
    s.activeTouch.Some? ==> s.heldButtons == 0
  }

  lemma {:induction false} NoButtons(effects: seq<Effect>)
    requires forall e :: e in effects ==> e.Handoff? || !e.op.Button?
    ensures ButtonOps(effects) == []
  {
    if effects != [] {
      NoButtons(effects[..|effects| - 1]);
      assert effects[|effects| - 1] in effects;
    }
  }

  lemma OneButton(motion: seq<Effect>, op: Op)
    requires op.Button? && forall e :: e in motion ==> e.Handoff? || !e.op.Button?
    ensures ButtonOps(motion + [Send(op)]) == [op]
  {
    NoButtons(motion);
    assert (motion + [Send(op)])[..|motion|] == motion;
  }

  lemma {:induction false} ReleasesAfterLift(effects: seq<Effect>, lifted: seq<Effect>)
    requires lifted <= effects && |lifted| <= 1
    requires forall e :: e in effects[|lifted|..] ==> e.Send? && e.op.Key?
    ensures ButtonOps(effects) == ButtonOps(lifted)
  {
    if |lifted| < |effects| {
      var n := |effects| - 1;
      assert effects[n] == effects[|lifted|..][n - |lifted|];
      assert forall e :: e in effects[..n][|lifted|..] ==> e in effects[|lifted|..];
      ReleasesAfterLift(effects[..n], lifted);
    } else {
      assert effects == lifted;
    }
  }

  /** What an event may do to a touch, and the buttons that means. */
  ghost predicate TouchKept(s: Input, t: Input, buttons: seq<Op>) {
    && Exclusive(t)
    && (s.activeTouch.None? && t.activeTouch.Some? ==> s.heldButtons == 0 && buttons == [PRESS])
    && (s.activeTouch.Some? && t.activeTouch.Some? ==> t.activeTouch == s.activeTouch && buttons == [])
    && (s.activeTouch.Some? && t.activeTouch.None? ==> buttons == [LIFT])
  }

  lemma TouchButtons(s: Input, window: Window, id: nat, phase: Phase, location: Position)
    requires Exclusive(s)
    ensures var (t, effects) := TouchStep(s, window, id, phase, location); TouchKept(s, t, ButtonOps(effects))
  {
    var mapped := MapToVirtual(location, window);
    var motion := if phase != Cancelled && mapped.Some? then MotionTo(mapped) else [];
    OneButton(motion, PRESS);
    OneButton(motion, LIFT);
    NoButtons(motion);
    NoButtons([]);
  }

  lemma FocusLossButtons(s: Input, window: Window, t: Input, effects: seq<Effect>)
    requires Handles(s, window, FocusLost, t, effects)
    ensures s.activeTouch.Some? ==> ButtonOps(effects) == [LIFT]
  {
    var lifted: seq<Effect> := if s.activeTouch.Some? then [Send(LIFT)] else [];
    ReleasesAfterLift(effects, lifted);
    OneButton([], LIFT);
    assert [] + [Send(LIFT)] == [Send(LIFT)];
  }

  /** One event starts, keeps or ends a touch, and sends exactly the buttons that means. */
  lemma TouchStepButtons(s: Input, window: Window, event: Event, t: Input, effects: seq<Effect>)
    requires Handles(s, window, event, t, effects) && Exclusive(s)
    ensures TouchKept(s, t, ButtonOps(effects))
  {
    match event
    case FocusLost => FocusLossButtons(s, window, t, effects);
    case Touch(id, phase, location) => TouchButtons(s, window, id, phase, location);
    case MouseInput(pressed, button) =>
      if s.activeTouch.Some? {
        NoButtons(effects);
      }
    case _ => NoButtons(effects);
  }

  lemma LastEventButtons(start: Input, run: seq<Handled>)
    requires IsRun(start, run) && run != [] && Exclusive(Last(start, run[..|run| - 1]))
    ensures TouchKept(Last(start, run[..|run| - 1]), Last(start, run), ButtonOps(run[|run| - 1].effects))
  {
    var last := run[|run| - 1];
    TouchStepButtons(Last(start, run[..|run| - 1]), last.window, last.event, last.after, last.effects);
  }

  /** From the event that starts a touch on, through any others: until the touch ends the
    * session gets its left press and no other button operation, and when it ends, by the
    * finger, a cancel or lost focus, the one matching release.
    */
  lemma {:induction false} TouchIsExclusive(start: Input, run: seq<Handled>)
    requires IsRun(start, run) && run != [] && Exclusive(start)
    requires start.activeTouch.None? && run[0].after.activeTouch.Some?
    requires forall i :: 0 <= i < |run| - 1 ==> run[i].after.activeTouch.Some?
    ensures ButtonsIn(run) == if Last(start, run).activeTouch.Some? then [PRESS] else [PRESS, LIFT]
    ensures Last(start, run).activeTouch.Some? ==> Last(start, run).activeTouch == run[0].after.activeTouch
    ensures Exclusive(Last(start, run))
  {
    var n := |run| - 1;
    var before := run[..n];
    if n == 0 {
      assert before == [];
      LastEventButtons(start, run);
      assert ButtonsIn(before) + [PRESS] == [PRESS];
    } else {
      assert before[0] == run[0] && before[n - 1] == run[n - 1];
      TouchIsExclusive(start, before);
      LastEventButtons(start, run);
    }
  }

  lemma {:induction false} AlwaysExclusive(bridged: bool, run: seq<Handled>)
    requires IsRun(Opened(bridged), run)
    ensures Exclusive(Last(Opened(bridged), run))
  {
    if run != [] {
      var n := |run| - 1;
      AlwaysExclusive(bridged, run[..n]);
      LastEventButtons(Opened(bridged), run);
    }
  }

  // ----- the buttons down in the session

  function Pressed(ops: seq<Op>): set<nat> {
    if ops == [] then {}
    else
      var before := Pressed(ops[..|ops| - 1]);
      match ops[|ops| - 1]
      case Button(code, state) => if state == 0 then before - {code} else before + {code}
      case _ => before
  }

  /** The state tells which buttons the session has down: a touch means the left one alone,
    * a count of zero none.
    */
  ghost predicate CountTells(s: Input, pressed: set<nat>) {
    if s.activeTouch.Some? then pressed == {BTN_LEFT} else s.heldButtons == 0 ==> pressed == {}
  }

  predicate UsesMouse(s: Input, event: Event) {
    event.MouseInput? && event.button != OtherButton && s.activeTouch.None?
  }

  /** A release that takes the count to zero while the session has another button down. */
  predicate Uncounts(s: Input, event: Event, pressed: set<nat>) {
    UsesMouse(s, event) && !event.pressed && s.heldButtons == 1 && pressed - {CodeOf(event.button)} != {}
  }

  lemma MouseButtons(s: Input, window: Window, event: Event, t: Input, effects: seq<Effect>)
    requires Handles(s, window, event, t, effects) && UsesMouse(s, event)
    ensures ButtonOps(effects) == [Button(CodeOf(event.button), if event.pressed then 1 else 0)]
  {
    var op := Button(CodeOf(event.button), if event.pressed then 1 else 0);
    var motion: seq<Effect> :=
      if event.pressed && s.lastPos.Some? then MotionTo(MapToVirtual(s.lastPos.value, window)) else [];
    assert effects == motion + [Send(op)];
    OneButton(motion, op);
  }

  /** Without a mouse button and outside touches no button operation is sent. */
  lemma NoOtherButtons(s: Input, window: Window, event: Event, t: Input, effects: seq<Effect>)
    requires Handles(s, window, event, t, effects) && !UsesMouse(s, event)
    requires s.activeTouch.None? && t.activeTouch.None?
    ensures ButtonOps(effects) == [] && t.heldButtons == s.heldButtons
  {
    match event
    case FocusLost =>
      assert effects[0..] == effects;
      NoButtons(effects);
    case _ => NoButtons(effects);
  }

  lemma PressedOneMore(ops: seq<Op>, code: nat, state: nat)
    ensures Pressed(ops + [Button(code, state)]) == if state == 0 then Pressed(ops) - {code} else Pressed(ops) + {code}
  {
    assert (ops + [Button(code, state)])[..|ops|] == ops;
  }

  /** The buttons down after one event. */
  lemma PressedStep(s: Input, window: Window, event: Event, t: Input, effects: seq<Effect>, ops: seq<Op>)
    requires Handles(s, window, event, t, effects) && Exclusive(s)
    ensures var pressed := Pressed(ops + ButtonOps(effects));
      && Exclusive(t)
      && (UsesMouse(s, event) ==>
            var code := CodeOf(event.button);
            pressed == if event.pressed then Pressed(ops) + {code} else Pressed(ops) - {code})
      && (!UsesMouse(s, event) ==>
            pressed ==
            if s.activeTouch.None? && t.activeTouch.Some? then Pressed(ops) + {BTN_LEFT}
            else if s.activeTouch.Some? && t.activeTouch.None? then Pressed(ops) - {BTN_LEFT}
            else Pressed(ops))
  {
    TouchStepButtons(s, window, event, t, effects);
    PressedOneMore(ops, BTN_LEFT, 1);
    PressedOneMore(ops, BTN_LEFT, 0);
    assert ops + [] == ops;
    if UsesMouse(s, event) {
      MouseButtons(s, window, event, t, effects);
      PressedOneMore(ops, CodeOf(event.button), if event.pressed then 1 else 0);
    } else if s.activeTouch.None? && t.activeTouch.None? {
      NoOtherButtons(s, window, event, t, effects);
    }
  }

  /** One event keeps the count telling exactly when it is no release that uncounts a button. */
  lemma CountTellsExactlyWhen(s: Input, window: Window, event: Event, t: Input, effects: seq<Effect>, ops: seq<Op>)
    requires Handles(s, window, event, t, effects) && Exclusive(s) && CountTells(s, Pressed(ops))
    ensures CountTells(t, Pressed(ops + ButtonOps(effects))) <==> !Uncounts(s, event, Pressed(ops))
  {
    PressedStep(s, window, event, t, effects, ops);
    if s.activeTouch.None? && t.activeTouch.None? && !UsesMouse(s, event) {
      NoOtherButtons(s, window, event, t, effects);
    }
  }

  ghost predicate NoneUncounts(start: Input, run: seq<Handled>) {
    run != [] ==>
      var before := run[..|run| - 1];
      NoneUncounts(start, before) && !Uncounts(Last(start, before), run[|run| - 1].event, Pressed(ButtonsIn(before)))
  }

  ghost predicate AlwaysTells(start: Input, run: seq<Handled>) {
    && CountTells(Last(start, run), Pressed(ButtonsIn(run)))
    && (run != [] ==> AlwaysTells(start, run[..|run| - 1]))
  }

  /** In session terms: at every moment of a run a touch means that the left button alone is
    * down, and a count of zero that none is, exactly when no release takes the count to zero
    * while another button is down.
    */
  lemma {:induction false} ButtonsAreToldExactlyWhen(bridged: bool, run: seq<Handled>)
    requires IsRun(Opened(bridged), run)
    ensures AlwaysTells(Opened(bridged), run) <==> NoneUncounts(Opened(bridged), run)
  {
    if run != [] {
      var before, last := run[..|run| - 1], run[|run| - 1];
      ButtonsAreToldExactlyWhen(bridged, before);
      AlwaysExclusive(bridged, before);
      if AlwaysTells(Opened(bridged), before) {
        CountTellsExactlyWhen(Last(Opened(bridged), before), last.window, last.event, last.after, last.effects,
                              ButtonsIn(before));
      }
    }
  }

  /** One more event that is not a focus loss. */
  function Then(start: Input, run: seq<Handled>, event: Event): seq<Handled>
    requires event.Touch? || event.MouseInput?
  {
    var (t, effects) := match event
      case Touch(id, phase, location) => TouchStep(Last(start, run), SMALL, id, phase, location)
      case MouseInput(pressed, button) => MouseStep(Last(start, run), SMALL, pressed, button);
    run + [Handled(event, SMALL, t, effects)]
  }

  const SMALL: Window := Window(1, 1, 1, 1)
  const CORNER: Position := (0.0, 0.0)

  lemma ThenRuns(start: Input, run: seq<Handled>, event: Event)
    requires IsRun(start, run) && (event.Touch? || event.MouseInput?)
    ensures var more := Then(start, run, event);
      && IsRun(start, more) && more[..|more| - 1] == run
      && Handles(Last(start, run), SMALL, event, Last(start, more), more[|run|].effects)
      && ButtonsIn(more) == ButtonsIn(run) + ButtonOps(more[|run|].effects)
  {
    var more := Then(start, run, event);
    assert more[..|more| - 1] == run;
  }

  /** A finger taps while the left mouse button goes down, then the right button goes down and
    * the left one up.
    */
  function SwallowedPress(): seq<Handled> {
    var start := Opened(false);
    var tapped := Then(start, [], Touch(1, Started, CORNER));
    var pressed := Then(start, tapped, MouseInput(true, Left));
    var lifted := Then(start, pressed, Touch(1, Ended, CORNER));
    Then(start, Then(start, lifted, MouseInput(true, Right)), MouseInput(false, Left))
  }

  /** The touch swallowed the left press, so the left release takes the count to zero while
    * the right button is down, and the next touch starts beside it.
    */
  lemma SwallowedPressMiscounts()
    ensures var start, run := Opened(false), SwallowedPress();
      var touched := Then(start, run, Touch(2, Started, CORNER));
      && IsRun(start, run) && !AlwaysTells(start, run)
      && Last(start, run).heldButtons == 0 && Pressed(ButtonsIn(run)) == {BTN_RIGHT}
      && IsRun(start, touched)
      && Last(start, touched).activeTouch == Some(2) && Pressed(ButtonsIn(touched)) == {BTN_RIGHT, BTN_LEFT}
  {
    var start, run := Opened(false), SwallowedPress();
    RightIsLeftDown();
    var touched := Then(start, run, Touch(2, Started, CORNER));
    ThenRuns(start, run, Touch(2, Started, CORNER));
    PressedStep(Last(start, run), SMALL, Touch(2, Started, CORNER), Last(start, touched), touched[|run|].effects,
                ButtonsIn(run));
  }

  lemma RightIsLeftDown()
    ensures var start, run := Opened(false), SwallowedPress();
      && IsRun(start, run) && Pressed(ButtonsIn(run)) == {BTN_RIGHT}
      && Last(start, run) == Input(Some(CORNER), 0, None, {}, false)
  {
    var start := Opened(false);
    var lifted := TapOverPress();
    var right, run := Then(start, lifted, MouseInput(true, Right)), SwallowedPress();
    ThenRuns(start, lifted, MouseInput(true, Right));
    PressedStep(Last(start, lifted), SMALL, MouseInput(true, Right), Last(start, right), right[|lifted|].effects,
                ButtonsIn(lifted));
    ThenRuns(start, right, MouseInput(false, Left));
    PressedStep(Last(start, right), SMALL, MouseInput(false, Left), Last(start, run), run[|right|].effects,
                ButtonsIn(right));
  }

  lemma TapOverPress() returns (lifted: seq<Handled>)
    ensures var start := Opened(false);
      && lifted == Then(start, Then(start, Then(start, [], Touch(1, Started, CORNER)), MouseInput(true, Left)),
                        Touch(1, Ended, CORNER))
      && IsRun(start, lifted) && Pressed(ButtonsIn(lifted)) == {}
      && Last(start, lifted) == Input(Some(CORNER), 0, None, {}, false)
  {
    var start := Opened(false);
    var tapped := Then(start, [], Touch(1, Started, CORNER));
    ThenRuns(start, [], Touch(1, Started, CORNER));
    PressedStep(start, SMALL, Touch(1, Started, CORNER), Last(start, tapped), tapped[0].effects, []);
    var pressed := Then(start, tapped, MouseInput(true, Left));
    ThenRuns(start, tapped, MouseInput(true, Left));
    PressedStep(Last(start, tapped), SMALL, MouseInput(true, Left), Last(start, pressed), pressed[1].effects,
                ButtonsIn(tapped));
    lifted := Then(start, pressed, Touch(1, Ended, CORNER));
    ThenRuns(start, pressed, Touch(1, Ended, CORNER));
    PressedStep(Last(start, pressed), SMALL, Touch(1, Ended, CORNER), Last(start, lifted), lifted[2].effects,
                ButtonsIn(pressed));
  }

  /** A mouse press is of a button that is up in the session, a release of one that is down. */
  predicate PairedEvent(s: Input, event: Event, pressed: set<nat>) {
    UsesMouse(s, event) ==> (event.pressed <==> CodeOf(event.button) !in pressed)
  }

  ghost predicate Paired(start: Input, run: seq<Handled>) {
    run != [] ==>
      var before := run[..|run| - 1];
      Paired(start, before) && PairedEvent(Last(start, before), run[|run| - 1].event, Pressed(ButtonsIn(before)))
  }

  const MOUSE: set<nat> := {BTN_LEFT, BTN_RIGHT, BTN_MIDDLE}

  ghost predicate Counted(s: Input, pressed: set<nat>) {
    && pressed <= MOUSE
    && if s.activeTouch.Some? then pressed == {BTN_LEFT} else s.heldButtons == |pressed|
  }

  lemma CountedMouse(s: Input, window: Window, event: Event, t: Input, effects: seq<Effect>, pressed: set<nat>)
    requires Handles(s, window, event, t, effects) && UsesMouse(s, event)
    requires Counted(s, pressed) && PairedEvent(s, event, pressed)
    ensures Counted(t, if event.pressed then pressed + {CodeOf(event.button)} else pressed - {CodeOf(event.button)})
    ensures !Uncounts(s, event, pressed)
  {
    OneMoreOrLess(pressed, CodeOf(event.button));
  }

  lemma CountedStep(s: Input, window: Window, event: Event, t: Input, effects: seq<Effect>, ops: seq<Op>)
    requires Handles(s, window, event, t, effects) && Exclusive(s)
    requires Counted(s, Pressed(ops)) && PairedEvent(s, event, Pressed(ops))
    ensures Counted(t, Pressed(ops + ButtonOps(effects))) && !Uncounts(s, event, Pressed(ops))
  {
    PressedStep(s, window, event, t, effects, ops);
    if UsesMouse(s, event) {
      CountedMouse(s, window, event, t, effects, Pressed(ops));
    } else if s.activeTouch.None? && t.activeTouch.None? {
      NoOtherButtons(s, window, event, t, effects);
    } else {
      TouchStepButtons(s, window, event, t, effects);
    }
  }

  /** Where presses and releases are paired, the count is the number of buttons down, and a
    * touch never shares the session with another button.
    */
  lemma {:induction false} PairedButtonsAreCounted(bridged: bool, run: seq<Handled>)
    requires IsRun(Opened(bridged), run) && Paired(Opened(bridged), run)
    ensures NoneUncounts(Opened(bridged), run) && Counted(Last(Opened(bridged), run), Pressed(ButtonsIn(run)))
  {
    if run != [] {
      var before, last := run[..|run| - 1], run[|run| - 1];
      PairedButtonsAreCounted(bridged, before);
      AlwaysExclusive(bridged, before);
      CountedStep(Last(Opened(bridged), before), last.window, last.event, last.after, last.effects, ButtonsIn(before));
    }
  }

  lemma {:induction false} SubsetSize(part: set<nat>, whole: set<nat>)
    requires part <= whole
    ensures |part| <= |whole|
  {
    if part != {} {
      var code :| code in part;
      SubsetSize(part - {code}, whole - {code});
    }
  }

  lemma OneMoreOrLess(pressed: set<nat>, code: nat)
    requires pressed <= MOUSE && code in MOUSE
    ensures |pressed| <= 3
    ensures code in pressed ==> |pressed - {code}| == |pressed| - 1
    ensures code !in pressed ==> |pressed + {code}| == |pressed| + 1
    ensures code in pressed && |pressed| == 1 ==> pressed - {code} == {}
  {
    SubsetSize(pressed, MOUSE);
    if code in pressed {
      assert pressed == (pressed - {code}) + {code};
    }
  }
}
