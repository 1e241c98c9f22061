/**
  The polling loop of SuperGamerMouse as it runs: a session object holding the
  loop's mutable locals, a `Step` that handles one poll statement by statement,
  and `Drive`, the loop over the polls. Each is proved to do what `Tick` and
  `Trace` say, so the lemmas about those carry over to the running loop.
 */
module Driver {
  import opened Gamepad
  import opened Mapping
  import opened Runs

  class Session {
    var oldPacketNumber: int
    var isMouseDownLeft: bool
    var isMouseDownRight: bool
    var isOnScreenKeyboardButtonDown: bool
    var backSpaceButtonLastPressed: int
    var isEnterButtonDown: bool

    /** The session's fields as a value. */
    function Snapshot(): SessionState
      reads this
    {
      SessionState(oldPacketNumber, isMouseDownLeft, isMouseDownRight,
                   isOnScreenKeyboardButtonDown, backSpaceButtonLastPressed, isEnterButtonDown)
    }

    /** A session begins with the state read when the controller connected, and everything released. */
    constructor (initial: Sample)
      ensures Snapshot() == Initial(initial.packetNumber)
    {
      oldPacketNumber := initial.packetNumber;
      isMouseDownLeft := false;
      isMouseDownRight := false;
      isOnScreenKeyboardButtonDown := false;
      backSpaceButtonLastPressed := 0;
      isEnterButtonDown := false;
    }

    /** One pass of the polling loop: the actions dispatched, in order, and the updated locals. */
    method Step(state: Sample, now: int) returns (actions: seq<Action>)
      modifies this
      ensures TickResult(Snapshot(), actions) == Tick(old(Snapshot()), state, now)
    {
      actions := [];
      if oldPacketNumber != state.packetNumber {
        var x := state.leftThumbX;
        var y := state.leftThumbY;
        var leftTrigger := state.leftTrigger;
        var rightTrigger := state.rightTrigger;

        var mouseX := TruncDiv(x, LEFT_THUMB_DIVISOR);
        var mouseY := TruncDiv(-(y as int), LEFT_THUMB_DIVISOR);
        actions := [MoveCursor(mouseX, mouseY)];

        var leftClick := ClickLeft(rightTrigger, mouseX, mouseY);
        var rightClick := ClickRight(leftTrigger, mouseX, mouseY);
        actions := actions + leftClick + rightClick;

        // The horizontal scroll quantity is computed and never dispatched
        var scrollX := TruncDiv(state.rightThumbX, RIGHT_THUMB_DIVISOR);
        var scrollY := TruncDiv(state.rightThumbY, RIGHT_THUMB_DIVISOR);
        actions := actions + [Wheel(mouseX, mouseY, scrollY)];

        var buttonFlags := state.buttons;
        var keyboard := OnScreenKeyboardButton(buttonFlags);
        var backspace := BackspaceButton(buttonFlags, now);
        var enter := EnterButton(buttonFlags);
        actions := actions + keyboard + backspace + enter;
      }
      oldPacketNumber := state.packetNumber;
    }

    /** Left click with the right trigger. */
    method ClickLeft(rightTrigger: TriggerLevel, mouseX: int, mouseY: int) returns (actions: seq<Action>)
      modifies this`isMouseDownLeft
      ensures var t := Hysteresis(rightTrigger, old(isMouseDownLeft));
        actions == TransitionActions(LeftButton, t, mouseX, mouseY) && isMouseDownLeft == AfterTransition(t, old(isMouseDownLeft))
    {
      actions := [];
      if rightTrigger >= TRIGGER_UPPER_CUTOFF && !isMouseDownLeft {
        actions := [MouseButton(LeftButton, true, mouseX, mouseY)];
        isMouseDownLeft := true;
      } else if rightTrigger <= TRIGGER_LOWER_CUTOFF && isMouseDownLeft {
        actions := [MouseButton(LeftButton, false, mouseX, mouseY)];
        isMouseDownLeft := false;
      }
    }

    /** Right click with the left trigger. */
    method ClickRight(leftTrigger: TriggerLevel, mouseX: int, mouseY: int) returns (actions: seq<Action>)
      modifies this`isMouseDownRight
      ensures var t := Hysteresis(leftTrigger, old(isMouseDownRight));
        actions == TransitionActions(RightButton, t, mouseX, mouseY) && isMouseDownRight == AfterTransition(t, old(isMouseDownRight))
    {
      actions := [];
      if leftTrigger >= TRIGGER_UPPER_CUTOFF && !isMouseDownRight {
        actions := [MouseButton(RightButton, true, mouseX, mouseY)];
        isMouseDownRight := true;
      } else if leftTrigger <= TRIGGER_LOWER_CUTOFF && isMouseDownRight {
        actions := [MouseButton(RightButton, false, mouseX, mouseY)];
        isMouseDownRight := false;
      }
    }

    /** The on-screen keyboard toggles once per press of its button. */
    method OnScreenKeyboardButton(buttonFlags: ButtonFlags) returns (actions: seq<Action>)
      modifies this`isOnScreenKeyboardButtonDown
      ensures var l := Latch(HasFlag(buttonFlags, KEYBOARD_BUTTON), old(isOnScreenKeyboardButtonDown));
        actions == FireIf(l.fire, ToggleOnScreenKeyboard) && isOnScreenKeyboardButtonDown == l.held
    {
      actions := [];
      if HasFlag(buttonFlags, KEYBOARD_BUTTON) {
        if !isOnScreenKeyboardButtonDown {
          actions := [ToggleOnScreenKeyboard];
          isOnScreenKeyboardButtonDown := true;
        }
      } else {
        isOnScreenKeyboardButtonDown := false;
      }
    }

    /** Backspace repeats while held, at most once per cooldown. */
    method BackspaceButton(buttonFlags: ButtonFlags, now: int) returns (actions: seq<Action>)
      modifies this`backSpaceButtonLastPressed
      ensures var c := Cooldown(HasFlag(buttonFlags, BACKSPACE_BUTTON), old(backSpaceButtonLastPressed), now);
        actions == FireIf(c.fire, KeyPress(VK_BACK)) && backSpaceButtonLastPressed == c.lastPressed
    {
      actions := [];
      if HasFlag(buttonFlags, BACKSPACE_BUTTON) {
        if now > backSpaceButtonLastPressed + BACKSPACE_COOLDOWN_TICKS {
          actions := [KeyPress(VK_BACK)];
          backSpaceButtonLastPressed := now;
        }
      } else {
        backSpaceButtonLastPressed := 0;
      }
    }

    /** Enter is pressed once per press of its button. */
    method EnterButton(buttonFlags: ButtonFlags) returns (actions: seq<Action>)
      modifies this`isEnterButtonDown
      ensures var l := Latch(HasFlag(buttonFlags, ENTER_BUTTON), old(isEnterButtonDown));
        actions == FireIf(l.fire, KeyPress(VK_RETURN)) && isEnterButtonDown == l.held
    {
      actions := [];
      if HasFlag(buttonFlags, ENTER_BUTTON) {
        if !isEnterButtonDown {
          actions := [KeyPress(VK_RETURN)];
          isEnterButtonDown := true;
        }
      } else {
        isEnterButtonDown := false;
      }
    }

    /**
      The polling loop over `inputs`: every action dispatched, in order. Its
      mouse buttons alternate and its latched buttons fire once per press.
     */
    method Drive(inputs: seq<Input>) returns (trace: seq<Action>)
      modifies this
      ensures TickResult(Snapshot(), trace) == Trace(old(Snapshot()), inputs)
      ensures Alternates(Edges(trace, LeftButton), old(isMouseDownLeft))
      ensures Alternates(Edges(trace, RightButton), old(isMouseDownRight))
      ensures isMouseDownLeft == LastOr(Edges(trace, LeftButton), old(isMouseDownLeft))
      ensures isMouseDownRight == LastOr(Edges(trace, RightButton), old(isMouseDownRight))
      ensures Count(trace, ToggleOnScreenKeyboard)
              == Presses(ChangedBits(old(oldPacketNumber), inputs, KEYBOARD_BUTTON), old(isOnScreenKeyboardButtonDown))
      ensures Count(trace, KeyPress(VK_RETURN))
              == Presses(ChangedBits(old(oldPacketNumber), inputs, ENTER_BUTTON), old(isEnterButtonDown))
    {
      ghost var start := Snapshot();
      trace := [];
      var i := 0;
      while i < |inputs|
        invariant 0 <= i <= |inputs|
        invariant TickResult(Snapshot(), trace) == Trace(start, inputs[..i])
      {
        var actions := Step(inputs[i].sample, inputs[i].now);
        TraceSnoc(start, inputs[..i], inputs[i]);
        assert inputs[..i + 1] == inputs[..i] + [inputs[i]];
        trace := trace + actions;
        i := i + 1;
      }
      assert inputs[..|inputs|] == inputs;
      TraceAlternates(start, inputs, LeftButton);
      TraceAlternates(start, inputs, RightButton);
      TraceLatch(start, inputs, KeyboardToggle);
      TraceLatch(start, inputs, EnterKey);
    }
  }

  /**
    A whole connection: the session starts from the state read on connecting
    and then polls `inputs`. From that fresh start each button's events run
    down, up, down, ..., and the keyboard and Enter fire once per press.
   */
  method Connected(initial: Sample, inputs: seq<Input>) returns (trace: seq<Action>)
    ensures trace == Trace(Initial(initial.packetNumber), inputs).actions
    ensures forall side: Side, i :: 0 <= i < |Edges(trace, side)| ==> Edges(trace, side)[i] == (i % 2 == 0)
    ensures Count(trace, ToggleOnScreenKeyboard) == Presses(ChangedBits(initial.packetNumber, inputs, KEYBOARD_BUTTON), false)
    ensures Count(trace, KeyPress(VK_RETURN)) == Presses(ChangedBits(initial.packetNumber, inputs, ENTER_BUTTON), false)
  {
    var session := new Session(initial);
    trace := session.Drive(inputs);
    forall side: Side
      ensures forall i :: 0 <= i < |Edges(trace, side)| ==> Edges(trace, side)[i] == (i % 2 == 0)
    {
      FreshRunStartsWithDown(initial.packetNumber, inputs, side);
    }
  }
}
