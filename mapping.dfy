/**
  The mapping engine of SuperGamerMouse: one poll of the controller becomes an
  ordered list of mouse and keyboard actions and an updated session state.
  `Tick` is the whole per-poll rule; the lemmas below state what it promises.
 */
module Mapping {
  import opened Gamepad

  /** Which mouse button a transition is for. */
  datatype Side = LeftButton | RightButton

  /**
    What one poll asks of the operating system. `MoveCursor` stands for reading
    the cursor position and setting it `dx`, `dy` pixels further; `MouseButton`
    and `Wheel` for mouse_event, which the source hands the cursor deltas as its
    coordinates; `KeyPress` for a key-down immediately followed by a key-up.
   */
  datatype Action =
    | MoveCursor(dx: int, dy: int)
    | MouseButton(side: Side, down: bool, dx: int, dy: int)
    | Wheel(dx: int, dy: int, amount: int)
    | ToggleOnScreenKeyboard
    | KeyPress(vk: bv8)

  /** The loop's mutable locals, as a value: the previous packet number and the five latches. */
  datatype SessionState = SessionState(
    lastPacket: int,
    isMouseDownLeft: bool,
    isMouseDownRight: bool,
    isOnScreenKeyboardButtonDown: bool,
    backSpaceButtonLastPressed: int,
    isEnterButtonDown: bool)

  /** The state right after the controller connects: everything released, no backspace yet. */
  function Initial(firstPacket: int): (st: SessionState)
    ensures st.lastPacket == firstPacket
    ensures !st.isMouseDownLeft && !st.isMouseDownRight
    ensures !st.isOnScreenKeyboardButtonDown && !st.isEnterButtonDown
    ensures st.backSpaceButtonLastPressed == 0
  {
    SessionState(firstPacket, false, false, false, 0, false)
  }

  datatype TickResult = TickResult(next: SessionState, actions: seq<Action>)

  /** A trigger's two-state machine with a dead band between the cutoffs. */
  datatype Transition = Press | Release | Stay

  /**
    One step of a trigger's machine: only a released button can be pressed and
    only a pressed one released; a full pull leaves the button down, a light one
    leaves it up, and inside the dead band nothing happens.
   */
  function Hysteresis(level: TriggerLevel, isDown: bool): (t: Transition)
    ensures t == Press ==> !isDown
    ensures t == Release ==> isDown
    ensures level >= TRIGGER_UPPER_CUTOFF ==> AfterTransition(t, isDown)
    ensures level <= TRIGGER_LOWER_CUTOFF ==> !AfterTransition(t, isDown)
    ensures TRIGGER_LOWER_CUTOFF < level < TRIGGER_UPPER_CUTOFF ==> t == Stay
  {
    if level >= TRIGGER_UPPER_CUTOFF && !isDown then Press
    else if level <= TRIGGER_LOWER_CUTOFF && isDown then Release
    else Stay
  }

  function AfterTransition(t: Transition, isDown: bool): bool {
    match t
    case Press => true
    case Release => false
    case Stay => isDown
  }

  function TransitionActions(side: Side, t: Transition, dx: int, dy: int): seq<Action> {
    match t
    case Press => [MouseButton(side, true, dx, dy)]
    case Release => [MouseButton(side, false, dx, dy)]
    case Stay => []
  }

  /** A single-fire latch: fires when the button is seen down and was not down before. */
  datatype LatchStep = LatchStep(fire: bool, held: bool)

  /** The latch follows the button, and fires on its rising edge only. */
  function Latch(pressed: bool, held: bool): (r: LatchStep)
    ensures r.held == pressed
    ensures r.fire <==> pressed && !held
  {
    if pressed then LatchStep(!held, true) else LatchStep(false, false)
  }

  /** Auto-repeat with a cooldown; releasing the button forgets the last firing. */
  datatype CooldownStep = CooldownStep(fire: bool, lastPressed: int)

  /**
    A held button fires once the clock is strictly past the last firing plus the
    cooldown, and firing records the clock; a held button that does not fire
    keeps the record, and a released one resets it to 0.
   */
  function Cooldown(pressed: bool, lastPressed: int, now: int): (r: CooldownStep)
    ensures r.fire <==> pressed && now > lastPressed + BACKSPACE_COOLDOWN_TICKS
    ensures r.fire ==> r.lastPressed == now
    ensures pressed && !r.fire ==> r.lastPressed == lastPressed
    ensures !pressed ==> r.lastPressed == 0
  {
    if pressed then
      if now > lastPressed + BACKSPACE_COOLDOWN_TICKS then CooldownStep(true, now)
      else CooldownStep(false, lastPressed)
    else CooldownStep(false, 0)
  }

  function FireIf(fire: bool, a: Action): seq<Action> {
    if fire then [a] else []
  }

  /** The device state changed since the last poll. */
  predicate Changed(st: SessionState, s: Sample) {
    s.packetNumber != st.lastPacket
  }

  // The parts of one changed poll

  /** The cursor delta: the left stick divided, truncating, with Y inverted. */
  function MouseX(s: Sample): int {
    TruncDiv(s.leftThumbX, LEFT_THUMB_DIVISOR)
  }

  function MouseY(s: Sample): int {
    TruncDiv(-(s.leftThumbY as int), LEFT_THUMB_DIVISOR)
  }

  function ScrollY(s: Sample): int {
    TruncDiv(s.rightThumbY, RIGHT_THUMB_DIVISOR)
  }

  function ButtonStep(st: SessionState, s: Sample, side: Side): Transition {
    Hysteresis(DrivingTrigger(s, side), IsDown(st, side))
  }

  function KeyboardStep(st: SessionState, s: Sample): LatchStep {
    Latch(HasFlag(s.buttons, KEYBOARD_BUTTON), st.isOnScreenKeyboardButtonDown)
  }

  function BackspaceStep(st: SessionState, s: Sample, now: int): CooldownStep {
    Cooldown(HasFlag(s.buttons, BACKSPACE_BUTTON), st.backSpaceButtonLastPressed, now)
  }

  function EnterStep(st: SessionState, s: Sample): LatchStep {
    Latch(HasFlag(s.buttons, ENTER_BUTTON), st.isEnterButtonDown)
  }

  /** The seven parts of a changed poll's actions, in dispatch order. */
  datatype Dispatch = Dispatch(
    cursor: Action,
    left: seq<Action>,
    right: seq<Action>,
    wheel: Action,
    keyboard: seq<Action>,
    backspace: seq<Action>,
    enter: seq<Action>)

  function Flatten(d: Dispatch): seq<Action> {
    [d.cursor] + d.left + d.right + [d.wheel] + d.keyboard + d.backspace + d.enter
  }

  /**
    The parts from the quantities the loop computes: the cursor delta, the
    scroll amount, the two trigger steps and whether each key button fires.
   */
  function Dispatched(dx: int, dy: int, scroll: int, left: Transition, right: Transition,
                      keyboard: bool, backspace: bool, enter: bool): Dispatch
  {
    Dispatch(
      MoveCursor(dx, dy),
      TransitionActions(LeftButton, left, dx, dy),
      TransitionActions(RightButton, right, dx, dy),
      Wheel(dx, dy, scroll),
      FireIf(keyboard, ToggleOnScreenKeyboard),
      FireIf(backspace, KeyPress(VK_BACK)),
      FireIf(enter, KeyPress(VK_RETURN)))
  }

  function Parts(st: SessionState, s: Sample, now: int): Dispatch {
    Dispatched(MouseX(s), MouseY(s), ScrollY(s),
               ButtonStep(st, s, LeftButton), ButtonStep(st, s, RightButton),
               KeyboardStep(st, s).fire, BackspaceStep(st, s, now).fire, EnterStep(st, s).fire)
  }

  /**
    One pass of the polling loop for sample `s` read at clock time `now`.
    An unchanged packet number does nothing; otherwise: cursor, left click from
    the right trigger, right click from the left trigger, wheel, keyboard toggle,
    backspace, enter. The previous packet number always becomes `s`'s.
   */
  function Tick(st: SessionState, s: Sample, now: int): TickResult
  {
    if !Changed(st, s) then
      TickResult(st.(lastPacket := s.packetNumber), [])
    else
      TickResult(
        SessionState(
          s.packetNumber,
          AfterTransition(ButtonStep(st, s, LeftButton), st.isMouseDownLeft),
          AfterTransition(ButtonStep(st, s, RightButton), st.isMouseDownRight),
          KeyboardStep(st, s).held,
          BackspaceStep(st, s, now).lastPressed,
          EnterStep(st, s).held),
        Flatten(Parts(st, s, now)))
  }

  // ---------------------------------------------------------------------------
  // Observations on action lists

  /** The down/up transitions for one side, in order (true = down). */
  function Edges(acts: seq<Action>, side: Side): seq<bool> {
    if acts == [] then [] else EdgeOf(acts[0], side) + Edges(acts[1..], side)
  }

  /** The transition one action makes on `side`, if any. */
  function EdgeOf(a: Action, side: Side): seq<bool> {
    if a.MouseButton? && a.side == side then [a.down] else []
  }

  lemma {:induction false} EdgesAppend(a: seq<Action>, b: seq<Action>, side: Side)
    ensures Edges(a + b, side) == Edges(a, side) + Edges(b, side)
  {
    if a == [] {
      assert a + b == b;
    } else {
      assert (a + b)[0] == a[0];
      assert (a + b)[1..] == a[1..] + b;
      EdgesAppend(a[1..], b, side);
    }
  }

  /** A changed poll's transitions are those of its parts, one after the other. */
  lemma EdgesFlatten(d: Dispatch, side: Side)
    ensures Edges(Flatten(d), side)
            == Edges([d.cursor], side) + Edges(d.left, side) + Edges(d.right, side) + Edges([d.wheel], side)
             + Edges(d.keyboard, side) + Edges(d.backspace, side) + Edges(d.enter, side)
  {
    var head := [d.cursor] + d.left + d.right + [d.wheel];
    EdgesAppend(head + d.keyboard + d.backspace, d.enter, side);
    EdgesAppend(head + d.keyboard, d.backspace, side);
    EdgesAppend(head, d.keyboard, side);
    EdgesAppend([d.cursor] + d.left + d.right, [d.wheel], side);
    EdgesAppend([d.cursor] + d.left, d.right, side);
    EdgesAppend([d.cursor], d.left, side);
  }

  /** How many times `a` occurs in `acts`. */
  function Count(acts: seq<Action>, a: Action): nat {
    if acts == [] then 0
    else (if acts[0] == a then 1 else 0) + Count(acts[1..], a)
  }

  lemma {:induction false} CountAppend(x: seq<Action>, y: seq<Action>, a: Action)
    ensures Count(x + y, a) == Count(x, a) + Count(y, a)
  {
    if x != [] {
      calc {
        Count(x + y, a);
        (if x[0] == a then 1 else 0) + Count((x + y)[1..], a);
        { assert (x + y)[1..] == x[1..] + y; CountAppend(x[1..], y, a); }
        Count(x, a) + Count(y, a);
      }
    } else {
      assert x + y == y;
    }
  }

  /** Occurrences in a changed poll are those in its parts, added up. */
  lemma CountFlatten(d: Dispatch, a: Action)
    ensures Count(Flatten(d), a)
            == Count([d.cursor], a) + Count(d.left, a) + Count(d.right, a) + Count([d.wheel], a)
             + Count(d.keyboard, a) + Count(d.backspace, a) + Count(d.enter, a)
  {
    var head := [d.cursor] + d.left + d.right + [d.wheel];
    CountAppend(head + d.keyboard + d.backspace, d.enter, a);
    CountAppend(head + d.keyboard, d.backspace, a);
    CountAppend(head, d.keyboard, a);
    CountAppend([d.cursor] + d.left + d.right, [d.wheel], a);
    CountAppend([d.cursor] + d.left, d.right, a);
    CountAppend([d.cursor], d.left, a);
  }

  /** The position of each kind of action in a tick's fixed dispatch order. */
  function Rank(a: Action): nat {
    match a
    case MoveCursor(_, _) => 0
    case MouseButton(side, _, _, _) => if side == LeftButton then 1 else 2
    case Wheel(_, _, _) => 3
    case ToggleOnScreenKeyboard => 4
    case KeyPress(vk) => if vk == VK_BACK then 5 else 6
  }

  /** The mouse button state a session holds for `side`. */
  function IsDown(st: SessionState, side: Side): bool {
    if side == LeftButton then st.isMouseDownLeft else st.isMouseDownRight
  }

  /** The trigger that drives `side`: the triggers are cross-mapped. */
  function DrivingTrigger(s: Sample, side: Side): TriggerLevel {
    if side == LeftButton then s.rightTrigger else s.leftTrigger
  }

  // ---------------------------------------------------------------------------
  // What one tick promises

  /** An unchanged packet number emits nothing and leaves every latch and timestamp as it was. */
  lemma UnchangedTickIsSilent(st: SessionState, s: Sample, now: int)
    requires s.packetNumber == st.lastPacket
    ensures Tick(st, s, now) == TickResult(st, [])
  {
  }

  /**
    Whatever the sample, the previous packet number becomes the sample's; an
    unchanged poll emits nothing, and a changed one starts with the cursor move
    and contains a wheel event.
   */
  lemma TickRecordsPacket(st: SessionState, s: Sample, now: int)
    ensures Tick(st, s, now).next.lastPacket == s.packetNumber
    ensures !Changed(st, s) ==> Tick(st, s, now).actions == []
    ensures Changed(st, s) ==>
      && Tick(st, s, now).actions[0].MoveCursor?
      && (exists a :: a in Tick(st, s, now).actions && a.Wheel?)
  {
    if Changed(st, s) {
      TickOrder(st, s, now);
    }
  }

  /** A mouse_event carries the tick's cursor delta as its coordinates. */
  predicate CarriesDelta(a: Action, dx: int, dy: int) {
    (a.MouseButton? || a.Wheel?) ==> a.dx == dx && a.dy == dy
  }

  /**
    A changed tick first moves the cursor by the left stick divided (truncating)
    by the divisor, with Y inverted; every mouse_event carries that same delta.
   */
  lemma TickCursor(st: SessionState, s: Sample, now: int)
    requires Changed(st, s)
    ensures var acts := Tick(st, s, now).actions;
      var dx := TruncDiv(s.leftThumbX, LEFT_THUMB_DIVISOR);
      var dy := -TruncDiv(s.leftThumbY, LEFT_THUMB_DIVISOR);
      && acts[0] == MoveCursor(dx, dy)
      && forall a :: a in acts ==> CarriesDelta(a, dx, dy)
  {
    TruncDivNegate(s.leftThumbY, LEFT_THUMB_DIVISOR);
  }

  // ---------------------------------------------------------------------------
  // Mouse buttons

  function TransitionEdges(t: Transition): seq<bool> {
    match t
    case Press => [true]
    case Release => [false]
    case Stay => []
  }

  lemma SingletonEdges(a: Action, side: Side)
    ensures Edges([a], side) == if a.MouseButton? && a.side == side then [a.down] else []
  {
    assert [a][1..] == [];
  }

  lemma TransitionActionsEdges(side: Side, other: Side, t: Transition, dx: int, dy: int)
    ensures Edges(TransitionActions(side, t, dx, dy), other) == if side == other then TransitionEdges(t) else []
  {
    if t != Stay {
      SingletonEdges(TransitionActions(side, t, dx, dy)[0], other);
    }
  }

  lemma FireIfEdges(fire: bool, a: Action, side: Side)
    requires !a.MouseButton?
    ensures Edges(FireIf(fire, a), side) == []
  {
    if fire {
      SingletonEdges(a, side);
    }
  }

  lemma DispatchedEdges(dx: int, dy: int, scroll: int, left: Transition, right: Transition,
                         keyboard: bool, backspace: bool, enter: bool, side: Side)
    ensures Edges(Flatten(Dispatched(dx, dy, scroll, left, right, keyboard, backspace, enter)), side)
            == TransitionEdges(if side == LeftButton then left else right)
  {
    var d := Dispatched(dx, dy, scroll, left, right, keyboard, backspace, enter);
    EdgesFlatten(d, side);
    SingletonEdges(d.cursor, side);
    SingletonEdges(d.wheel, side);
    TransitionActionsEdges(LeftButton, side, left, dx, dy);
    TransitionActionsEdges(RightButton, side, right, dx, dy);
    FireIfEdges(keyboard, ToggleOnScreenKeyboard, side);
    FireIfEdges(backspace, KeyPress(VK_BACK), side);
    FireIfEdges(enter, KeyPress(VK_RETURN), side);
  }

  /** A changed tick's transitions for `side` are exactly those of its driving trigger's machine. */
  lemma TickEdges(st: SessionState, s: Sample, now: int, side: Side)
    requires Changed(st, s)
    ensures var t := Hysteresis(DrivingTrigger(s, side), IsDown(st, side));
      && Edges(Tick(st, s, now).actions, side) == TransitionEdges(t)
      && IsDown(Tick(st, s, now).next, side) == AfterTransition(t, IsDown(st, side))
  {
    DispatchedEdges(MouseX(s), MouseY(s), ScrollY(s),
                    ButtonStep(st, s, LeftButton), ButtonStep(st, s, RightButton),
                    KeyboardStep(st, s).fire, BackspaceStep(st, s, now).fire, EnterStep(st, s).fire, side);
  }

  /**
    The hysteresis rule for each mouse button: a down only at or above the upper
    cutoff while released, an up only at or below the lower cutoff while pressed,
    nothing in the dead band; the button state afterwards is the event emitted.
   */
  lemma TickHysteresis(st: SessionState, s: Sample, now: int, side: Side)
    requires Changed(st, s)
    ensures var r := Tick(st, s, now);
      var e := Edges(r.actions, side);
      var level := DrivingTrigger(s, side);
      var was := IsDown(st, side);
      && (e == [true] <==> level >= TRIGGER_UPPER_CUTOFF && !was)
      && (e == [false] <==> level <= TRIGGER_LOWER_CUTOFF && was)
      && (e == [] <==> IsDown(r.next, side) == was)
      && (e != [] ==> |e| == 1 && IsDown(r.next, side) == e[0])
      && (TRIGGER_LOWER_CUTOFF < level < TRIGGER_UPPER_CUTOFF ==> e == [] && IsDown(r.next, side) == was)
  {
    TickEdges(st, s, now, side);
  }

  /**
    The triggers are cross-mapped: the left button's events and state depend on
    the right trigger only, and the right button's on the left trigger only.
   */
  lemma TriggerCrossMapping(st: SessionState, s: Sample, now: int, level: TriggerLevel)
    ensures var r := Tick(st, s, now);
      var r' := Tick(st, s.(leftTrigger := level), now);
      Edges(r'.actions, LeftButton) == Edges(r.actions, LeftButton) && r'.next.isMouseDownLeft == r.next.isMouseDownLeft
    ensures var r := Tick(st, s, now);
      var r' := Tick(st, s.(rightTrigger := level), now);
      Edges(r'.actions, RightButton) == Edges(r.actions, RightButton) && r'.next.isMouseDownRight == r.next.isMouseDownRight
  {
    if Changed(st, s) {
      TickEdges(st, s, now, LeftButton);
      TickEdges(st, s.(leftTrigger := level), now, LeftButton);
      TickEdges(st, s, now, RightButton);
      TickEdges(st, s.(rightTrigger := level), now, RightButton);
    }
  }

  // ---------------------------------------------------------------------------
  // Buttons

  lemma CountSingleton(x: Action, a: Action)
    ensures Count([x], a) == if x == a then 1 else 0
  {
    assert [x][1..] == [];
  }

  lemma CountFireIf(fire: bool, x: Action, a: Action)
    ensures Count(FireIf(fire, x), a) == if fire && x == a then 1 else 0
  {
    if fire {
      CountSingleton(x, a);
    }
  }

  lemma CountTransitionActions(side: Side, t: Transition, dx: int, dy: int, a: Action)
    requires !a.MouseButton?
    ensures Count(TransitionActions(side, t, dx, dy), a) == 0
  {
    if t != Stay {
      CountSingleton(TransitionActions(side, t, dx, dy)[0], a);
    }
  }

  lemma DispatchedCount(dx: int, dy: int, scroll: int, left: Transition, right: Transition,
                         keyboard: bool, backspace: bool, enter: bool, a: Action)
    requires a.ToggleOnScreenKeyboard? || a.KeyPress?
    ensures Count(Flatten(Dispatched(dx, dy, scroll, left, right, keyboard, backspace, enter)), a)
            == (if keyboard && a == ToggleOnScreenKeyboard then 1 else 0)
             + (if backspace && a == KeyPress(VK_BACK) then 1 else 0)
             + (if enter && a == KeyPress(VK_RETURN) then 1 else 0)
  {
    var d := Dispatched(dx, dy, scroll, left, right, keyboard, backspace, enter);
    CountFlatten(d, a);
    CountSingleton(d.cursor, a);
    CountSingleton(d.wheel, a);
    CountTransitionActions(LeftButton, left, dx, dy, a);
    CountTransitionActions(RightButton, right, dx, dy, a);
    CountFireIf(keyboard, ToggleOnScreenKeyboard, a);
    CountFireIf(backspace, KeyPress(VK_BACK), a);
    CountFireIf(enter, KeyPress(VK_RETURN), a);
  }

  /** How often a changed tick emits a keyboard-side action `a`: once if its button fires, else never. */
  lemma TickCount(st: SessionState, s: Sample, now: int, a: Action)
    requires Changed(st, s)
    requires a.ToggleOnScreenKeyboard? || a.KeyPress?
    ensures var keyboard := Latch(HasFlag(s.buttons, KEYBOARD_BUTTON), st.isOnScreenKeyboardButtonDown);
      var backspace := Cooldown(HasFlag(s.buttons, BACKSPACE_BUTTON), st.backSpaceButtonLastPressed, now);
      var enter := Latch(HasFlag(s.buttons, ENTER_BUTTON), st.isEnterButtonDown);
      Count(Tick(st, s, now).actions, a)
        == (if keyboard.fire && a == ToggleOnScreenKeyboard then 1 else 0)
         + (if backspace.fire && a == KeyPress(VK_BACK) then 1 else 0)
         + (if enter.fire && a == KeyPress(VK_RETURN) then 1 else 0)
  {
    DispatchedCount(MouseX(s), MouseY(s), ScrollY(s),
                    ButtonStep(st, s, LeftButton), ButtonStep(st, s, RightButton),
                    KeyboardStep(st, s).fire, BackspaceStep(st, s, now).fire, EnterStep(st, s).fire, a);
  }

  /** The two single-fire latches: the on-screen keyboard toggle on X and Enter on A. */
  datatype LatchedButton = KeyboardToggle | EnterKey

  function LatchButton(b: LatchedButton): ButtonFlags {
    if b == KeyboardToggle then KEYBOARD_BUTTON else ENTER_BUTTON
  }

  function LatchAction(b: LatchedButton): Action {
    if b == KeyboardToggle then ToggleOnScreenKeyboard else KeyPress(VK_RETURN)
  }

  function LatchHeld(st: SessionState, b: LatchedButton): bool {
    if b == KeyboardToggle then st.isOnScreenKeyboardButtonDown else st.isEnterButtonDown
  }

  /**
    A latched button fires at most once per tick: exactly when a changed sample
    shows it down and the latch was open; afterwards the latch equals the bit.
    Whether the keyboard toggle itself succeeds plays no part in the latch.
   */
  lemma TickLatch(st: SessionState, s: Sample, now: int, b: LatchedButton)
    ensures var r := Tick(st, s, now);
      var pressed := HasFlag(s.buttons, LatchButton(b));
      && Count(r.actions, LatchAction(b)) == (if Changed(st, s) && pressed && !LatchHeld(st, b) then 1 else 0)
      && LatchHeld(r.next, b) == (if Changed(st, s) then pressed else LatchHeld(st, b))
  {
    if Changed(st, s) {
      TickCount(st, s, now, LatchAction(b));
    }
  }

  /**
    Backspace fires iff a changed sample shows B down and the clock is past the
    last firing plus the cooldown; firing records `now`, and a sample with B up
    resets the record to 0.
   */
  lemma TickBackspace(st: SessionState, s: Sample, now: int)
    ensures var r := Tick(st, s, now);
      var pressed := HasFlag(s.buttons, BACKSPACE_BUTTON);
      var last := st.backSpaceButtonLastPressed;
      var fire := Changed(st, s) && pressed && now > last + BACKSPACE_COOLDOWN_TICKS;
      && Count(r.actions, KeyPress(VK_BACK)) == (if fire then 1 else 0)
      && r.next.backSpaceButtonLastPressed
         == (if fire then now else if Changed(st, s) && !pressed then 0 else last)
  {
    if Changed(st, s) {
      TickCount(st, s, now, KeyPress(VK_BACK));
    }
  }

  /** After B is seen released, the next changed sample with B down fires as soon as the clock is past the cooldown. */
  lemma BackspaceReleaseRearms(st: SessionState, s1: Sample, now1: int, s2: Sample, now2: int)
    requires Changed(st, s1) && !HasFlag(s1.buttons, BACKSPACE_BUTTON)
    requires Changed(Tick(st, s1, now1).next, s2) && HasFlag(s2.buttons, BACKSPACE_BUTTON)
    requires now2 > BACKSPACE_COOLDOWN_TICKS
    ensures Count(Tick(Tick(st, s1, now1).next, s2, now2).actions, KeyPress(VK_BACK)) == 1
  {
    TickBackspace(st, s1, now1);
    TickBackspace(Tick(st, s1, now1).next, s2, now2);
  }

  // ---------------------------------------------------------------------------
  // Wheel and dispatch order

  /**
    A changed tick emits one wheel event whose amount is the right stick's Y
    divided (truncating) by its divisor, at the cursor delta's coordinates.
   */
  lemma TickWheel(st: SessionState, s: Sample, now: int)
    requires Changed(st, s)
    ensures var acts := Tick(st, s, now).actions;
      var w := Wheel(TruncDiv(s.leftThumbX, LEFT_THUMB_DIVISOR), -TruncDiv(s.leftThumbY, LEFT_THUMB_DIVISOR),
                     TruncDiv(s.rightThumbY, RIGHT_THUMB_DIVISOR));
      && w in acts
      && forall a :: a in acts && a.Wheel? ==> a == w
  {
    TruncDivNegate(s.leftThumbY, LEFT_THUMB_DIVISOR);
  }

  /** The horizontal scroll quantity is never emitted: the right stick's X changes nothing. */
  lemma ScrollXIgnored(st: SessionState, s: Sample, now: int, rightX: Thumb)
    ensures Tick(st, s.(rightThumbX := rightX), now) == Tick(st, s, now)
  {
  }

  /** Every action ranks strictly above the ones before it. */
  predicate Ranked(acts: seq<Action>) {
    forall i, j :: 0 <= i < j < |acts| ==> Rank(acts[i]) < Rank(acts[j])
  }

  /** Appending at most one action of rank `k` to actions ranked below `k` keeps the order. */
  lemma RankedExtend(a: seq<Action>, b: seq<Action>, k: nat)
    requires Ranked(a) && forall x :: x in a ==> Rank(x) < k
    requires |b| <= 1 && forall y :: y in b ==> Rank(y) == k
    ensures Ranked(a + b) && forall x :: x in a + b ==> Rank(x) <= k
  {
    if |b| == 1 {
      forall i, j | 0 <= i < j < |a + b|
        ensures Rank((a + b)[i]) < Rank((a + b)[j])
      {
        if j == |a| {
          assert (a + b)[i] in a && (a + b)[j] in b;
        }
      }
    } else {
      assert a + b == a;
    }
  }

  /** At most one action, and that one of rank `k`. */
  predicate OneOfRank(p: seq<Action>, k: nat) {
    |p| <= 1 && forall y :: y in p ==> Rank(y) == k
  }

  lemma TransitionActionsRanked(side: Side, t: Transition, dx: int, dy: int)
    ensures OneOfRank(TransitionActions(side, t, dx, dy), if side == LeftButton then 1 else 2)
  {
  }

  /** Parts that each hold at most one action of their own rank join up in rank order. */
  lemma RankedFlatten(d: Dispatch)
    requires d.cursor.MoveCursor? && d.wheel.Wheel?
    requires OneOfRank(d.left, 1) && OneOfRank(d.right, 2)
    requires OneOfRank(d.keyboard, 4) && OneOfRank(d.backspace, 5) && OneOfRank(d.enter, 6)
    ensures Ranked(Flatten(d))
  {
    var head := [d.cursor] + d.left + d.right + [d.wheel];
    RankedExtend([d.cursor], d.left, 1);
    RankedExtend([d.cursor] + d.left, d.right, 2);
    RankedExtend([d.cursor] + d.left + d.right, [d.wheel], 3);
    RankedExtend(head, d.keyboard, 4);
    RankedExtend(head + d.keyboard, d.backspace, 5);
    RankedExtend(head + d.keyboard + d.backspace, d.enter, 6);
  }

  lemma DispatchedRanked(dx: int, dy: int, scroll: int, left: Transition, right: Transition,
                          keyboard: bool, backspace: bool, enter: bool)
    ensures var acts := Flatten(Dispatched(dx, dy, scroll, left, right, keyboard, backspace, enter));
      Ranked(acts) && acts[0] == MoveCursor(dx, dy) && Wheel(dx, dy, scroll) in acts
  {
    var d := Dispatched(dx, dy, scroll, left, right, keyboard, backspace, enter);
    TransitionActionsRanked(LeftButton, left, dx, dy);
    TransitionActionsRanked(RightButton, right, dx, dy);
    RankedFlatten(d);
    assert d.wheel in Flatten(d);
  }

  /**
    Within a changed tick the actions come in the fixed order cursor, left
    button, right button, wheel, keyboard toggle, backspace, enter, each at most
    once; the cursor move and the wheel are always there.
   */
  lemma TickOrder(st: SessionState, s: Sample, now: int)
    requires Changed(st, s)
    ensures var acts := Tick(st, s, now).actions;
      && Ranked(acts)
      && acts[0].MoveCursor?
      && (exists a :: a in acts && a.Wheel?)
  {
    DispatchedRanked(MouseX(s), MouseY(s), ScrollY(s),
                     ButtonStep(st, s, LeftButton), ButtonStep(st, s, RightButton),
                     KeyboardStep(st, s).fire, BackspaceStep(st, s, now).fire, EnterStep(st, s).fire);
  }

  // ---------------------------------------------------------------------------
  // The on-screen keyboard toggle's fallback chain

  datatype ToggleAttempt = ComToggle | LaunchTabTip

  /** The attempts made, and how many failures were reported to the console. */
  datatype ToggleOutcome = ToggleOutcome(attempts: seq<ToggleAttempt>, failuresReported: nat)

  /**
    What the toggle action does, given whether the COM call and the TabTip.exe
    launch would succeed: the launch is tried only after the COM call failed,
    every failure is reported, and nothing is retried.
   */
  function ToggleKeyboard(comSucceeds: bool, launchSucceeds: bool): (r: ToggleOutcome)
    ensures |r.attempts| >= 1 && r.attempts[0] == ComToggle
    ensures comSucceeds ==> r.attempts == [ComToggle]
    ensures !comSucceeds ==> r.attempts == [ComToggle, LaunchTabTip]
    ensures LaunchTabTip in r.attempts <==> !comSucceeds
    ensures r.failuresReported == 2 <==> !comSucceeds && !launchSucceeds
    ensures r.failuresReported == 0 <==> comSucceeds
    ensures r.failuresReported <= |r.attempts| <= 2
  {
    if comSucceeds then ToggleOutcome([ComToggle], 0)
    else if launchSucceeds then ToggleOutcome([ComToggle, LaunchTabTip], 1)
    else ToggleOutcome([ComToggle, LaunchTabTip], 2)
  }
}
