/**
  Whole runs of the polling loop: a sequence of samples, each with the clock
  time it was read at, fed through `Tick` one after the other. The lemmas here
  are the promises that span many ticks: strictly alternating mouse buttons,
  one firing per press of a latched button, and the backspace cooldown.
 */
module Runs {
  import opened Gamepad
  import opened Mapping

  /** One poll: the sample read and the clock (in 100 ns ticks) at that moment. */
  datatype Input = Input(sample: Sample, now: int)

  /** The state after, and every action of, feeding `inputs` in order from state `st`. */
  function Trace(st: SessionState, inputs: seq<Input>): (r: TickResult)
    ensures r.next.lastPacket == if inputs == [] then st.lastPacket else inputs[|inputs| - 1].sample.packetNumber
    decreases |inputs|
  {
    if inputs == [] then TickResult(st, [])
    else
      var prefix := Trace(st, inputs[..|inputs| - 1]);
      var last := inputs[|inputs| - 1];
      var t := Tick(prefix.next, last.sample, last.now);
      TickResult(t.next, prefix.actions + t.actions)
  }

  lemma TraceSnoc(st: SessionState, inputs: seq<Input>, x: Input)
    ensures var p := Trace(st, inputs);
      var t := Tick(p.next, x.sample, x.now);
      Trace(st, inputs + [x]) == TickResult(t.next, p.actions + t.actions)
  {
    assert (inputs + [x])[..|inputs|] == inputs;
  }

  // ---------------------------------------------------------------------------
  // Mouse buttons alternate

  /** Starting from button state `start`, the events flip it every time: the first is `!start`. */
  predicate Alternates(e: seq<bool>, start: bool) {
    forall i :: 0 <= i < |e| ==> e[i] == ((i % 2 == 0) != start)
  }

  /**
    Over any run, each side's down/up events strictly alternate (from a released
    button: down first), and the button state afterwards is the last event emitted.
   */
  lemma {:induction false} TraceAlternates(st: SessionState, inputs: seq<Input>, side: Side)
    ensures var r := Trace(st, inputs);
      var e := Edges(r.actions, side);
      && Alternates(e, IsDown(st, side))
      && IsDown(r.next, side) == if e == [] then IsDown(st, side) else e[|e| - 1]
    decreases |inputs|
  {
    if inputs != [] {
      TraceAlternates(st, inputs[..|inputs| - 1], side);
      LastTickFlipsOrKeeps(st, inputs, side);
      var e := Edges(Trace(st, inputs[..|inputs| - 1]).actions, side);
      if Edges(Trace(st, inputs).actions, side) != e {
        AlternatesSnoc(e, IsDown(st, side));
      }
    }
  }

  /** The last poll of a run either leaves `side` alone or emits the one event that flips it. */
  lemma LastTickFlipsOrKeeps(st: SessionState, inputs: seq<Input>, side: Side)
    requires inputs != []
    ensures var p := Trace(st, inputs[..|inputs| - 1]);
      var r := Trace(st, inputs);
      var e := Edges(p.actions, side);
      || (Edges(r.actions, side) == e && IsDown(r.next, side) == IsDown(p.next, side))
      || (Edges(r.actions, side) == e + [!IsDown(p.next, side)] && IsDown(r.next, side) == !IsDown(p.next, side))
  {
    var p := Trace(st, inputs[..|inputs| - 1]);
    var x := inputs[|inputs| - 1];
    var t := Tick(p.next, x.sample, x.now);
    EdgesAppend(p.actions, t.actions, side);
    if Changed(p.next, x.sample) {
      TickHysteresis(p.next, x.sample, x.now, side);
    } else {
      UnchangedTickIsSilent(p.next, x.sample, x.now);
    }
  }

  lemma AlternatesSnoc(e: seq<bool>, start: bool)
    requires Alternates(e, start)
    ensures Alternates(e + [!LastOr(e, start)], start)
  {
  }

  /** From a fresh session, each button's events run down, up, down, up, ... */
  lemma FreshRunStartsWithDown(firstPacket: int, inputs: seq<Input>, side: Side)
    ensures var e := Edges(Trace(Initial(firstPacket), inputs).actions, side);
      forall i :: 0 <= i < |e| ==> e[i] == (i % 2 == 0)
  {
    TraceAlternates(Initial(firstPacket), inputs, side);
  }

  // ---------------------------------------------------------------------------
  // Latched buttons fire once per press

  /**
    The button bit of each sample that carries a new packet number, in order;
    the first input is compared with `firstPacket`, every later one with the
    input before it.
   */
  function ChangedBits(firstPacket: int, inputs: seq<Input>, flag: ButtonFlags): seq<bool>
    decreases |inputs|
  {
    if inputs == [] then []
    else
      var init := inputs[..|inputs| - 1];
      var last := inputs[|inputs| - 1].sample;
      var before := if init == [] then firstPacket else init[|init| - 1].sample.packetNumber;
      ChangedBits(firstPacket, init, flag) + (if last.packetNumber != before then [HasFlag(last.buttons, flag)] else [])
  }

  lemma ChangedBitsSnoc(firstPacket: int, inputs: seq<Input>, x: Input, flag: ButtonFlags)
    ensures var before := if inputs == [] then firstPacket else inputs[|inputs| - 1].sample.packetNumber;
      ChangedBits(firstPacket, inputs + [x], flag)
        == ChangedBits(firstPacket, inputs, flag)
         + (if x.sample.packetNumber != before then [HasFlag(x.sample.buttons, flag)] else [])
  {
    assert (inputs + [x])[..|inputs|] == inputs;
  }

  function LastOr(bits: seq<bool>, otherwise: bool): bool {
    if bits == [] then otherwise else bits[|bits| - 1]
  }

  /** The number of presses in `bits`: positions where the bit is set and the one before was not. */
  function Presses(bits: seq<bool>, heldBefore: bool): nat
    decreases |bits|
  {
    if bits == [] then 0
    else
      var init := bits[..|bits| - 1];
      Presses(init, heldBefore) + (if bits[|bits| - 1] && !LastOr(init, heldBefore) then 1 else 0)
  }

  /**
    Over any run, a latched button fires exactly once per press seen on changed
    samples, however long it is held; the latch afterwards is the last bit seen.
   */
  lemma {:induction false} TraceLatch(st: SessionState, inputs: seq<Input>, b: LatchedButton)
    ensures var r := Trace(st, inputs);
      var bits := ChangedBits(st.lastPacket, inputs, LatchButton(b));
      && Count(r.actions, LatchAction(b)) == Presses(bits, LatchHeld(st, b))
      && LatchHeld(r.next, b) == LastOr(bits, LatchHeld(st, b))
    decreases |inputs|
  {
    if inputs != [] {
      var init := inputs[..|inputs| - 1];
      var x := inputs[|inputs| - 1];
      assert inputs == init + [x];
      TraceSnoc(st, init, x);
      TraceLatch(st, init, b);
      var p := Trace(st, init);
      var t := Tick(p.next, x.sample, x.now);
      CountAppend(p.actions, t.actions, LatchAction(b));
      TickLatch(p.next, x.sample, x.now, b);
      var bits := ChangedBits(st.lastPacket, init, LatchButton(b));
      ChangedBitsSnoc(st.lastPacket, init, x, LatchButton(b));
      PressesExtend(bits, LatchHeld(st, b), Changed(p.next, x.sample), HasFlag(x.sample.buttons, LatchButton(b)));
    }
  }

  lemma PressesExtend(bits: seq<bool>, heldBefore: bool, changed: bool, pressed: bool)
    ensures var bits' := bits + (if changed then [pressed] else []);
      && Presses(bits', heldBefore)
         == Presses(bits, heldBefore) + (if changed && pressed && !LastOr(bits, heldBefore) then 1 else 0)
      && LastOr(bits', heldBefore) == if changed then pressed else LastOr(bits, heldBefore)
  {
    var bits' := bits + (if changed then [pressed] else []);
    if changed {
      assert bits'[..|bits'| - 1] == bits;
    } else {
      assert bits' == bits;
    }
  }

  /** A press held over any number of changed samples fires once (none if it was already latched). */
  lemma {:induction false} HeldPressFiresOnce(bits: seq<bool>, heldBefore: bool)
    requires |bits| > 0 && forall i :: 0 <= i < |bits| ==> bits[i]
    ensures Presses(bits, heldBefore) == if heldBefore then 0 else 1
    decreases |bits|
  {
    if |bits| > 1 {
      HeldPressFiresOnce(bits[..|bits| - 1], heldBefore);
    }
  }

  /** A release resets the latch: what follows it counts as if from a released button. */
  lemma {:induction false} ReleaseResetsLatch(before: seq<bool>, after: seq<bool>, heldBefore: bool)
    ensures Presses(before + [false] + after, heldBefore) == Presses(before, heldBefore) + Presses(after, false)
    decreases |after|
  {
    var all := before + [false] + after;
    if after == [] {
      assert all[..|all| - 1] == before;
    } else {
      var init := after[..|after| - 1];
      assert all[..|all| - 1] == before + [false] + init;
      ReleaseResetsLatch(before, init, heldBefore);
      assert LastOr(before + [false] + init, heldBefore) == LastOr(init, false);
    }
  }

  // ---------------------------------------------------------------------------
  // Backspace cooldown

  /** The clock times at which backspace fired during the run. */
  function BackspaceTimes(st: SessionState, inputs: seq<Input>): seq<int>
    decreases |inputs|
  {
    if inputs == [] then []
    else
      var init := inputs[..|inputs| - 1];
      var x := inputs[|inputs| - 1];
      var t := Tick(Trace(st, init).next, x.sample, x.now);
      BackspaceTimes(st, init) + (if Count(t.actions, KeyPress(VK_BACK)) > 0 then [x.now] else [])
  }

  /**
    The Backspace promises of a run from `st`: every firing is more than the
    cooldown after the previous one (the first after the recorded time), every
    firing is counted in the trace, and the record ends at the last firing.
   */
  predicate SpacedRun(st: SessionState, inputs: seq<Input>) {
    var times := BackspaceTimes(st, inputs);
    var r := Trace(st, inputs);
    && (forall k :: 0 < k < |times| ==> times[k] > times[k - 1] + BACKSPACE_COOLDOWN_TICKS)
    && (|times| > 0 ==> times[0] > st.backSpaceButtonLastPressed + BACKSPACE_COOLDOWN_TICKS)
    && Count(r.actions, KeyPress(VK_BACK)) == |times|
    && r.next.backSpaceButtonLastPressed == if times == [] then st.backSpaceButtonLastPressed else times[|times| - 1]
  }

  /** While B stays down, backspace fires at most once per cooldown. */
  lemma {:induction false} BackspaceSpacing(st: SessionState, inputs: seq<Input>)
    requires forall i :: 0 <= i < |inputs| ==> HasFlag(inputs[i].sample.buttons, BACKSPACE_BUTTON)
    ensures SpacedRun(st, inputs)
    decreases |inputs|
  {
    if inputs != [] {
      BackspaceSpacing(st, inputs[..|inputs| - 1]);
      SpacedRunSnoc(st, inputs);
    }
  }

  /** A run with B held on its last poll stays spaced if it was before that poll. */
  lemma SpacedRunSnoc(st: SessionState, inputs: seq<Input>)
    requires inputs != [] && HasFlag(inputs[|inputs| - 1].sample.buttons, BACKSPACE_BUTTON)
    requires SpacedRun(st, inputs[..|inputs| - 1])
    ensures SpacedRun(st, inputs)
  {
    HeldBackspaceStep(st, inputs);
    var before := BackspaceTimes(st, inputs[..|inputs| - 1]);
    if BackspaceTimes(st, inputs) != before {
      SpacedSnoc(before, inputs[|inputs| - 1].now, st.backSpaceButtonLastPressed);
    }
  }

  /** A firing more than the cooldown after the last one keeps the firing times spaced. */
  lemma SpacedSnoc(times: seq<int>, t: int, start: int)
    requires forall k :: 0 < k < |times| ==> times[k] > times[k - 1] + BACKSPACE_COOLDOWN_TICKS
    requires |times| > 0 ==> times[0] > start + BACKSPACE_COOLDOWN_TICKS
    requires t > (if times == [] then start else times[|times| - 1]) + BACKSPACE_COOLDOWN_TICKS
    ensures var all := times + [t];
      && (forall k :: 0 < k < |all| ==> all[k] > all[k - 1] + BACKSPACE_COOLDOWN_TICKS)
      && all[0] > start + BACKSPACE_COOLDOWN_TICKS
  {
  }

  /** The last poll of a run with B held: it fires only past the cooldown, and then adds one time, one Backspace and a new record. */
  lemma HeldBackspaceStep(st: SessionState, inputs: seq<Input>)
    requires inputs != [] && HasFlag(inputs[|inputs| - 1].sample.buttons, BACKSPACE_BUTTON)
    ensures var p := Trace(st, inputs[..|inputs| - 1]);
      var x := inputs[|inputs| - 1];
      var r := Trace(st, inputs);
      var fire := Count(Tick(p.next, x.sample, x.now).actions, KeyPress(VK_BACK)) > 0;
      && BackspaceTimes(st, inputs) == BackspaceTimes(st, inputs[..|inputs| - 1]) + (if fire then [x.now] else [])
      && Count(r.actions, KeyPress(VK_BACK)) == Count(p.actions, KeyPress(VK_BACK)) + (if fire then 1 else 0)
      && r.next.backSpaceButtonLastPressed == (if fire then x.now else p.next.backSpaceButtonLastPressed)
      && (fire ==> x.now > p.next.backSpaceButtonLastPressed + BACKSPACE_COOLDOWN_TICKS)
  {
    var p := Trace(st, inputs[..|inputs| - 1]);
    var x := inputs[|inputs| - 1];
    var t := Tick(p.next, x.sample, x.now);
    CountAppend(p.actions, t.actions, KeyPress(VK_BACK));
    TickBackspace(p.next, x.sample, x.now);
  }
}
