# SuperGamerMouse input mapping, in Dafny

SuperGamerMouse turns an Xbox controller into a mouse and keyboard. Its whole
behaviour is the polling loop in `Main`. Every 10 ms it reads the controller
state. When the packet number has changed since the last poll, it does these
things in order:

- moves the cursor by the left stick divided by 300, with Y inverted;
- clicks the left mouse button with the right trigger and the right button with the left trigger, using a hysteresis band (press at 255, release at 55);
- scrolls by the right stick's Y divided by 300;
- toggles the on-screen keyboard once per press of X;
- sends Backspace on B, repeating at most once every 80 ms while B is held;
- sends Enter once per press of A.

The model has four modules:

- `Gamepad` (`gamepad.dfy`): a controller sample, the tuning constants and C#'s truncating integer division `TruncDiv`.
- `Mapping` (`mapping.dfy`): one poll as a pure function `Tick(state, sample, now)`. It returns the new session state and the ordered list of abstract actions. It is built from the parts of the loop body: `Hysteresis` for each trigger, `Latch` for X and A, `Cooldown` for B. Lemmas state what a single poll promises.
- `Runs` (`runs.dfy`): `Trace` feeds a sequence of `(sample, now)` polls through `Tick`. Lemmas state what whole runs promise: the mouse buttons strictly alternate, each latched button fires once per press, and Backspace keeps its cooldown.
- `Driver` (`driver.dfy`): the loop as it runs. The class `Session` holds the loop's locals as fields. `Step` handles one poll statement by statement. `Drive` is the `while` loop over the polls. `Connected` covers a whole connection from a fresh session. `Step` and `Drive` are proved equal to `Tick` and `Trace`, so every lemma about those also holds for the running loop.

The operating-system calls become abstract actions:

- `MoveCursor(dx, dy)` stands for reading the cursor position and setting it `dx`, `dy` further.
- `MouseButton` and `Wheel` stand for `mouse_event`. They carry the cursor delta as coordinates, as the source passes it.
- `KeyPress(vk)` stands for `keyPress`: a key-down followed by a key-up.
- `ToggleOnScreenKeyboard` stands for the whole on-screen keyboard toggle with its fallback.

The clock `DateTime.UtcNow.Ticks` becomes the `now` input of each poll. The button flags take XInput's values: A = 0x1000, B = 0x2000, X = 0x4000.

## Model

| member | source | states |
|---|---|---|
| `Gamepad.HasFlag` | Program.cs:200 | `Enum.HasFlag`: every bit of the flag is set. It has no contract of its own; `Gamepad.BindingsIndependent` states what the bindings rely on |
| `Gamepad.BindingsIndependent` | Program.cs:65-67 | X, B and A are distinct single bits: a held button always reads as pressed, a released one as not, and another bound button never changes what this one reads |
| `Gamepad.TruncDiv` | Program.cs:138-139 | C# `int` division: the quotient times the divisor lies between 0 and the dividend, within one divisor of it (truncation toward zero, not Euclidean) |
| `Gamepad.TruncDivUnique` | Program.cs:138-139 | those bounds determine the quotient uniquely, so `TruncDiv` is the C# operator for every input |
| `Gamepad.TruncDivNegate` | Program.cs:139 | truncating division is odd: `-n / d == -(n / d)` |
| `Gamepad.TruncDivZero` | Program.cs:138-139 | the quotient is 0 exactly when the reading is strictly inside (-d, d): integer division is the only dead zone |
| `Gamepad.InvertedAxis` | Program.cs:139 | stick Y = 300 moves the cursor 1 up (-1), Y = -300 moves it 1 down (+1), \|Y\| < 300 does not move it, and the sign is always opposite to the stick's |
| `Mapping.Initial` | Program.cs:113-122 | a new session remembers the first packet number, has both buttons released, both latches open and the backspace record at 0 |
| `Mapping.Hysteresis` | Program.cs:153-162 | one trigger step: only a released button is pressed and only a pressed one released; at or above 255 the button ends down, at or below 55 it ends up, in between nothing happens (the same code for the right button is at Program.cs:166-175) |
| `Mapping.Latch` | Program.cs:200-237 | the latch afterwards equals the button bit, and it fires exactly when the bit is set and the latch was open (the same code for Enter is at Program.cs:257-268) |
| `Mapping.Cooldown` | Program.cs:242-253 | fires iff the button is held and `now > last + 80 ms`; firing records `now`; a held button that does not fire keeps the record; a released one resets it to 0 |
| `Mapping.Changed` | Program.cs:128 | the packet number differs from the previous one. It has no contract of its own; `Mapping.UnchangedTickIsSilent` and `Mapping.TickRecordsPacket` state what it decides |
| `Mapping.Tick` | Program.cs:127-272 | one loop pass, built from `Hysteresis`, `Latch` and `Cooldown` and the parts in dispatch order. It has no contract of its own; what it promises is stated by `TickRecordsPacket`, `UnchangedTickIsSilent`, `TickCursor`, `TickEdges`, `TickHysteresis`, `TickCount`, `TickLatch`, `TickBackspace`, `TickWheel` and `TickOrder` |
| `Mapping.UnchangedTickIsSilent` | Program.cs:128-272 | a poll with the same packet number emits nothing and leaves every flag and the timestamp unchanged |
| `Mapping.TickRecordsPacket` | Program.cs:272 | every poll records its packet number; an unchanged poll emits nothing, and a changed one starts with the cursor move and contains a wheel event |
| `Mapping.TickCursor` | Program.cs:133-149 | a changed poll first moves the cursor by (x / 300, -(y / 300)), truncating; every mouse_event of the poll carries that delta |
| `Mapping.TickEdges` | Program.cs:151-175 | a changed poll's events for one side are exactly those of that side's trigger machine, and the flag is that machine's new state |
| `Mapping.TickHysteresis` | Program.cs:153-175 | down iff trigger >= 255 and the button is up; up iff trigger <= 55 and it is down; at most one event per side; the flag equals the event; inside (55, 255) no event and no change |
| `Mapping.TriggerCrossMapping` | Program.cs:151-175 | the left button's events and flag do not depend on the left trigger, and the right button's do not depend on the right trigger |
| `Mapping.TickCount` | Program.cs:198-268 | a changed poll emits the keyboard toggle, Backspace and Enter each once if its own part fires and never otherwise |
| `Mapping.TickLatch` | Program.cs:200-268 | X toggles the keyboard and A presses Enter exactly when a changed poll shows the bit and the latch is open; afterwards the latch equals the bit; unchanged polls keep it |
| `Mapping.TickBackspace` | Program.cs:242-253 | Backspace fires iff a changed poll shows B and `now > last + 80 ms`; firing records `now`; a changed poll without B resets the record to 0; otherwise it stays |
| `Mapping.BackspaceReleaseRearms` | Program.cs:250-253 | after a poll with B released, the next changed poll with B fires as soon as the clock is past the cooldown |
| `Mapping.TickWheel` | Program.cs:179-190 | a changed poll emits a wheel event of amount rightY / 300 (truncating) at the cursor delta, and no other wheel event |
| `Mapping.ScrollXIgnored` | Program.cs:179-190 | the right stick's X changes nothing in any poll: the horizontal scroll is never emitted |
| `Mapping.TickOrder` | Program.cs:146-268 | a changed poll's actions follow the fixed order cursor, left button, right button, wheel, keyboard, Backspace, Enter, each at most once; it starts with the cursor move and contains a wheel event |
| `Mapping.ToggleKeyboard` | Program.cs:205-228 | the toggle makes the COM call exactly once; it launches TabTip.exe, once, iff that failed, and nothing is retried; it reports two failures iff both failed and none iff the COM call worked |
| `Runs.Trace` | Program.cs:124-274 | after a run, the remembered packet number is the last poll's, or the initial one for an empty run |
| `Runs.TraceAlternates` | Program.cs:151-175 | over any run, each side's down/up events strictly alternate starting from the initial flag, and the final flag is the last event emitted |
| `Runs.FreshRunStartsWithDown` | Program.cs:115-175 | from a new session, each button's events run down, up, down, up, ... |
| `Runs.TraceLatch` | Program.cs:200-268 | over any run, the keyboard toggle and Enter fire exactly once per rising edge of their bit over the changed polls; the latch ends at the last bit seen |
| `Runs.HeldPressFiresOnce` | Program.cs:200-237 | a button held over any number of changed polls fires once, or not at all if it was already latched |
| `Runs.ReleaseResetsLatch` | Program.cs:234-237 | a changed poll with the bit clear resets the latch: later presses count as from a released button |
| `Runs.BackspaceSpacing` | Program.cs:242-253 | while B stays held, each Backspace comes more than 80 ms after the previous one (the first after the recorded time); the trace has one Backspace per firing time; the record ends at the last firing |
| `Driver.Session.constructor` | Program.cs:113-122 | the session's fields start as `Initial` of the first packet number |
| `Driver.Session.Step` | Program.cs:127-272 | one loop pass dispatches exactly `Tick`'s actions and leaves the fields equal to `Tick`'s new state |
| `Driver.Session.ClickLeft` | Program.cs:151-162 | the right trigger's hysteresis step on `isMouseDownLeft` and its left-button event |
| `Driver.Session.ClickRight` | Program.cs:164-175 | the left trigger's hysteresis step on `isMouseDownRight` and its right-button event |
| `Driver.Session.OnScreenKeyboardButton` | Program.cs:198-237 | the X latch step on `isOnScreenKeyboardButtonDown` and its toggle |
| `Driver.Session.BackspaceButton` | Program.cs:239-253 | the B cooldown step on `backSpaceButtonLastPressed` and its Backspace |
| `Driver.Session.EnterButton` | Program.cs:255-268 | the A latch step on `isEnterButtonDown` and its Enter |
| `Driver.Session.Drive` | Program.cs:124-274 | the loop over the polls dispatches `Trace`'s actions and ends in its state; its buttons alternate and its latched buttons fire once per press |
| `Driver.Connected` | Program.cs:113-274 | a whole connection from a new session: the trace starts each button with a down, and X and A fire once per press |

## Left out

- The operating-system calls `SetCursorPos`, `GetCursorPos`, `mouse_event` and `keybd_event` (Program.cs:21-50) are foreign. They become abstract actions. The absolute cursor position is read from the system, so only the relative move is modelled.
- The `(uint)` casts of the deltas (Program.cs:141-142, 185-186) only reinterpret the bits for the foreign call. Actions carry the signed values.
- The on-screen keyboard toggle (Program.cs:69-83, 205-228) goes through COM and a process launch. It is one action, `ToggleOnScreenKeyboard`. `Mapping.ToggleKeyboard` describes its fallback chain as a function of whether each attempt would succeed. `Tick` does not take those outcomes as input, so the latch is set whatever they are, as at Program.cs:230.
- Console output and `error` (Program.cs:91-96, 100, 106, 110-111) are I/O. `Mapping.ToggleKeyboard` counts the failures reported but not their text.
- The connect-and-wait loop, `controller.IsConnected`, `GetState` and `Thread.Sleep` (Program.cs:102-108, 124, 127, 273) are device I/O and timing. Polls are the inputs of `Tick`, `Trace` and `Drive`. A run is a finite sequence of polls; a disconnection is the end of that sequence.
- Mapping.TickBackspace: the source reads the clock twice, once for the comparison (Program.cs:244) and once for the record (Program.cs:248). The model uses one `now` for both. Values that differ by a few clock ticks are not captured.
- The clock is an unbounded integer. The 64-bit `long` arithmetic `last + 800000` cannot overflow for real clock values, which are below 2^62.
- The arrow-key constants and `ARROW_BUTTONS_COOLDOWN_MS` (Program.cs:44-47, 61) are declared but never used.
- Runs.BackspaceSpacing: only the minimum spacing between repeats is proved. A count of exactly floor(D / C) + 1 firings for a hold of length D is not claimed: the count depends on the instants at which polls happen, because a firing needs a poll strictly after the cooldown has passed. A firing also needs a poll whose packet number has changed (Program.cs:128): while B is held and nothing else on the controller changes, no poll is processed, so Backspace does not repeat at all. The model keeps this behaviour, since `Tick` skips every unchanged poll.
