/**
  The controller side of SuperGamerMouse: what one XInput poll delivers, the
  tuning constants of the mapping, and C#'s integer division.
 */
module Gamepad {

  /** A thumb-stick axis: a signed 16-bit reading. */
  type Thumb = v: int | -32768 <= v <= 32767

  /** An analog trigger: an unsigned 8-bit reading. */
  type TriggerLevel = v: int | 0 <= v <= 255

  /** The digital buttons as XInput's 16-bit flag word. */
  type ButtonFlags = bv16

  /** One controller state: the packet number changes only when the device state changes. */
  datatype Sample = Sample(
    packetNumber: int,
    leftThumbX: Thumb,
    leftThumbY: Thumb,
    rightThumbX: Thumb,
    rightThumbY: Thumb,
    leftTrigger: TriggerLevel,
    rightTrigger: TriggerLevel,
    buttons: ButtonFlags)

  // Tuning constants of the mapping
  /** The sleep between polls in ms; only the sleep uses it, and the sleep is not modelled. */
  const POLLING_RATE := 10
  const TRIGGER_UPPER_CUTOFF := 255
  const TRIGGER_LOWER_CUTOFF := 55
  const LEFT_THUMB_DIVISOR := 300
  const RIGHT_THUMB_DIVISOR := 300
  const BACKSPACE_BUTTON_COOLDOWN_MS := 80

  /** .NET clock ticks are 100 ns, so 10,000 of them make a millisecond. */
  const TICKS_PER_MILLISECOND := 10000
  const BACKSPACE_COOLDOWN_TICKS := BACKSPACE_BUTTON_COOLDOWN_MS * TICKS_PER_MILLISECOND

  // XInput button flags and their bindings
  const BUTTON_A: ButtonFlags := 0x1000
  const BUTTON_B: ButtonFlags := 0x2000
  const BUTTON_X: ButtonFlags := 0x4000

  const KEYBOARD_BUTTON := BUTTON_X
  const BACKSPACE_BUTTON := BUTTON_B
  const ENTER_BUTTON := BUTTON_A

  // Windows virtual-key codes
  const VK_BACK: bv8 := 0x08
  const VK_RETURN: bv8 := 0x0D

  /** Enum.HasFlag: every bit of `flag` is set in `buttons`. */
  predicate HasFlag(buttons: ButtonFlags, flag: ButtonFlags) {
    buttons & flag == flag
  }

  /**
    The three bound buttons are distinct single bits: pressing a button always
    registers, releasing it always clears it, and toggling another bound button
    never changes what this one reads.
   */
  lemma BindingsIndependent(buttons: ButtonFlags, flag: ButtonFlags, other: ButtonFlags)
    requires flag == KEYBOARD_BUTTON || flag == BACKSPACE_BUTTON || flag == ENTER_BUTTON
    requires other == KEYBOARD_BUTTON || other == BACKSPACE_BUTTON || other == ENTER_BUTTON
    requires other != flag
    ensures HasFlag(buttons | flag, flag)
    ensures !HasFlag(buttons & !flag, flag)
    ensures HasFlag(buttons ^ other, flag) <==> HasFlag(buttons, flag)
    ensures HasFlag(buttons, flag) <==> buttons & flag != 0
  {
    assert (buttons ^ other) & flag == buttons & flag by {
      assert other & flag == 0;
    }
  }

  /**
    C#'s `/` on int, which truncates toward zero (Dafny's `/` is Euclidean).
    The quotient is the largest multiple of `d` between 0 and `n`, counted in units of `d`.
   */
  function TruncDiv(n: int, d: int): (q: int)
    requires d > 0
    ensures 0 <= n ==> 0 <= q * d <= n < q * d + d
    ensures n < 0 ==> q * d - d < n <= q * d <= 0
  {
    if n >= 0 then
      EuclideanBounds(n, d);
      n / d
    else
      EuclideanBounds(-n, d);
      -((-n) / d)
  }

  lemma EuclideanBounds(m: int, d: int)
    requires m >= 0 && d > 0
    ensures 0 <= (m / d) * d <= m < (m / d) * d + d
  {
    assert m == (m / d) * d + m % d;
    assert m / d >= 0;
  }

  /** The bounds above pin the quotient down: TruncDiv is the only function meeting them. */
  lemma TruncDivUnique(n: int, d: int, q: int)
    requires d > 0
    requires 0 <= n ==> 0 <= q * d <= n < q * d + d
    requires n < 0 ==> q * d - d < n <= q * d <= 0
    ensures q == TruncDiv(n, d)
  {
    var t := TruncDiv(n, d);
    if q < t {
      MultiplyMonotone(q + 1, t, d);
    } else if t < q {
      MultiplyMonotone(t + 1, q, d);
    }
  }

  lemma MultiplyMonotone(a: int, b: int, d: int)
    requires a <= b && d > 0
    ensures a * d <= b * d
  {
    assert b * d - a * d == (b - a) * d;
  }

  /** Truncation is symmetric about zero, which Euclidean division is not. */
  lemma TruncDivNegate(n: int, d: int)
    requires d > 0
    ensures TruncDiv(-n, d) == -TruncDiv(n, d)
  {
  }

  /** Integer division is the only dead zone: readings strictly inside (-d, d) give 0. */
  lemma TruncDivZero(n: int, d: int)
    requires d > 0
    ensures TruncDiv(n, d) == 0 <==> -d < n < d
  {
    var q := TruncDiv(n, d);
    if q > 0 {
      MultiplyMonotone(1, q, d);
    } else if q < 0 {
      MultiplyMonotone(q, -1, d);
    }
  }

  /**
    The cursor's Y delta is the stick's Y negated, since screen Y grows downward:
    a full divisor up moves one pixel up, a full divisor down one pixel down,
    and anything strictly inside the divisor does not move.
   */
  lemma InvertedAxis(y: int, d: int)
    requires d > 0
    ensures y == d ==> TruncDiv(-y, d) == -1
    ensures y == -d ==> TruncDiv(-y, d) == 1
    ensures TruncDiv(-y, d) == 0 <==> -d < y < d
    ensures y > 0 ==> TruncDiv(-y, d) <= 0
    ensures y < 0 ==> TruncDiv(-y, d) >= 0
  {
    TruncDivZero(-y, d);
    if y == d {
      TruncDivUnique(-y, d, -1);
    } else if y == -d {
      TruncDivUnique(-y, d, 1);
    }
  }
}
