/** The breathing colour of both LED drivers. */
module Breathing {

  const TIMER_PERIOD := 20

  /** `|` on non-negative integers, bit by bit. */
  function BitOr(a: nat, b: nat): nat
    decreases a + b
  {
    if a == 0 && b == 0 then 0
    else (if a % 2 == 1 || b % 2 == 1 then 1 else 0) + 2 * BitOr(a / 2, b / 2)
  }

  function Pow2(k: nat): (p: nat)
    ensures p >= 1
  {
    if k == 0 then 1 else 2 * Pow2(k - 1)
  }

  /** Operands without a common bit are joined without a carry. */
  lemma {:induction false} OrIsSum(a: nat, b: nat, k: nat)
    requires b < Pow2(k)
    ensures BitOr(a * Pow2(k), b) == a * Pow2(k) + b
    decreases k
  {
    if k == 0 {
      OrZero(a);
    } else {
      var h := a * Pow2(k - 1);
      assert a * Pow2(k) == 2 * h;
      OrIsSum(a, b / 2, k - 1);
      assert (2 * h) / 2 == h && (2 * h) % 2 == 0;
    }
  }

  lemma {:induction false} OrZero(a: nat)
    ensures BitOr(a, 0) == a
  {
    if a > 0 {
      OrZero(a / 2);
    }
  }

  /** The 8-bit channel of a colour at a shift: `(c & (0xFF << shift)) >> shift`, for negative `int`s too. */
  function Channel(c: int, shift: nat): (v: nat)
    ensures v <= 255
  {
    (c / Pow2(shift)) % 256
  }

  /** The channel scaled to `now` of `half` steps, rounded down as C does for non-negative values. */
  function Scaled(target: nat, now: nat, half: nat): nat
    requires half > 0
  {
    target * now / half
  }

  /** The position in a period, folded at its middle: up to half the ticks, then down again. */
  function Folded(count: nat, ticks: nat): (now: nat)
    requires ticks >= 2
    ensures now <= ticks / 2
  {
    var now := count % ticks;
    if now > ticks / 2 then ticks - now else now
  }

  /** The size of `period / TIMER_PERIOD`, which C rounds towards zero. */
  function Ticks(period: int): nat {
    (if period < 0 then -period else period) / TIMER_PERIOD
  }

  /**
   * How far the colour has come. With a negative period the remainder of the count is not folded, as it
   * exceeds half the number of ticks, which is negative, and the signs of quotient and divisor cancel.
   */
  function Reached(count: nat, period: int): nat
    requires Ticks(period) >= 2
  {
    if period > 0 then Folded(count, Ticks(period)) else Ticks(period) + count % Ticks(period)
  }

  /** `led_effect_breath` */
  function Breath(colors: int, count: nat, period: int): int
    requires Ticks(period) >= 2
  {
    var now, half := Reached(count, period), Ticks(period) / 2;
    BitOr(BitOr(Scaled(Channel(colors, 16), now, half) * Pow2(16), Scaled(Channel(colors, 8), now, half) * Pow2(8)),
          Scaled(Channel(colors, 0), now, half))
  }

  lemma MulMonotone(x: int, y: int, d: nat)
    ensures x <= y ==> x * d <= y * d
  {
  }

  lemma DivMonotone(a: nat, b: nat, d: nat)
    requires a <= b && d > 0
    ensures a / d <= b / d
  {
    MulMonotone(b / d + 1, a / d, d);
  }

  lemma DivExact(a: nat, d: nat)
    requires d > 0
    ensures a * d / d == a
  {
    var q := a * d / d;
    MulMonotone(q + 1, a, d);
    MulMonotone(a + 1, q, d);
  }

  lemma ModSmall(k: nat, d: nat)
    requires k < d
    ensures k % d == k
  {
  }

  lemma ScaledBound(target: nat, now: nat, half: nat)
    requires half > 0 && now <= half
    ensures Scaled(target, now, half) <= target
    ensures Scaled(target, 0, half) == 0 && Scaled(target, half, half) == target
  {
    assert target * now <= target * half;
    DivMonotone(target * now, target * half, half);
    DivExact(target, half);
  }

  lemma Powers()
    ensures Pow2(0) == 1 && Pow2(8) == 256 && Pow2(16) == 65536
  {
    assert Pow2(4) == 16;
    assert Pow2(8) == 256;
    assert Pow2(12) == 4096;
  }

  /** Three bytes are packed without a carry, and each can be read back. */
  lemma Packed(r: nat, g: nat, b: nat)
    requires r <= 255 && g <= 255 && b <= 255
    ensures var c := BitOr(BitOr(r * Pow2(16), g * Pow2(8)), b);
      c == r * 65536 + g * 256 + b && Channel(c, 16) == r && Channel(c, 8) == g && Channel(c, 0) == b
  {
    hide BitOr, Pow2;
    Powers();
    OrIsSum(r, g * 256, 16);
    var rg := r * 256 + g;
    assert rg * Pow2(8) == r * 65536 + g * 256;
    OrIsSum(rg, b, 8);
  }

  /**
   * Every channel of the breathing colour is its target scaled to the folded position: at most the
   * target, no carry into the next channel, dark at the start of a period and full at its middle.
   */
  lemma BreathChannels(colors: int, count: nat, period: int, shift: nat)
    requires period / TIMER_PERIOD >= 2 && shift in {0, 8, 16}
    ensures var ticks, c := period / TIMER_PERIOD, Breath(colors, count, period);
      && 0 <= c < 0x1000000
      && Channel(c, shift) == Scaled(Channel(colors, shift), Folded(count, ticks), ticks / 2) <= Channel(colors, shift)
      && (count % ticks == 0 ==> c == 0)
      && (count % ticks == ticks / 2 ==> Channel(c, shift) == Channel(colors, shift))
  {
    var ticks := period / TIMER_PERIOD;
    var now, half := Folded(count, ticks), ticks / 2;
    forall s | s in {0, 8, 16}
      ensures Scaled(Channel(colors, s), now, half) <= Channel(colors, s)
      ensures Scaled(Channel(colors, s), 0, half) == 0 && Scaled(Channel(colors, s), half, half) == Channel(colors, s)
    {
      ScaledBound(Channel(colors, s), now, half);
    }
    Packed(Scaled(Channel(colors, 16), now, half), Scaled(Channel(colors, 8), now, half),
           Scaled(Channel(colors, 0), now, half));
  }

  /** The second half of a period mirrors the first, for odd and even numbers of ticks. */
  lemma BreathMirrors(colors: int, k: nat, period: int)
    requires period / TIMER_PERIOD >= 2 && 0 < k < period / TIMER_PERIOD
    ensures Breath(colors, k, period) == Breath(colors, period / TIMER_PERIOD - k, period)
  {
    hide BitOr, Scaled, Channel, Pow2;
    var ticks := period / TIMER_PERIOD;
    ModSmall(k, ticks);
    ModSmall(ticks - k, ticks);
    assert Folded(k, ticks) == Folded(ticks - k, ticks);
  }

  lemma ScaledIsLinear(target: nat, now: nat, half: nat)
    requires half > 0
    ensures var c := Scaled(target, now, half); half * c <= target * now < half * (c + 1)
  {
    var x := target * now;
    assert x == x / half * half + x % half;
  }

  /**
   * Between its ends the colour is linear, rounded down: in the first half every channel is to its
   * target as the count within the period to half the ticks, and in the second as what is left of it.
   */
  lemma BreathIsLinear(colors: int, count: nat, period: int, shift: nat)
    requires period / TIMER_PERIOD >= 2 && shift in {0, 8, 16}
    ensures var n, c, t := period / TIMER_PERIOD, Channel(Breath(colors, count, period), shift), Channel(colors, shift);
      var h, k := n / 2, count % n;
      && (k <= h ==> h * c <= t * k < h * (c + 1))
      && (k > h ==> h * c <= t * (n - k) < h * (c + 1))
  {
    hide Breath, Channel, Scaled;
    var n := period / TIMER_PERIOD;
    BreathChannels(colors, count, period, shift);
    ScaledIsLinear(Channel(colors, shift), Folded(count, n), n / 2);
  }

  lemma ScaledRises(target: nat, now: nat, half: nat)
    requires now < half
    ensures Scaled(target, now, half) <= Scaled(target, now + 1, half)
  {
    assert target * now <= target * (now + 1);
    DivMonotone(target * now, target * (now + 1), half);
  }

  /** Within the first half no channel gets darker. */
  lemma BreathRises(colors: int, k: nat, period: int, shift: nat)
    requires period / TIMER_PERIOD >= 2 && k < period / TIMER_PERIOD / 2 && shift in {0, 8, 16}
    ensures Channel(Breath(colors, k, period), shift) <= Channel(Breath(colors, k + 1, period), shift)
  {
    hide Breath, Channel, Scaled;
    var n := period / TIMER_PERIOD;
    BreathChannels(colors, k, period, shift);
    BreathChannels(colors, k + 1, period, shift);
    ModSmall(k, n);
    ModSmall(k + 1, n);
    ScaledRises(Channel(colors, shift), k, n / 2);
  }

  /** The three channels of any `int` are the bytes of its lowest 24 bits. */
  lemma ChannelsAreBytes(c: int)
    ensures c % 0x1000000 == Channel(c, 16) * 65536 + Channel(c, 8) * 256 + Channel(c, 0)
  {
    hide Pow2;
    Powers();
    var a := c / 256;
    var b := a / 256;
    assert c == 256 * a + c % 256 && a == 256 * b + a % 256 && b == 256 * (b / 256) + b % 256;
    assert c / 65536 == b && c / 1 == c;
  }

  /** The colour repeats with the period, so the driver that reduces `count` shows what one that does not would show. */
  lemma BreathPeriodic(colors: int, count: nat, period: int)
    requires Ticks(period) >= 2
    ensures Breath(colors, count % Ticks(period), period) == Breath(colors, count, period)
  {
    hide BitOr, Scaled, Channel, Pow2, Ticks;
    ModSmall(count % Ticks(period), Ticks(period));
    assert Reached(count % Ticks(period), period) == Reached(count, period);
  }

  /** With a negative period every channel, before it is packed, is at least twice its target. */
  lemma BreathPastTarget(target: nat, count: nat, period: int)
    requires period <= -2 * TIMER_PERIOD
    ensures Scaled(target, Reached(count, period), Ticks(period) / 2) >= 2 * target
  {
    var now, half := Reached(count, period), Ticks(period) / 2;
    assert 2 * half <= now;
    MulMonotone(2 * half, now, target);
    assert 2 * target * half == 2 * half * target <= now * target == target * now;
    DivMonotone(2 * target * half, target * now, half);
    DivExact(2 * target, half);
  }

  /** What C makes of a negative period: the count within it adds to the ticks of a whole one. */
  lemma BreathOfNegative(colors: int, count: nat, period: int)
    requires period <= -2 * TIMER_PERIOD
    ensures var n := -period / TIMER_PERIOD;
      var now, half := n + count % n, n / 2;
      Breath(colors, count, period) ==
        BitOr(BitOr(Scaled(Channel(colors, 16), now, half) * 65536, Scaled(Channel(colors, 8), now, half) * 256),
              Scaled(Channel(colors, 0), now, half))
  {
    hide BitOr, Channel, Scaled, Pow2;
    Powers();
  }

  /** Counting on from a reduced count stays in step with counting without reduction. */
  lemma CountStaysInStep(count: nat, n: nat, ticks: nat)
    requires ticks >= 2 && count % ticks == n % ticks
    ensures (count % ticks + 1) % ticks == (n + 1) % ticks
  {
    var q, r := n / ticks, n % ticks;
    assert n == q * ticks + r;
    if r + 1 == ticks {
      assert n + 1 == (q + 1) * ticks;
      ModOf(q + 1, 0, ticks);
      ModOf(1, 0, ticks);
    } else {
      ModOf(q, r + 1, ticks);
      ModSmall(r + 1, ticks);
    }
  }

  lemma ModOf(q: nat, r: nat, d: nat)
    requires r < d
    ensures (q * d + r) % d == r
  {
    var x := q * d + r;
    var p := x / d;
    assert x == p * d + x % d;
    MulMonotone(p + 1, q, d);
    MulMonotone(q + 1, p, d);
  }

  const INT_MAX := 0x7FFF_FFFF

  /** The products stay in a 32-bit `int` for every colour exactly when half a period has at most 8421504 ticks. */
  lemma BreathFitsInt(period: int)
    requires period / TIMER_PERIOD >= 2
    ensures var half := period / TIMER_PERIOD / 2;
      (forall target: nat, now: nat :: target <= 255 && now <= half ==> target * now <= INT_MAX) <==> half <= 8421504
  {
    var half := period / TIMER_PERIOD / 2;
    if half <= 8421504 {
      forall target: nat, now: nat | target <= 255 && now <= half
        ensures target * now <= INT_MAX
      {
        assert target * now <= 255 * now;
      }
    } else {
      assert 255 * half > INT_MAX;
    }
  }
}
