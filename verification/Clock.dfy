/** The millisecond clock and the runtime delay that is printed from it. */
module Clock {
  import opened Bytes

  const TWO32 := 0x1_0000_0000

  /** Ticks of `q` milliseconds, `cps` of them a second. */
  ghost predicate Rates(q: int, cps: int) {
    q > 0 && cps > 0 && q * cps == 1000
  }

  class Timer {
    var msSinceBoot: word
    ghost var boot: nat

    /** The counter is the true time, modulo 2^32. */
    ghost predicate Valid()
      reads this
    {
      msSinceBoot == boot % TWO32
    }

    constructor ()
      ensures Valid() && boot == 0
    {
      msSinceBoot, boot := 0, 0;
    }

    method SysTickHandler()
      requires Valid()
      modifies this
      ensures Valid() && boot == old(boot) + 1
    {
      msSinceBoot := (msSinceBoot as int + 1) % TWO32;
      boot := boot + 1;
    }

    /** `_times`, as `clock` returns it: the other three fields are zero. */
    method Ticks(cps: int) returns (ticks: word)
      requires 0 < cps <= 1000 && Valid()
      ensures ticks == boot % TWO32 / (1000 / cps)
    {
      ticks := msSinceBoot / (1000 / cps);
    }
  }

  /** The printed delay in unsigned 32-bit arithmetic. */
  function Delay(start: word, end: word, cps: int): int
    requires cps > 0
  {
    (end - start) % TWO32 * 1000 % TWO32 / cps
  }

  // ---------- multiplication, once

  lemma Scale(a: int, b: int, c: int)
    requires c > 0
    ensures a <= b ==> c * a <= c * b
    ensures a < b ==> c * a + c <= c * b
    ensures c * b - c * a == c * (b - a)
  {
    ScaleUp(b - a, c);
    ScaleUp(b - a - 1, c);
  }

  lemma ScaleUp(d: int, c: int)
    requires c > 0
    ensures d >= 0 ==> c * d >= 0
  {
  }

  /** The only number of whole `c` in `n`. */
  lemma Quotient(n: int, c: int, k: int)
    requires c > 0 && c * k <= n < c * k + c
    ensures n / c == k
  {
    var d := n / c;
    assert n == c * d + n % c;
    Scale(d, k, c);
    Scale(k, d, c);
  }

  // ---------- the delay

  /** The divisor of `_times` is the length of a tick. */
  lemma TickLength(q: int, cps: int)
    requires Rates(q, cps)
    ensures 1000 / cps == q
  {
    Quotient(1000, cps, q);
  }

  /** The true time as far as the ticks of the 32-bit counter tell it: whole ticks, plus the wraps they cannot see. */
  function SeenTime(boot: nat, q: int): int
    requires q > 0
  {
    TWO32 * (boot / TWO32) + q * (boot % TWO32 / q)
  }

  lemma SeenWithinTick(boot: nat, q: int)
    requires q > 0
    ensures SeenTime(boot, q) <= boot < SeenTime(boot, q) + q
    ensures TWO32 * (boot / TWO32) <= SeenTime(boot, q)
  {
    var ms := boot % TWO32;
    assert ms == q * (ms / q) + ms % q;
    Scale(ms / q, -1, q);
  }

  lemma SeenInOrder(s: nat, e: nat, q: int)
    requires q > 0 && s <= e
    ensures SeenTime(s, q) <= SeenTime(e, q)
  {
    SeenWithinTick(s, q);
    SeenWithinTick(e, q);
    if s / TWO32 == e / TWO32 {
      Scale(e % TWO32 / q, s % TWO32 / q, q);
    }
  }

  lemma TicksFit(ms: word, q: int)
    requires q > 0
    ensures 0 <= ms / q <= ms
  {
    assert ms == q * (ms / q) + ms % q;
    Scale(ms / q, -1, q);
    if ms / q > 0 {
      Scale(1, q, ms / q);
    }
  }

  /** The ticks of the counter at a true time. */
  function TicksAt(boot: nat, q: int): (t: word)
    requires q > 0
  {
    TicksFit(boot % TWO32, q);
    boot % TWO32 / q
  }

  lemma ModShift(a: int, k: int)
    ensures (a + TWO32 * k) % TWO32 == a % TWO32
  {
  }

  lemma ModProduct(x: int)
    ensures x % TWO32 * 1000 % TWO32 == x * 1000 % TWO32
  {
    assert x * 1000 == x % TWO32 * 1000 + TWO32 * (x / TWO32 * 1000);
    ModShift(x % TWO32 * 1000, x / TWO32 * 1000);
  }

  lemma Regroup(x: int, q: int, cps: int)
    requires Rates(q, cps)
    ensures x * 1000 == cps * (q * x)
  {
    assert cps * (q * x) == (q * cps) * x;
  }

  /** What is printed, in terms of the time seen, over any number of wraps of the counter. */
  lemma DelayOfSeen(s: nat, e: nat, q: int, cps: int)
    requires Rates(q, cps)
    ensures Delay(TicksAt(s, q), TicksAt(e, q), cps)
            == cps * (SeenTime(e, q) - SeenTime(s, q)) % TWO32 / cps
  {
    var x: int := TicksAt(e, q) as int - TicksAt(s, q) as int;
    var wraps := e / TWO32 - s / TWO32;
    var n := SeenTime(e, q) - SeenTime(s, q);
    Scale(TicksAt(s, q), TicksAt(e, q), q);
    assert n == TWO32 * wraps + q * x;
    ModProduct(x);
    Regroup(x, q, cps);
    assert cps * n == cps * (q * x) + TWO32 * (cps * wraps) by {
      Distribute(cps, wraps, q * x);
    }
    ModShift(cps * (q * x), cps * wraps);
  }

  lemma Distribute(c: int, k: int, y: int)
    ensures c * (TWO32 * k + y) == c * y + TWO32 * (c * k)
  {
  }

  /** A product that does not fit 32 bits comes out at least two ticks short. */
  lemma TooLong(n: int, q: int, cps: int)
    requires Rates(q, cps) && cps * n >= TWO32
    ensures cps * n % TWO32 / cps <= n - 2 * q
  {
    var y := cps * n % TWO32;
    assert y <= cps * n - TWO32;
    var d := y / cps;
    assert cps * d <= y;
    assert cps * (n - 2 * q) == cps * n - 2 * (q * cps);
    Scale(n - 2 * q, d, cps);
  }

  /**
   For any two true times, wraps of the millisecond counter included: the printed delay is within one tick of
   the truth, if and only if the time seen between them, in units of 1/`cps` milliseconds, fits 32 bits.
   */
  lemma DelayAccurateIff(s: nat, e: nat, q: int, cps: int)
    requires Rates(q, cps) && s <= e
    ensures -q < Delay(TicksAt(s, q), TicksAt(e, q), cps) - (e - s) < q
            <==> cps * (SeenTime(e, q) - SeenTime(s, q)) < TWO32
  {
    DelayOfSeen(s, e, q, cps);
    SeenWithinTick(s, q);
    SeenWithinTick(e, q);
    SeenInOrder(s, e, q);
    AccurateIff(SeenTime(e, q) - SeenTime(s, q), e - s, q, cps);
  }

  lemma AccurateIff(n: int, truth: int, q: int, cps: int)
    requires Rates(q, cps) && n >= 0 && -q < n - truth < q
    ensures -q < cps * n % TWO32 / cps - truth < q <==> cps * n < TWO32
  {
    Scale(0, n, cps);
    if cps * n < TWO32 {
      Quotient(cps * n, cps, n);
    } else {
      TooLong(n, q, cps);
    }
  }

  /** Without a wrap of the counter the condition is that ticks times 1000 fits. */
  lemma ConditionInTicks(s: word, e: word, q: int, cps: int)
    requires Rates(q, cps)
    ensures cps * (SeenTime(e, q) - SeenTime(s, q)) == (TicksAt(e, q) - TicksAt(s, q)) * 1000
  {
    Scale(TicksAt(s, q), TicksAt(e, q), q);
    Regroup(TicksAt(e, q) - TicksAt(s, q), q, cps);
  }

  /** Consecutive intervals add up exactly, over wraps too, and a later end is never a shorter delay. */
  lemma DelaysAdd(s: nat, m: nat, e: nat, q: int, cps: int)
    requires Rates(q, cps) && s <= m <= e && cps * (SeenTime(e, q) - SeenTime(s, q)) < TWO32
    ensures Delay(TicksAt(s, q), TicksAt(m, q), cps) + Delay(TicksAt(m, q), TicksAt(e, q), cps)
            == Delay(TicksAt(s, q), TicksAt(e, q), cps)
    ensures Delay(TicksAt(s, q), TicksAt(m, q), cps) <= Delay(TicksAt(s, q), TicksAt(e, q), cps)
  {
    SeenInOrder(s, m, q);
    SeenInOrder(m, e, q);
    DelayOfSeen(s, m, q, cps);
    DelayOfSeen(m, e, q, cps);
    DelayOfSeen(s, e, q, cps);
    var a, b, c := SeenTime(s, q), SeenTime(m, q), SeenTime(e, q);
    Fits(b - a, c - a, cps);
    Fits(c - b, c - a, cps);
    Fits(c - a, c - a, cps);
  }

  lemma Fits(n: int, most: int, cps: int)
    requires cps > 0 && 0 <= n <= most && cps * most < TWO32
    ensures cps * n % TWO32 / cps == n
  {
    Scale(0, n, cps);
    Scale(n, most, cps);
    Quotient(cps * n, cps, n);
  }

  /** After 4294968 ticks of 10 milliseconds, just under twelve hours, 7 milliseconds are printed. */
  lemma TwelveHoursOverflow()
    ensures Delay(TicksAt(0, 10), TicksAt(42949680, 10), 100) == 7
  {
  }

  /** Two seconds across a wrap of the counter come out as 2006 milliseconds. */
  lemma WrapStaysAccurate()
    ensures Delay(TicksAt(TWO32 - 1000, 10), TicksAt(TWO32 + 1000, 10), 100) == 2006
  {
  }
}
