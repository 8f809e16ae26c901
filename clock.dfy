/** The simulated clock of the fake NTP server.
    A background thread starts from the wall clock shifted to the NTP era
    (seconds since 1900), then repeatedly adds a fixed step to a signed
    64-bit counter and publishes it, truncated to 32 bits, as the seconds
    word of the shared timestamp pair; the fraction word is always 0. */
module Clock {
  import opened Wire

  /** Seconds from 1900-01-01 (NTP era 0) to 1970-01-01 (the Unix epoch). */
  const UTC_NTP: int := 2208988800

  /** Simulated seconds added per tick, before the speed factor. */
  const TIME_TICK_SECS: int := 10

  /** The two speeds the command line can select: normal and fast. */
  predicate IsSpeed(speed: int) {
    speed == 1 || speed == 3
  }

  /** Simulated seconds added by one tick at the given speed. */
  function Step(speed: int): (d: int)
    requires IsSpeed(speed)
    ensures speed == 1 ==> d == 10
    ensures speed == 3 ==> d == 30
  {
    TIME_TICK_SECS * speed
  }

  /** C's conversion of a `long` to `uint32_t`: the one 32-bit value that
      differs from `x` by a multiple of 2^32, so `x` itself when it fits. */
  function Truncate32(x: int): (r: uint32)
    ensures (x - r as int) % WORD == 0
    ensures 0 <= x < WORD ==> r as int == x
  {
    var r := x % WORD;
    assert x - r == (x / WORD) * WORD;
    r as uint32
  }

  /** Publishing a counter that grew by `d` moves the published seconds by `d`, modulo 2^32. */
  lemma TruncateAdd(s: int, d: int)
    ensures Truncate32(s + d) as int == (Truncate32(s) as int + d) % WORD
  {
    var q := s / WORD;
    assert s == q * WORD + s % WORD;
    assert s + d == q * WORD + (s % WORD + d);
    ModShift(q, s % WORD + d);
  }

  lemma ModShift(q: int, r: int)
    ensures (q * WORD + r) % WORD == r % WORD
  {
    var k := r / WORD;
    assert r == k * WORD + r % WORD;
    assert q * WORD + r == (q + k) * WORD + r % WORD;
  }

  /** Within one 2^32-second era the published seconds follow the counter, so they never decrease. */
  lemma TruncateMonotone(s: int, t: int)
    requires s <= t && s / WORD == t / WORD
    ensures Truncate32(s) <= Truncate32(t)
    ensures Truncate32(t) as int - Truncate32(s) as int == t - s
  {
    assert s == (s / WORD) * WORD + s % WORD;
    assert t == (t / WORD) * WORD + t % WORD;
  }

  /** The counter after `n` ticks of `step` seconds each from `start`, one tick at a time. */
  function CounterAfter(start: int, step: int, n: nat): int {
    if n == 0 then start else CounterAfter(start, step, n - 1) + step
  }

  lemma {:induction false} CounterAfterIsLinear(start: int, step: int, n: nat)
    ensures CounterAfter(start, step, n) == start + n * step
  {
    if n > 0 {
      CounterAfterIsLinear(start, step, n - 1);
    }
  }

  /** Reads of the published seconds never decrease across ticks, up to the 2^32 wrap-around. */
  lemma {:induction false} ReadsNeverDecrease(start: int, speed: int, k1: nat, k2: nat)
    requires IsSpeed(speed) && k1 <= k2
    requires CounterAfter(start, Step(speed), k1) / WORD == CounterAfter(start, Step(speed), k2) / WORD
    ensures Truncate32(CounterAfter(start, Step(speed), k1)) <= Truncate32(CounterAfter(start, Step(speed), k2))
  {
    var step := Step(speed);
    CounterAfterIsLinear(start, step, k1);
    CounterAfterIsLinear(start, step, k2);
    assert k1 * step <= k2 * step by {
      assert (k2 - k1) * step >= 0;
    }
    TruncateMonotone(CounterAfter(start, step, k1), CounterAfter(start, step, k2));
  }

  /** The clock thread's state: its private counter `secs` and the shared
      timestamp pair it publishes. */
  class FakeClock {
    /** The thread's `long` counter, in seconds since 1900. */
    var secs: int
    /** The shared `uint32_t time_stamp[2]` the request handler reads. */
    var timeStamp: array<uint32>
    /** 1 normally, 3 in fast mode. */
    const speed: int
    /** The counter when the thread started, and the ticks done since. */
    ghost const start: int
    ghost var ticks: nat

    ghost predicate Valid()
      reads this, timeStamp
    {
      IsSpeed(speed) &&
      timeStamp.Length == 2 && timeStamp[1] == 0 &&
      secs == CounterAfter(start, Step(speed), ticks) &&
      timeStamp[0] == (if ticks == 0 then 0 else Truncate32(secs))
    }

    /** Start-up: the shared pair is zero (a zero-initialised global) and
        the counter is the wall clock moved to the NTP era. */
    constructor (wallSeconds: int, speed: int)
      requires IsSpeed(speed)
      ensures Valid() && fresh(timeStamp)
      ensures this.speed == speed && secs == wallSeconds + UTC_NTP && start == secs && ticks == 0
      ensures Read() == Timestamp(0, 0)
    {
      this.speed := speed;
      secs := wallSeconds + UTC_NTP;
      start := wallSeconds + UTC_NTP;
      ticks := 0;
      var ts := new uint32[2];
      ts[0], ts[1] := 0, 0;
      timeStamp := ts;
    }

    /** What a reader of the shared pair obtains: the seconds word and a zero fraction. */
    function Read(): (t: Timestamp)
      reads this, timeStamp
      requires timeStamp.Length == 2
      ensures t.fraction == 0
    {
      Timestamp(timeStamp[0], 0)
    }

    /** Copies the shared pair into the caller's two-word array. */
    method ReadInto(ts: array<uint32>)
      requires Valid() && ts.Length == 2 && ts != timeStamp
      modifies ts
      ensures ts[0] == Read().seconds && ts[1] == 0
    {
      ts[0] := timeStamp[0];
      ts[1] := 0;
    }

    /** One pass of the clock loop: advance the counter by one step and publish it. */
    method Tick()
      requires Valid()
      modifies this, timeStamp
      ensures Valid() && timeStamp == old(timeStamp) && ticks == old(ticks) + 1
      ensures secs == old(secs) + Step(speed)
      ensures Read() == Timestamp(Truncate32(secs), 0)
      ensures old(ticks) > 0 ==> Read().seconds as int == (old(Read().seconds) as int + Step(speed)) % WORD
      ensures old(ticks) > 0 && old(Read().seconds) as int + Step(speed) < WORD ==> old(Read().seconds) < Read().seconds
    {
      TruncateAdd(secs, Step(speed));
      secs := secs + TIME_TICK_SECS * speed;
      ticks := ticks + 1;
      timeStamp[0] := Truncate32(secs);
      timeStamp[1] := 0;
    }
  }
}
