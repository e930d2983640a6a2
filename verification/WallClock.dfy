/** The wall clock: the time of day as an offset to the tick counter. */
module WallClock {
  import opened Words
  import Bits

  const US: nat := 1_000_000
  const HALF: int := 0x8000_0000

  datatype Time = Time(sec: int, usec: int)
  {
    /** The same instant in microseconds. */
    function Micros(): int {
      sec * US + usec
    }

    predicate Normal() {
      0 <= usec < US
    }
  }

  datatype Zone = Zone(minutesWest: int, dstTime: int)

  datatype Status = Ok | ENOSYS | ENOTSUP

  /** A 32-bit result read as a signed number. */
  function Signed(x: int): int {
    (x + HALF) % WORD - HALF
  }

  function FromMicros(m: int): Time {
    Time(m / US, m % US)
  }

  /** Microseconds per tick. */
  function Step(rate: u32): nat
    requires rate > 0
  {
    US / rate
  }

  /** The offset stored when the time `t` is set at tick `n`; the product of ticks
      and microseconds is a 32-bit one. */
  function Offset(t: Time, n: u32, rate: u32): Time
    requires rate > 0
  {
    Time(Signed(t.sec - n / rate), Signed(t.usec - n * Step(rate) % WORD % US))
  }

  /** The time before normalisation at tick `n`; here the product is a 64-bit one. */
  function Raw(reset: Time, n: u32, rate: u32): Time
    requires rate > 0
  {
    Time(Signed(reset.sec + n / rate), Signed(reset.usec + n * Step(rate) % US))
  }

  /** Borrow seconds while the microseconds are negative; with no second left the
      time is set to zero. */
  function Borrow(t: Time): Time
    decreases -t.usec
  {
    if t.usec >= 0 then t
    else if t.sec <= 0 then Time(0, 0)
    else Borrow(Time(t.sec - 1, t.usec + US))
  }

  function Carry(t: Time): Time
    decreases t.usec
  {
    if t.usec < US then t else Carry(Time(t.sec + 1, t.usec - US))
  }

  function TimeOfDay(reset: Time, n: u32, rate: u32): Time
    requires rate > 0
  {
    Carry(Borrow(Raw(reset, n, rate)))
  }

  class Clock {
    var nticks: u32
    var tickRate: u32
    var resetTime: Time
    var zone: Zone

    constructor (rate: u32)
      ensures nticks == 0 && tickRate == rate && resetTime == Time(0, 0) && zone == Zone(0, 0)
    {
      nticks, tickRate, resetTime, zone := 0, rate, Time(0, 0), Zone(0, 0);
    }

    method SetTimeOfDay(t: Time, tz: Zone) returns (status: Status)
      modifies this`resetTime, this`zone
      ensures status == if tickRate == 0 then ENOSYS else Ok
      ensures resetTime == if tickRate == 0 then old(resetTime) else Offset(t, nticks, tickRate)
      ensures zone == if tickRate == 0 then old(zone) else tz
    {
      if tickRate == 0 {
        return ENOSYS;
      }
      resetTime := resetTime.(sec := Signed(t.sec - nticks / tickRate));
      resetTime := resetTime.(usec := Signed(t.usec - nticks * (US / tickRate) % WORD % US));
      zone := tz;
      status := Ok;
    }

    method GetTimeOfDay() returns (status: Status, t: Time, tz: Zone)
      ensures status == if tickRate == 0 then ENOTSUP else Ok
      ensures status == Ok ==> t == TimeOfDay(resetTime, nticks, tickRate) && tz == zone
    {
      t, tz := Time(0, 0), Zone(0, 0);
      if tickRate == 0 {
        return ENOTSUP, t, tz;
      }
      t := Time(Signed(resetTime.sec + nticks / tickRate), Signed(resetTime.usec + nticks * (US / tickRate) % US));
      while t.usec < 0
        invariant Borrow(t) == Borrow(Raw(resetTime, nticks, tickRate))
        decreases -t.usec
      {
        if t.sec <= 0 {
          t := Time(0, 0);
          break;
        }
        t := Time(t.sec - 1, t.usec + US);
      }
      while t.usec >= US
        invariant Carry(t) == TimeOfDay(resetTime, nticks, tickRate)
        decreases t.usec
      {
        t := Time(t.sec + 1, t.usec - US);
      }
      return Ok, t, zone;
    }
  }

  // ----- normalisation ---------------------------------------------------------

  lemma {:induction false} BorrowMeaning(t: Time)
    ensures var b := Borrow(t);
            if t.usec >= 0 then b == t
            else if t.Micros() < 0 then b == Time(0, 0)
            else b.usec >= 0 && b.Micros() == t.Micros()
    decreases -t.usec
  {
    if t.usec < 0 && t.sec > 0 {
      BorrowMeaning(Time(t.sec - 1, t.usec + US));
    }
  }

  lemma {:induction false} CarryMeaning(t: Time)
    requires t.usec >= 0
    ensures Carry(t) == FromMicros(t.Micros())
    decreases t.usec
  {
    if t.usec >= US {
      CarryMeaning(Time(t.sec + 1, t.usec - US));
    }
  }

  /** Normalising keeps the instant, except that one with negative microseconds
      that lies before the epoch becomes the epoch. */
  lemma NormaliseMeaning(t: Time)
    ensures Carry(Borrow(t)) == if t.usec < 0 && t.Micros() < 0 then Time(0, 0) else FromMicros(t.Micros())
  {
    BorrowMeaning(t);
    CarryMeaning(Borrow(t));
  }

  // ----- the clock law -----------------------------------------------------------

  /** Ticks times microseconds, split at the second. */
  lemma TickSplit(n: u32, rate: u32)
    requires rate > 0 && US % rate == 0
    ensures n * Step(rate) == n / rate * US + n * Step(rate) % US
  {
    var s, q, r := Step(rate), n / rate, n % rate;
    assert rate * s == US;
    assert n * s == q * US + r * s by {
      assert n == q * rate + r;
      assert (q * rate + r) * s == q * (rate * s) + r * s;
    }
    assert r * s < US by {
      assert (rate - r) * s >= s;
      assert (rate - r) * s == US - r * s;
    }
    SplitAt(n * s, q, r * s);
  }

  lemma SplitAt(x: nat, q: nat, r: nat)
    requires x == q * US + r && r < US
    ensures x / US == q && x % US == r
  {
  }

  lemma SignedSmall(x: int)
    requires -HALF <= x < HALF
    ensures Signed(x) == x
  {
  }

  lemma SignedAdd(x: int, y: int)
    ensures Signed(Signed(x) + y) == Signed(x + y)
  {
  }

  /** How far the stored offset is off: the microseconds the 32-bit product loses. */
  function Slip(n: u32, rate: u32): int
    requires rate > 0
  {
    n * Step(rate) % US - n * Step(rate) % WORD % US
  }

  /** Setting and getting cancel up to the slip. */
  lemma RawAfterSet(t: Time, n0: u32, n: u32, rate: u32)
    requires rate > 0 && US % rate == 0 && t.Normal()
    requires 0 <= t.sec && t.sec + n / rate < HALF && n0 <= n
    ensures Raw(Offset(t, n0, rate), n, rate).Micros()
         == t.Micros() + (n - n0) * Step(rate) + Slip(n0, rate)
  {
    TickSplit(n0, rate);
    TickSplit(n, rate);
    DivideMonotone(n0, n, rate);
    RawParts(t, n0 / rate, n / rate, n0 * Step(rate) % WORD % US, n * Step(rate) % US);
    Elapsed(n0, n, Step(rate));
  }

  lemma RawParts(t: Time, q0: nat, q: nat, a: nat, b: nat)
    requires t.Normal() && 0 <= t.sec && t.sec + q < HALF && q0 <= q && a < US && b < US
    ensures Time(Signed(Signed(t.sec - q0) + q), Signed(Signed(t.usec - a) + b))
         == Time(t.sec - q0 + q, t.usec - a + b)
  {
    SignedAdd(t.sec - q0, q);
    SignedSmall(t.sec - q0 + q);
    SignedSmall(t.usec - a);
    SignedSmall(t.usec - a + b);
  }

  lemma Elapsed(a: nat, b: nat, s: nat)
    requires a <= b
    ensures 0 <= (b - a) * s == b * s - a * s
  {
  }

  lemma DivideMonotone(a: nat, b: nat, d: nat)
    requires d > 0 && a <= b
    ensures a / d <= b / d
  {
    var gap := b / d - a / d;
    assert d * (b / d) - d * (a / d) == d * gap;
    Bits.MultipleBound(d, gap);
  }

  /** The 32-bit product of the set call does not wrap, or wraps by a whole number
      of seconds: 15625 times 2^32 is the least such multiple. */
  predicate Harmless(n0: u32, rate: u32)
    requires rate > 0
  {
    n0 * Step(rate) / WORD % 15625 == 0
  }

  lemma WrapModulo(k: nat, y: nat)
    ensures (k * WORD + y) % US == y % US <==> k % 15625 == 0
  {
    // 2^32 == 64 * 67108864 and 10^6 == 64 * 15625
    var w := 67108864;
    var j, r := k / 15625, k % 15625;
    assert k * WORD == j * w * US + r * WORD;
    ModuloShift(j * w, r * WORD + y);
    assert (k * WORD + y) % US == (r * WORD + y) % US;
    if r > 0 && (r * WORD + y) % US == y % US {
      ModuloDifference(r * WORD, y);
      NoSmallMultiple(r);
    }
  }

  lemma ModuloShift(a: nat, x: nat)
    ensures (a * US + x) % US == x % US
  {
  }

  lemma ModuloDifference(x: nat, y: nat)
    requires (x + y) % US == y % US
    ensures x % US == 0
  {
  }

  /** 2^32 is invertible modulo 15625. */
  lemma NoSmallMultiple(r: nat)
    requires 0 < r < 15625
    ensures r * WORD % US != 0
  {
    var q, t := r * WORD / US, r * WORD % US;
    assert r * WORD == q * US + t;
    assert t == 0 ==> r * 67108864 == q * 15625;
    assert t == 0 ==> r * 849531109376 == 15625 * (q * 12659);
    assert 849531109376 == 15625 * 54369991 + 1;
    assert t == 0 ==> r == 15625 * (q * 12659 - r * 54369991);
    Bits.MultipleBound(15625, q * 12659 - r * 54369991);
  }

  lemma SlipFree(n0: u32, rate: u32)
    requires rate > 0
    ensures Slip(n0, rate) == 0 <==> Harmless(n0, rate)
  {
    var x := n0 * Step(rate);
    assert x == x / WORD * WORD + x % WORD;
    WrapModulo(x / WORD, x % WORD);
  }

  /** After the normalised time `t` was set at tick `n0`, reading the clock at any
      later tick gives `t` plus the ticks gone by, to the microsecond and in normal
      form, exactly when the product of the set call is harmless; or else when the
      epoch itself was set, no tick has gone by and the clamp to zero hides the
      slip.  A harmless product never meets the clamp. */
  lemma ClockIsExact(t: Time, n0: u32, n: u32, rate: u32)
    requires rate > 0 && US % rate == 0 && t.Normal()
    requires 0 <= t.sec && t.sec + n / rate < HALF && n0 <= n
    ensures var exact := FromMicros(t.Micros() + (n - n0) * Step(rate));
            && exact.Normal() && exact.sec >= 0
            && (TimeOfDay(Offset(t, n0, rate), n, rate) == exact <==>
                Harmless(n0, rate) || (t == Time(0, 0) && n == n0 && Slip(n0, rate) < 0))
    ensures Harmless(n0, rate) ==> Raw(Offset(t, n0, rate), n, rate).Micros() >= 0
  {
    var m, slip := t.Micros() + (n - n0) * Step(rate), Slip(n0, rate);
    RawAfterSet(t, n0, n, rate);
    NormaliseMeaning(Raw(Offset(t, n0, rate), n, rate));
    SlipFree(n0, rate);
    NothingGone(t, n - n0, rate);
    SameInstant(m + slip, m);
    SameInstant(0, m);
    if t == Time(0, 0) && n == n0 {
      RawAtEpoch(n0, rate);
    }
  }

  lemma SameInstant(a: int, b: int)
    ensures FromMicros(a) == FromMicros(b) <==> a == b
    ensures b >= 0 ==> FromMicros(b).Normal() && FromMicros(b).sec >= 0
  {
  }

  lemma NothingGone(t: Time, k: nat, rate: u32)
    requires rate > 0 && US % rate == 0 && t.Normal() && t.sec >= 0
    ensures k * Step(rate) >= 0
    ensures t.Micros() + k * Step(rate) == 0 <==> t == Time(0, 0) && k == 0
  {
    assert rate * Step(rate) == US;
    if k > 0 {
      assert k * Step(rate) > 0;
    }
  }

  lemma RawAtEpoch(n0: u32, rate: u32)
    requires rate > 0 && n0 / rate < HALF
    ensures Raw(Offset(Time(0, 0), n0, rate), n0, rate) == Time(0, Slip(n0, rate))
  {
    RawParts(Time(0, 0), n0 / rate, n0 / rate, n0 * Step(rate) % WORD % US, n0 * Step(rate) % US);
  }

  /** Before the first set the clock tells the time since reset. */
  lemma ClockFromReset(n: u32, rate: u32)
    requires rate > 0 && US % rate == 0 && n / rate < HALF
    ensures TimeOfDay(Time(0, 0), n, rate) == FromMicros(n * Step(rate))
  {
    TickSplit(n, rate);
    SignedSmall(n / rate);
    SignedSmall(n * Step(rate) % US);
    NormaliseMeaning(Time(n / rate, n * Step(rate) % US));
  }

  /** A product that fits a word is harmless. */
  lemma FittingIsHarmless(n0: u32, rate: u32)
    requires rate > 0 && n0 * Step(rate) < WORD
    ensures Harmless(n0, rate)
  {
    FitsWord(n0 * Step(rate));
  }

  lemma FitsWord(x: nat)
    requires x < WORD
    ensures x / WORD == 0
  {
  }

  /** At 1000 ticks a second the product wraps after 72 minutes: the time set then
      is not the time read back at once. */
  lemma WrappedProductMisleads()
    ensures TimeOfDay(Offset(Time(1, 0), 4_294_968, 1000), 4_294_968, 1000) != Time(1, 0)
  {
    assert !Harmless(4_294_968, 1000);
    ClockIsExact(Time(1, 0), 4_294_968, 4_294_968, 1000);
  }
}
