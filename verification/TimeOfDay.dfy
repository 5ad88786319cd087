/** Setting and reading the time of day from the tick counter (alt_settod.c, alt_gettod.c). */
module TimeOfDay {

  import opened Machine

  const US := 1000000
  const ENOTSUP := 134

  datatype Time = Time(sec: int, usec: int)

  datatype Zone = Zone(minutesWest: int, dst: int)

  predicate Valid(t: Time) {
    t.sec >= 0 && 0 <= t.usec < US
  }

  function Micros(t: Time): int {
    t.sec * US + t.usec
  }

  /** The microseconds that a tick counts for. */
  function PerTick(rate: U32): nat
    requires rate > 0
  {
    US / rate
  }

  /** What setting the time stores: the product of ticks and tick length keeps 32 bits. */
  function Set(t: Time, n: U32, rate: U32): Time
    requires rate > 0
  {
    Time(t.sec - n / rate, t.usec - n * PerTick(rate) % TWO_32 % US)
  }

  /** The same time with its microseconds below a second; zero if they are negative and the seconds
      cannot make up for them. */
  function Normal(t: Time): Time {
    if t.usec < 0 && Micros(t) < 0 then Time(0, 0) else Time(Micros(t) / US, Micros(t) % US)
  }

  /** The reading before it is put in order: here the product keeps 64 bits. */
  function Raw(reset: Time, n: U32, rate: U32): Time
    requires rate > 0
  {
    Time(reset.sec + n / rate, reset.usec + n * PerTick(rate) % US)
  }

  /** What reading the time returns. */
  function Get(reset: Time, n: U32, rate: U32): Time
    requires rate > 0
  {
    Normal(Raw(reset, n, rate))
  }

  class WallClock {
    var reset: Time
    var zone: Zone

    constructor ()
      ensures reset == Time(0, 0) && zone == Zone(0, 0)
    {
      reset, zone := Time(0, 0), Zone(0, 0);
    }

    /** Borrows seconds for negative microseconds and carries those of a second or more. */
    method Settle(from: Time) returns (t: Time)
      ensures t == Normal(from)
    {
      t := from;
      while t.usec < 0
        invariant Micros(t) == Micros(from) && (t == from || t.usec < US) && (t == from || from.usec < 0)
        invariant t == from || t.sec >= 0
        decreases -t.usec
      {
        if t.sec <= 0 {
          t := Time(0, 0);
          assert Normal(from) == Time(0, 0);
          break;
        } else {
          t := Time(t.sec - 1, t.usec + US);
        }
      }
      while t.usec >= US
        invariant t.usec >= 0 && Normal(t) == Normal(from)
      {
        t := Time(t.sec + 1, t.usec - US);
      }
    }

    method GetTimeOfDay(nticks: U32, rate: U32) returns (status: int, t: Time, tz: Zone)
      ensures rate == 0 ==> status == -ENOTSUP
      ensures rate > 0 ==> status == 0 && t == Get(reset, nticks, rate) && tz == zone
    {
      t, tz := Time(0, 0), zone;
      if rate == 0 {
        return -ENOTSUP, t, tz;
      }
      t := Settle(Time(reset.sec + nticks / rate, reset.usec + nticks * (US / rate) % US));
      return 0, t, zone;
    }

    method SetTimeOfDay(t: Time, tz: Zone, nticks: U32, rate: U32) returns (status: int)
      modifies this
      ensures rate == 0 ==> status == -1 && reset == old(reset) && zone == old(zone)
      ensures rate > 0 ==> status == 0 && reset == Set(t, nticks, rate) && zone == tz
    {
      if rate == 0 {
        return -1;
      }
      reset := Time(t.sec - nticks / rate, t.usec - nticks * (US / rate) % TWO_32 % US);
      zone := tz;
      return 0;
    }
  }

  lemma Scales(m: nat, rate: nat, p: nat)
    requires m < rate && p > 0
    ensures 0 <= m * p < rate * p
  {
  }

  lemma RestIs(x: int, q: int, m: nat)
    requires m < US && x == q * US + m
    ensures x % US == m
  {
  }

  /** If ticks divide a second, the seconds and microseconds of the elapsed ticks are theirs exactly. */
  lemma ElapsedIsExact(n: U32, rate: U32)
    requires rate > 0 && rate * PerTick(rate) == US
    ensures n / rate * US + n * PerTick(rate) % US == n * PerTick(rate)
  {
    var p, q, m := PerTick(rate), n / rate, n % rate;
    assert n * p == q * US + m * p by {
      assert n == q * rate + m;
      assert q * rate * p == q * US;
    }
    assert 0 <= m * p < rate * p by { Scales(m, rate, p); }
    RestIs(n * p, q, m * p);
  }

  lemma SameRest(x: int, w: int, k: int)
    requires x == w + k * US
    ensures x % US == w % US
  {
    RestIs(x, k + w / US, w % US);
  }

  lemma Coprime(q: int, d: int)
    requires q * 67108864 == d * 15625
    ensures q % 15625 == 0
  {
    assert q == 15625 * (12659 * d - 54369991 * q);
  }

  /** Keeping 32 bits of a product leaves its rest by a million as it is exactly if the high part is a
      multiple of 15625: a million and two to the 32 have 64 as their greatest common divisor. */
  lemma TruncationIff(x: nat)
    ensures x % TWO_32 % US == x % US <==> x / TWO_32 % 15625 == 0
  {
    var q, w := x / TWO_32, x % TWO_32;
    assert x == q * TWO_32 + w;
    if q % 15625 == 0 {
      var c := q / 15625;
      assert x == c * 15625 * TWO_32 + w && 15625 * TWO_32 == 67108864 * US;
      SameRest(x, w, c * 67108864);
    }
    if w % US == x % US {
      var d := x / US - w / US;
      assert q * TWO_32 == d * US;
      assert q * 67108864 == d * 15625;
      Coprime(q, d);
    }
  }

  /** The bits that the 32-bit product loses are harmless. */
  predicate Kept(n: U32, rate: U32)
    requires rate > 0
  {
    n * PerTick(rate) / TWO_32 % 15625 == 0
  }

  /** By how much the cut product falls short, as far as microseconds go. */
  function Lost(n: U32, rate: U32): int
    requires rate > 0
  {
    n * PerTick(rate) % US - n * PerTick(rate) % TWO_32 % US
  }

  lemma NormalIs(t: Time)
    ensures 0 <= Normal(t).usec < US && (Micros(t) >= 0 ==> Normal(t).sec >= 0)
    ensures Micros(Normal(t)) == if t.usec < 0 && Micros(t) < 0 then 0 else Micros(t)
  {
  }

  /** Times in order that are as long are the same. */
  lemma SameMicros(t: Time, u: Time)
    requires 0 <= t.usec < US && 0 <= u.usec < US
    ensures Micros(t) == Micros(u) <==> t == u
  {
  }

  /** A time that was set reads at once as itself, whatever the tick rate, exactly if the bits lost are
      harmless. The one exception is time zero, where stopping short at zero can make up for them. */
  lemma AtOnceIff(t: Time, n: U32, rate: U32)
    requires Valid(t) && rate > 0
    ensures Get(Set(t, n, rate), n, rate) == t <==> Kept(n, rate) || (Micros(t) == 0 && Lost(n, rate) < 0)
  {
    hide PerTick, Normal;
    TruncationIff(n * PerTick(rate));
    assert Raw(Set(t, n, rate), n, rate) == Time(t.sec, t.usec + Lost(n, rate));
    NormalIs(Time(t.sec, t.usec + Lost(n, rate)));
    SameMicros(Get(Set(t, n, rate), n, rate), t);
  }

  /** Set to a hundred seconds after 72 minutes at a thousand ticks a second, the clock at once reads
      something else. */
  lemma AtOnceFails()
    ensures !Kept(4294968, 1000)
    ensures Get(Set(Time(100, 0), 4294968, 1000), 4294968, 1000) != Time(100, 0)
  {
    AtOnceIff(Time(100, 0), 4294968, 1000);
  }

  lemma ReadingSum(t: Time, n: U32, k: nat, rate: U32)
    requires Valid(t) && rate > 0 && rate * PerTick(rate) == US && n + k < TWO_32
    ensures Micros(Raw(Set(t, n, rate), n + k, rate)) == Micros(t) + k * PerTick(rate) + Lost(n, rate)
  {
    hide PerTick;
    ElapsedIsExact(n, rate);
    ElapsedIsExact(n + k, rate);
    assert (n + k) * PerTick(rate) == n * PerTick(rate) + k * PerTick(rate);
  }

  lemma Forward(t: Time, k: nat, rate: U32)
    requires Valid(t) && rate > 0 && rate * PerTick(rate) == US
    ensures k * PerTick(rate) >= 0 && Micros(t) >= 0 && (Micros(t) + k > 0 ==> Micros(t) + k * PerTick(rate) > 0)
    ensures k == 0 ==> k * PerTick(rate) == 0
  {
  }

  /** Ticks later, the time that was set reads as itself plus the ticks, if the ticks at its setting
      made a product of 32 bits, and more generally if the bits that the product lost were harmless.
      The reading never stops short at zero. */
  lemma SetThenGet(t: Time, n: U32, k: nat, rate: U32)
    requires Valid(t) && rate > 0 && rate * PerTick(rate) == US && n + k < TWO_32
    requires Kept(n, rate)
    ensures var now := Get(Set(t, n, rate), n + k, rate);
      Valid(now) && Micros(now) == Micros(t) + k * PerTick(rate)
  {
    hide Micros, Normal, PerTick, Set, Raw;
    ReadingSum(t, n, k, rate);
    TruncationIff(n * PerTick(rate));
    Forward(t, k, rate);
    NormalIs(Raw(Set(t, n, rate), n + k, rate));
  }

  lemma FitsIsKept(n: U32, rate: U32)
    requires rate > 0 && n * PerTick(rate) < TWO_32
    ensures Kept(n, rate)
  {
  }

  lemma LaterIff(t: Time, n: U32, k: nat, rate: U32)
    requires Valid(t) && rate > 0 && rate * PerTick(rate) == US && n + k < TWO_32 && Micros(t) + k > 0
    ensures Micros(Get(Set(t, n, rate), n + k, rate)) == Micros(t) + k * PerTick(rate) <==> Kept(n, rate)
  {
    hide Micros, Normal, PerTick, Set, Raw;
    ReadingSum(t, n, k, rate);
    TruncationIff(n * PerTick(rate));
    Forward(t, k, rate);
    NormalIs(Raw(Set(t, n, rate), n + k, rate));
  }

  /** Otherwise it reads wrong, whatever the time and however late. The one exception is time zero read
      at once. */
  lemma SetThenGetIff(t: Time, n: U32, k: nat, rate: U32)
    requires Valid(t) && rate > 0 && rate * PerTick(rate) == US && n + k < TWO_32
    ensures Micros(Get(Set(t, n, rate), n + k, rate)) == Micros(t) + k * PerTick(rate) <==>
      Kept(n, rate) || (Micros(t) + k == 0 && Lost(n, rate) < 0)
  {
    hide Raw, Normal, Set, PerTick, Micros, Lost, Kept;
    Forward(t, k, rate);
    if Micros(t) + k == 0 {
      AtOnceIff(t, n, rate);
      NormalIs(Raw(Set(t, n, rate), n, rate));
      SameMicros(Get(Set(t, n, rate), n, rate), t);
    } else {
      LaterIff(t, n, k, rate);
    }
  }

  /** By how many seconds the count of whole seconds has got ahead of the count of microseconds. */
  function Slipped(n: U32, rate: U32): int
    requires rate > 0
  {
    n / rate - n * PerTick(rate) / US
  }

  lemma ElapsedSum(n: U32, rate: U32)
    requires rate > 0
    ensures n / rate * US + n * PerTick(rate) % US == n * PerTick(rate) + Slipped(n, rate) * US
  {
    hide PerTick;
    var x := n * PerTick(rate);
    assert x == x / US * US + x % US;
  }

  /** At any rate, ticks later, the time that was set reads as itself, plus the ticks, plus a second for
      each by which the seconds have got ahead meanwhile, plus the microseconds that the cut product has
      lost, unless that is negative. */
  lemma LaterAtAnyRate(t: Time, n: U32, k: nat, rate: U32)
    requires Valid(t) && rate > 0 && n + k < TWO_32
    ensures var now := Get(Set(t, n, rate), n + k, rate);
      var sum := Micros(t) + k * PerTick(rate) + (Slipped(n + k, rate) - Slipped(n, rate)) * US + Lost(n, rate);
      if sum >= 0 then Valid(now) && Micros(now) == sum else Micros(now) == 0 || Micros(now) == sum
  {
    hide PerTick, Slipped, Normal;
    ElapsedSum(n, rate);
    ElapsedSum(n + k, rate);
    assert (n + k) * PerTick(rate) == n * PerTick(rate) + k * PerTick(rate);
    NormalIs(Raw(Set(t, n, rate), n + k, rate));
  }

  /** Where ticks divide a second, the two counts never part. */
  lemma NeverSlips(n: U32, rate: U32)
    requires rate > 0 && rate * PerTick(rate) == US
    ensures Slipped(n, rate) == 0
  {
    hide PerTick;
    ElapsedIsExact(n, rate);
    ElapsedSum(n, rate);
  }

  /** A second of ticks reads as one second exactly if ticks divide a second or are shorter than a
      microsecond: the seconds are counted by the rate and the microseconds by the length of a tick. */
  lemma SecondIff(rate: U32)
    requires rate > 0
    ensures Get(Time(0, 0), rate, rate) == Time(1, 0) <==> US % rate == 0 || rate > US
  {
    var p := PerTick(rate);
    assert US == p * rate + US % rate && rate / rate == 1;
    if rate > US {
      assert p == 0;
    } else if US % rate != 0 {
      assert 0 <= p * rate < US;
      assert p * rate > 0;
    }
  }
}
