/** The deadline of an alarm against a 32-bit tick counter that rolls over (alt_alarm_start.c and the
    per-alarm part of alt_tick.c). */
module AlarmTime {

  import opened Machine

  /** `rollover` holds the alarm back until the counter has wrapped round. */
  datatype Timer = Timer(time: U32, rollover: bool)

  function Start(now: U32, nticks: U32): Timer {
    var time := (nticks + now + 1) % TWO_32;
    Timer(time, time < now)
  }

  /** On reaching zero the counter has wrapped, and the flag is cleared. */
  function Clear(t: Timer, now: U32): Timer {
    if t.rollover && now == 0 then t.(rollover := false) else t
  }

  predicate Expired(t: Timer, now: U32) {
    t.time <= now && !t.rollover
  }

  /** The next deadline after a callback that asks to be called in `period` ticks. */
  function Rearm(t: Timer, now: U32, period: U32): Timer {
    var time := (t.time + period) % TWO_32;
    Timer(time, t.rollover || time < now)
  }

  function NextTick(now: U32): U32 {
    (now + 1) % TWO_32
  }

  /** The timer first expires on the `k`-th tick after the one at `now`. */
  predicate FirstExpires(t: Timer, now: U32, k: nat)
    decreases k
  {
    k > 0 &&
    var now' := NextTick(now);
    var t' := Clear(t, now');
    if Expired(t', now') then k == 1 else FirstExpires(t', now', k - 1)
  }

  /** The deadline lies ahead, and the flag tells whether the counter wraps before it. */
  predicate Sound(t: Timer, now: U32) {
    t.rollover == (t.time < now) && (t.time == now ==> now == TWO_32 - 1)
  }

  /** In how many ticks a sound timer is to expire. */
  function DueIn(t: Timer, now: U32): (due: nat)
    ensures 1 <= due <= TWO_32
  {
    if t.time > now then t.time - now else t.time + TWO_32 - now
  }

  /** One tick: a sound timer expires exactly when one tick was left, and otherwise has one tick less. */
  lemma TickDue(t: Timer, now: U32)
    requires Sound(t, now)
    ensures var now' := NextTick(now);
      var t' := Clear(t, now');
      (Expired(t', now') <==> DueIn(t, now) == 1) &&
      if DueIn(t, now) == 1 then t' == Timer(now', false) else Sound(t', now') && DueIn(t', now') == DueIn(t, now) - 1
  {
  }

  lemma {:induction false} DueExpires(t: Timer, now: U32)
    requires Sound(t, now)
    ensures FirstExpires(t, now, DueIn(t, now))
    decreases DueIn(t, now)
  {
    TickDue(t, now);
    if DueIn(t, now) > 1 {
      DueExpires(Clear(t, NextTick(now)), NextTick(now));
    }
  }

  lemma {:induction false} ExpiresOnce(t: Timer, now: U32, k: nat, k': nat)
    requires FirstExpires(t, now, k) && FirstExpires(t, now, k')
    ensures k == k'
    decreases k
  {
    var now' := NextTick(now);
    if !Expired(Clear(t, now'), now') {
      ExpiresOnce(Clear(t, now'), now', k - 1, k' - 1);
    }
  }

  lemma StartDue(now: U32, nticks: U32)
    ensures Sound(Start(now, nticks), now) <==> nticks < TWO_32 - 1 || now == TWO_32 - 1
    ensures Sound(Start(now, nticks), now) ==> DueIn(Start(now, nticks), now) == nticks + 1
  {
  }

  /** An alarm started for `nticks` ticks expires on the tick after those, wherever the counter wraps.
      The one exception is the largest interval, whose deadline is the current tick: unless the counter
      is about to wrap, the alarm then expires at once. */
  lemma StartExpiresIff(now: U32, nticks: U32)
    ensures FirstExpires(Start(now, nticks), now, nticks + 1) <==> nticks < TWO_32 - 1 || now == TWO_32 - 1
    ensures nticks == TWO_32 - 1 && now < TWO_32 - 1 ==> FirstExpires(Start(now, nticks), now, 1)
  {
    StartDue(now, nticks);
    if nticks < TWO_32 - 1 || now == TWO_32 - 1 {
      DueExpires(Start(now, nticks), now);
    } else {
      assert Start(now, nticks) == Timer(now, false) && Expired(Timer(now, false), NextTick(now));
    }
  }

  /** After a callback the alarm expires again in exactly the period it asked for. */
  lemma RearmDue(now: U32, period: U32)
    requires period > 0
    ensures var t := Rearm(Timer(now, false), now, period);
      Sound(t, now) && DueIn(t, now) == period && FirstExpires(t, now, period)
  {
    DueExpires(Rearm(Timer(now, false), now, period), now);
  }
}
