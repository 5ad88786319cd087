/** The alarms of the HAL: an intrusive, circular, doubly linked list that a tick walks while alarms
    take themselves off it (alt_llist.h, alt_tick.c, alt_alarm_start.c). */
module Alarms {
  import opened Machine
  import opened AlarmTime

  const EINVAL := 22
  const ENOTSUP := 134

  /** A callback, by what it returns: `answer(k)` is what it returns when it is called for the k-th time,
      an arbitrary function. */
  datatype Callback = Callback(answer: nat -> U32)

  /** What belongs to an alarm besides its links; `calls` is how often the callback has been made. */
  datatype AlarmState = AlarmState(timer: Timer, callback: Callback, calls: nat)

  /** A list element. The head of the list is an element of which only the links are used. */
  class Alarm {
    var next: Alarm
    var previous: Alarm
    var state: AlarmState

    constructor ()
      ensures next == this && previous == this
    {
      next, previous := this, this;
      state := AlarmState(Timer(0, false), Callback(_ => 0), 0);
    }
  }

  /** What comes after, and before, the i-th alarm of the list. The list is a ring through its head. */
  ghost function After(head: Alarm, alarms: seq<Alarm>, i: int): Alarm
    requires -1 <= i < |alarms|
  {
    if i + 1 < |alarms| then alarms[i + 1] else head
  }

  ghost function Before(head: Alarm, alarms: seq<Alarm>, i: int): Alarm
    requires 0 <= i <= |alarms|
  {
    if i > 0 then alarms[i - 1] else head
  }

  ghost predicate Distinct(head: Alarm, alarms: seq<Alarm>) {
    && head !in alarms
    && forall i, j :: 0 <= i < j < |alarms| ==> alarms[i] != alarms[j]
  }

  /** The links of the head and of the alarms. */
  datatype Links = Links(first: Alarm, last: Alarm, nexts: seq<Alarm>, previouses: seq<Alarm>)

  ghost function LinksOf(head: Alarm, alarms: seq<Alarm>): (l: Links)
    reads head, alarms
    ensures l.first == head.next && l.last == head.previous && |l.nexts| == |l.previouses| == |alarms|
    ensures forall i :: 0 <= i < |alarms| ==> l.nexts[i] == alarms[i].next && l.previouses[i] == alarms[i].previous
  {
    Links(head.next, head.previous, seq(|alarms|, i requires 0 <= i < |alarms| reads alarms => alarms[i].next),
          seq(|alarms|, i requires 0 <= i < |alarms| reads alarms => alarms[i].previous))
  }

  /** Both ways round, the links go through the alarms in order. */
  ghost predicate InOrder(head: Alarm, alarms: seq<Alarm>, l: Links) {
    && Distinct(head, alarms)
    && |l.nexts| == |l.previouses| == |alarms|
    && l.first == After(head, alarms, -1) && l.last == Before(head, alarms, |alarms|)
    && (forall i :: 0 <= i < |alarms| ==> l.nexts[i] == After(head, alarms, i))
    && (forall i :: 0 <= i < |alarms| ==> l.previouses[i] == Before(head, alarms, i))
  }

  ghost predicate Linked(head: Alarm, alarms: seq<Alarm>)
    reads head`next, head`previous, alarms`next, alarms`previous
  {
    && Distinct(head, alarms)
    && head.next == After(head, alarms, -1) && head.previous == Before(head, alarms, |alarms|)
    && (forall i :: 0 <= i < |alarms| ==> alarms[i].next == After(head, alarms, i))
    && (forall i :: 0 <= i < |alarms| ==> alarms[i].previous == Before(head, alarms, i))
  }

  lemma LinkedFirst(head: Alarm, alarms: seq<Alarm>)
    requires Linked(head, alarms)
    ensures Distinct(head, alarms) && head.next == (if alarms == [] then head else alarms[0])
    ensures forall i :: 0 <= i < |alarms| ==> alarms[i] != head
  {
  }

  lemma LinkedInOrder(head: Alarm, alarms: seq<Alarm>, k: int)
    requires Linked(head, alarms) && -1 <= k < |alarms|
    ensures InOrder(head, alarms, LinksOf(head, alarms))
    ensures Distinct(head, alarms) && head !in alarms && head.next == After(head, alarms, -1)
    ensures k >= 0 ==>
      && (forall i :: 0 <= i < |alarms| && i != k ==> alarms[i] != alarms[k])
      && alarms[k].next == After(head, alarms, k) != alarms[k]
      && alarms[k].previous == Before(head, alarms, k) != alarms[k]
  {
  }

  /** The list without its k-th element. */
  function Without<T>(s: seq<T>, k: nat): (r: seq<T>)
    requires k < |s|
    ensures |r| == |s| - 1
    ensures forall i :: 0 <= i < |r| ==> r[i] == s[if i < k then i else i + 1]
  {
    s[..k] + s[k + 1..]
  }

  /** Linking the neighbours of the k-th alarm to each other. */
  ghost predicate Unlinks(head: Alarm, alarms: seq<Alarm>, k: nat, l: Links, l': Links)
    requires k < |alarms|
  {
    && |l.nexts| == |l.previouses| == |l'.nexts| == |l'.previouses| == |alarms|
    && var p, n := l.previouses[k], l.nexts[k];
    && l'.first == (if head == p then n else l.first)
    && l'.last == (if head == n then p else l.last)
    && (forall i :: 0 <= i < |alarms| && i != k ==> l'.nexts[i] == if alarms[i] == p then n else l.nexts[i])
    && (forall i :: 0 <= i < |alarms| && i != k ==> l'.previouses[i] == if alarms[i] == n then p else l.previouses[i])
  }

  lemma NextUnlinked(head: Alarm, alarms: seq<Alarm>, k: nat, l: Links, l': Links, i: nat)
    requires InOrder(head, alarms, l) && k < |alarms| && Unlinks(head, alarms, k, l, l') && i < |alarms| - 1
    ensures l'.nexts[if i < k then i else i + 1] == After(head, Without(alarms, k), i)
  {
    var j := if i < k then i else i + 1;
    assert l.nexts[j] == After(head, alarms, j);
    if j == k - 1 {
      assert alarms[j] == l.previouses[k];
    } else {
      assert alarms[j] != l.previouses[k];
    }
  }

  lemma PreviousUnlinked(head: Alarm, alarms: seq<Alarm>, k: nat, l: Links, l': Links, i: nat)
    requires InOrder(head, alarms, l) && k < |alarms| && Unlinks(head, alarms, k, l, l') && i < |alarms| - 1
    ensures l'.previouses[if i < k then i else i + 1] == Before(head, Without(alarms, k), i)
  {
    var j := if i < k then i else i + 1;
    assert l.previouses[j] == Before(head, alarms, j);
    assert Before(head, Without(alarms, k), i) == if j == k + 1 then l.previouses[k] else Before(head, alarms, j);
    if j < k {
      assert alarms[j] != l.nexts[k];
    } else if j == k + 1 {
      assert alarms[j] == l.nexts[k];
    } else {
      assert l.nexts[k] == alarms[k + 1] && alarms[j] != alarms[k + 1];
    }
  }

  lemma HeadUnlinked(head: Alarm, alarms: seq<Alarm>, k: nat, l: Links, l': Links)
    requires InOrder(head, alarms, l) && k < |alarms| && Unlinks(head, alarms, k, l, l')
    ensures Distinct(head, Without(alarms, k))
    ensures l'.first == After(head, Without(alarms, k), -1)
    ensures l'.last == Before(head, Without(alarms, k), |alarms| - 1)
  {
  }

  /** From the head, a list whose k-th alarm points back to the first goes round and round. */
  lemma {:induction false} GoesRound(head: Alarm, alarms: seq<Alarm>, k: nat, list: seq<Alarm>, i: nat)
    requires k < |alarms| && head !in alarms && i <= k && Linked(head, list)
    requires head.next == alarms[k] && alarms[k].next == alarms[0]
    requires forall j :: 0 <= j < k ==> alarms[j].next == alarms[j + 1]
    ensures i + 1 < |list| && list[i + 1] == alarms[i] && list[0] == alarms[k]
  {
    assert After(head, list, -1) == alarms[k] && list[0] == alarms[k];
    if i > 0 {
      GoesRound(head, alarms, k, list, i - 1);
      assert alarms[i - 1].next == alarms[i - 1 + 1];
    }
    assert list[i].next == After(head, list, i) == alarms[i];
  }

  lemma NoListGoesRound(head: Alarm, alarms: seq<Alarm>, k: nat, list: seq<Alarm>)
    requires k < |alarms| && head !in alarms
    requires head.next == alarms[k] && alarms[k].next == alarms[0]
    requires forall j :: 0 <= j < k ==> alarms[j].next == alarms[j + 1]
    ensures !Linked(head, list)
  {
    if Linked(head, list) {
      GoesRound(head, alarms, k, list, k);
      assert false;
    }
  }

  /** No list is left when one of alarms whose links were `l` has been put in front again. */
  lemma NoList(head: Alarm, alarms: seq<Alarm>, l: Links, k: nat)
    requires InOrder(head, alarms, l) && k < |alarms|
    requires head.next == alarms[k] && alarms[k].next == l.first
    requires forall j :: 0 <= j < |alarms| && j != k ==> alarms[j].next == l.nexts[j]
    ensures forall list :: !Linked(head, list)
  {
    hide Linked;
    assert forall j :: 0 <= j < k ==> l.nexts[j] == alarms[j + 1];
    forall list
      ensures !Linked(head, list)
    {
      NoListGoesRound(head, alarms, k, list);
    }
  }

  /** The element comes between the head and what was first. */
  method Link(head: Alarm, entry: Alarm)
    requires entry != head
    modifies head`next, entry`next, entry`previous, head.next`previous
    ensures head.next == entry && entry.next == old(head.next)
    ensures old(head.next) != entry ==> entry.previous == head && old(head.next).previous == entry
  {
    entry.previous := head;
    entry.next := head.next;
    head.next.previous := entry;
    head.next := entry;
  }

  /** The list with the element in front, of alarms whose links were `l`. */
  lemma LinkedAfter(head: Alarm, entry: Alarm, alarms: seq<Alarm>, l: Links)
    requires InOrder(head, alarms, l) && entry != head && entry !in alarms
    requires head.next == entry && entry.next == l.first && entry.previous == head && l.first.previous == entry
    requires alarms != [] ==> head.previous == l.last
    requires forall i :: 0 <= i < |alarms| ==> alarms[i].next == l.nexts[i]
    requires forall i :: 1 <= i < |alarms| ==> alarms[i].previous == l.previouses[i]
    ensures Linked(head, [entry] + alarms)
  {
    var list := [entry] + alarms;
    forall i | 0 <= i < |list|
      ensures list[i].next == After(head, list, i) && list[i].previous == Before(head, list, i)
    {
      if i > 0 {
        assert list[i] == alarms[i - 1] && l.nexts[i - 1] == After(head, alarms, i - 1);
        assert l.previouses[i - 1] == Before(head, alarms, i - 1);
      }
    }
  }

  /** Adds an element as the first. Adding one that is on the list already leaves no list. */
  method Insert(head: Alarm, entry: Alarm, ghost alarms: seq<Alarm>)
    requires Linked(head, alarms) && entry != head
    modifies head`next, head`previous, entry`next, entry`previous, alarms`previous
    ensures entry !in alarms ==> Linked(head, [entry] + alarms)
    ensures entry in alarms ==> forall list :: !Linked(head, list)
  {
    hide Linked, InOrder, LinksOf;
    ghost var l := LinksOf(head, alarms);
    LinkedInOrder(head, alarms, -1);
    LinkedFirst(head, alarms);
    Link(head, entry);
    if entry in alarms {
      ghost var k :| 0 <= k < |alarms| && alarms[k] == entry;
      NoList(head, alarms, l, k);
    } else {
      LinkedAfter(head, entry, alarms, l);
    }
  }

  /** Takes an element out of whatever list it is in, and leaves it linked to itself. One that is
      linked to itself already stays as it is. */
  method Remove(entry: Alarm)
    modifies entry`next, entry`previous, entry.next`previous, entry.previous`next
    ensures entry.next == entry.previous == entry
    ensures old(entry.next) != entry ==> old(entry.next).previous == old(entry.previous)
    ensures old(entry.previous) != entry ==> old(entry.previous).next == old(entry.next)
  {
    entry.next.previous := entry.previous;
    entry.previous.next := entry.next;
    entry.previous := entry;
    entry.next := entry;
  }

  lemma Relinked(head: Alarm, alarms: seq<Alarm>, k: nat, l: Links)
    requires k < |alarms| && InOrder(head, alarms, l) && Unlinks(head, alarms, k, l, LinksOf(head, alarms))
    ensures Linked(head, Without(alarms, k))
  {
    hide InOrder, Unlinks;
    var l' := LinksOf(head, alarms);
    HeadUnlinked(head, alarms, k, l, l');
    forall i | 0 <= i < |alarms| - 1
      ensures Without(alarms, k)[i].next == After(head, Without(alarms, k), i)
    {
      NextUnlinked(head, alarms, k, l, l', i);
    }
    forall i | 0 <= i < |alarms| - 1
      ensures Without(alarms, k)[i].previous == Before(head, Without(alarms, k), i)
    {
      PreviousUnlinked(head, alarms, k, l, l', i);
    }
  }

  method RemoveAt(entry: Alarm, ghost head: Alarm, ghost alarms: seq<Alarm>, ghost k: int)
    requires -1 <= k < |alarms| && entry != head
    requires forall i :: 0 <= i < |alarms| && i != k ==> alarms[i] != entry
    requires k >= 0 ==>
      && entry == alarms[k] && entry.next != entry && entry.previous != entry
      && entry.next == After(head, alarms, k) && entry.previous == Before(head, alarms, k)
    requires k < 0 ==> entry.next == entry.previous == entry
    modifies head`next, head`previous, alarms`next, alarms`previous, entry`next, entry`previous
    ensures k >= 0 ==> Unlinks(head, alarms, k, old(LinksOf(head, alarms)), LinksOf(head, alarms))
    ensures k < 0 ==> unchanged(head) && unchanged(alarms)
    ensures entry.next == entry.previous == entry
  {
    hide Linked;
    Remove(entry);
  }

  /** Taking an alarm out of the list leaves the others linked in order; taking out one that is not in
      it changes nothing. */
  method RemoveFrom(entry: Alarm, ghost head: Alarm, ghost alarms: seq<Alarm>, ghost k: int)
    requires Linked(head, alarms) && -1 <= k < |alarms| && entry != head
    requires if k >= 0 then entry == alarms[k] else entry !in alarms && entry.next == entry.previous == entry
    modifies head`next, head`previous, alarms`next, alarms`previous, entry`next, entry`previous
    ensures Linked(head, if k >= 0 then Without(alarms, k) else alarms)
    ensures entry.next == entry.previous == entry
  {
    hide Linked, InOrder, Unlinks;
    ghost var l := LinksOf(head, alarms);
    LinkedInOrder(head, alarms, k);
    RemoveAt(entry, head, alarms, k);
    if k >= 0 {
      Relinked(head, alarms, k, l);
    }
  }

  /** The alarms that stay, in order. */
  ghost function Keep(alarms: seq<Alarm>, stopped: set<Alarm>): (r: seq<Alarm>)
  {
    if alarms == [] then []
    else
      var a := alarms[|alarms| - 1];
      Keep(alarms[..|alarms| - 1], stopped) + (if a in stopped then [] else [a])
  }

  /** What a tick, now at `now`, does to an alarm. */
  function AfterTick(s: AlarmState, now: U32): AlarmState {
    var t := Clear(s.timer, now);
    if !Expired(t, now) then s.(timer := t)
    else
      var period := s.callback.answer(s.calls);
      AlarmState(if period == 0 then t else Rearm(t, now, period), s.callback, s.calls + 1)
  }

  /** The alarm leaves the list in the tick: its callback is made, and returns zero. */
  predicate Leaves(s: AlarmState, now: U32) {
    Expired(Clear(s.timer, now), now) && s.callback.answer(s.calls) == 0
  }

  /** Over a tick the callback is made exactly when one tick was left; what it returns is when it will
      be made again, if at all. Otherwise there is one tick less to go. */
  lemma TickMeaning(s: AlarmState, before: U32)
    requires Sound(s.timer, before)
    ensures var now := NextTick(before);
      var s' := AfterTick(s, now);
      s'.callback == s.callback &&
      if DueIn(s.timer, before) > 1 then
        s'.calls == s.calls && !Leaves(s, now) &&
        Sound(s'.timer, now) && DueIn(s'.timer, now) == DueIn(s.timer, before) - 1
      else
        s'.calls == s.calls + 1 && (Leaves(s, now) <==> s.callback.answer(s.calls) == 0) &&
        (!Leaves(s, now) ==> Sound(s'.timer, now) && DueIn(s'.timer, now) == s.callback.answer(s.calls))
  {
    TickDue(s.timer, before);
    var period := s.callback.answer(s.calls);
    if period > 0 {
      RearmDue(NextTick(before), period);
    }
  }

  /** What becomes of an alarm over the next `k` ticks, up to the one in which it leaves the list. */
  function AfterTicks(s: AlarmState, now: U32, k: nat): AlarmState
    decreases k
  {
    if k == 0 then s
    else
      var now' := NextTick(now);
      if Leaves(s, now') then AfterTick(s, now') else AfterTicks(AfterTick(s, now'), now', k - 1)
  }

  /** How many calls a plain schedule has in the next `k` ticks: the first when `due` ticks have gone
      by, each later one as long after the one before as that has asked for, until one asks for none. */
  function Scheduled(callback: Callback, calls: nat, due: nat, k: nat): nat
    requires due > 0
    decreases k
  {
    if k < due then 0
    else
      var period := callback.answer(calls);
      1 + if period == 0 then 0 else Scheduled(callback, calls + 1, period, k - due)
  }

  lemma ScheduledStep(callback: Callback, calls: nat, due: nat, k: nat)
    requires due > 0 && k > 0
    ensures due > 1 ==> Scheduled(callback, calls, due, k) == Scheduled(callback, calls, due - 1, k - 1)
  {
  }

  /** In any run of ticks, across any number of wraps of the counter, the callbacks are those of the
      schedule. */
  lemma {:induction false} CallsOnSchedule(s: AlarmState, now: U32, k: nat)
    requires Sound(s.timer, now)
    ensures AfterTicks(s, now, k).calls == s.calls + Scheduled(s.callback, s.calls, DueIn(s.timer, now), k)
    decreases k
  {
    hide AfterTick, Leaves;
    if k > 0 {
      TickMeaning(s, now);
      var now' := NextTick(now);
      if !Leaves(s, now') {
        CallsOnSchedule(AfterTick(s, now'), now', k - 1);
        ScheduledStep(s.callback, s.calls, DueIn(s.timer, now), k);
      }
    }
  }

  /** How many calls in the next `k` ticks go to an alarm whose deadline is the current tick: unless the
      counter is about to wrap, the first comes a tick late, and the next deadline counts from the
      first. */
  function LateCalls(callback: Callback, calls: nat, now: U32, k: nat): nat
    decreases k
  {
    if k == 0 then 0
    else if now == TWO_32 - 1 then Scheduled(callback, calls, TWO_32, k)
    else
      var period := callback.answer(calls);
      1 + if period == 0 then 0
          else if period == 1 then LateCalls(callback, calls + 1, now + 1, k - 1)
          else Scheduled(callback, calls + 1, period - 1, k - 1)
  }

  lemma LateRearm(now: U32, period: U32)
    requires now < TWO_32 - 1 && period > 0
    ensures var t := Rearm(Timer(now, false), now + 1, period);
      if period == 1 then t == Timer(now + 1, false) else Sound(t, now + 1) && DueIn(t, now + 1) == period - 1
  {
  }

  lemma LateTick(s: AlarmState, now: U32)
    requires s.timer == Timer(now, false) && now < TWO_32 - 1
    ensures var s', period := AfterTick(s, now + 1), s.callback.answer(s.calls);
      && s'.callback == s.callback && s'.calls == s.calls + 1 && (Leaves(s, now + 1) <==> period == 0)
      && (period == 1 ==> s'.timer == Timer(now + 1, false))
      && (period > 1 ==> Sound(s'.timer, now + 1) && DueIn(s'.timer, now + 1) == period - 1)
  {
    if s.callback.answer(s.calls) > 0 {
      LateRearm(now, s.callback.answer(s.calls));
    }
  }

  lemma {:induction false} LateRuns(s: AlarmState, now: U32, k: nat)
    requires s.timer == Timer(now, false)
    ensures AfterTicks(s, now, k).calls == s.calls + LateCalls(s.callback, s.calls, now, k)
    decreases k
  {
    hide AfterTick, Leaves, Scheduled, Rearm;
    if now == TWO_32 - 1 {
      CallsOnSchedule(s, now, k);
    } else if k > 0 {
      var period := s.callback.answer(s.calls);
      LateTick(s, now);
      assert NextTick(now) == now + 1;
      if period == 1 {
        LateRuns(AfterTick(s, now + 1), now + 1, k - 1);
      } else if period > 1 {
        CallsOnSchedule(AfterTick(s, now + 1), now + 1, k - 1);
      }
    }
  }

  /** An alarm is called first on the tick after its interval, and then on schedule: the HAL's promise,
      kept for every interval but the largest, whose deadline is the current tick. */
  lemma StartedAlarmRuns(now: U32, interval: U32, callback: Callback, k: nat)
    ensures AfterTicks(AlarmState(AlarmTime.Start(now, interval), callback, 0), now, k).calls ==
      if interval < TWO_32 - 1 then Scheduled(callback, 0, interval + 1, k) else LateCalls(callback, 0, now, k)
  {
    hide AfterTicks, LateCalls, Scheduled;
    var s := AlarmState(AlarmTime.Start(now, interval), callback, 0);
    if interval < TWO_32 - 1 {
      StartDue(now, interval);
      CallsOnSchedule(s, now, k);
    } else {
      LateRuns(s, now, k);
    }
  }

  ghost function States(alarms: seq<Alarm>): (r: seq<AlarmState>)
    reads alarms`state
    ensures |r| == |alarms|
    ensures forall i :: 0 <= i < |alarms| ==> r[i] == alarms[i].state
  {
    if alarms == [] then [] else States(alarms[..|alarms| - 1]) + [alarms[|alarms| - 1].state]
  }

  /** Those of `items` whose alarms stay through a tick, in order, of the first `n`. */
  function Staying<T>(items: seq<T>, states: seq<AlarmState>, now: U32, n: nat): (r: seq<T>)
    requires n <= |items| == |states|
  {
    if n == 0 then []
    else Staying(items, states, now, n - 1) + (if Leaves(states[n - 1], now) then [] else [items[n - 1]])
  }

  // ---- Many ticks ----

  function Later(now: U32, k: nat): U32
    decreases k
  {
    if k == 0 then now else Later(NextTick(now), k - 1)
  }

  lemma {:induction false} LaterNext(now: U32, k: nat)
    ensures Later(now, k + 1) == NextTick(Later(now, k))
    decreases k
  {
    if k > 0 {
      LaterNext(NextTick(now), k - 1);
    }
  }

  /** The alarm leaves the list within `k` ticks. */
  predicate Gone(s: AlarmState, now: U32, k: nat)
    decreases k
  {
    k > 0 &&
    var now' := NextTick(now);
    Leaves(s, now') || Gone(AfterTick(s, now'), now', k - 1)
  }

  lemma {:induction false} OneTickMore(s: AlarmState, now: U32, k: nat)
    ensures var next := NextTick(Later(now, k));
      && (Gone(s, now, k + 1) <==> Gone(s, now, k) || Leaves(AfterTicks(s, now, k), next))
      && AfterTicks(s, now, k + 1) ==
        if Gone(s, now, k) then AfterTicks(s, now, k) else AfterTick(AfterTicks(s, now, k), next)
    decreases k
  {
    hide AfterTick, Leaves, NextTick;
    if k > 0 {
      OneTickMore(AfterTick(s, NextTick(now)), NextTick(now), k - 1);
    }
  }

  function AfterAll(was: seq<AlarmState>, now: U32, k: nat): (r: seq<AlarmState>)
    ensures |r| == |was|
  {
    seq(|was|, i requires 0 <= i < |was| => AfterTicks(was[i], now, k))
  }

  /** Those of `items` whose alarms are still there after `k` ticks, in order, of the first `n`. */
  function Remaining<T>(items: seq<T>, was: seq<AlarmState>, now: U32, k: nat, n: nat): (r: seq<T>)
    requires n <= |items| == |was|
  {
    if n == 0 then []
    else Remaining(items, was, now, k, n - 1) + (if Gone(was[n - 1], now, k) then [] else [items[n - 1]])
  }

  lemma {:induction false} RemainingLength<S, T>(items: seq<S>, others: seq<T>, was: seq<AlarmState>, now: U32, k: nat,
      n: nat)
    requires n <= |items| == |was| == |others|
    ensures |Remaining(items, was, now, k, n)| == |Remaining(others, was, now, k, n)|
  {
    if n > 0 {
      RemainingLength(items, others, was, now, k, n - 1);
    }
  }

  lemma {:induction false} StayingOfMore<T>(items: seq<T>, states: seq<AlarmState>, x: T, s: AlarmState, now: U32,
      n: nat)
    requires n <= |items| == |states|
    ensures Staying(items + [x], states + [s], now, n) == Staying(items, states, now, n)
  {
    if n > 0 {
      StayingOfMore(items, states, x, s, now, n - 1);
    }
  }

  lemma StayingAppend<T>(items: seq<T>, states: seq<AlarmState>, x: T, s: AlarmState, now: U32)
    requires |items| == |states|
    ensures Staying(items + [x], states + [s], now, |items| + 1) ==
      Staying(items, states, now, |items|) + if Leaves(s, now) then [] else [x]
  {
    StayingOfMore(items, states, x, s, now, |items|);
  }

  lemma RemainingNext<T>(items: seq<T>, was: seq<AlarmState>, now: U32, k: nat, n: nat)
    requires n < |items| == |was|
    ensures Remaining(items, was, now, k, 0) == []
    ensures Remaining(items, was, now, k, n + 1) ==
      if Gone(was[n], now, k) then Remaining(items, was, now, k, n) else Remaining(items, was, now, k, n) + [items[n]]
  {
  }

  lemma NoneStay<T>(items: seq<T>, was: seq<AlarmState>, now: U32, k: nat, next: U32)
    requires |items| == |was|
    ensures Remaining(items, was, now, k, 0) == Remaining(items, was, now, k + 1, 0) == []
    ensures Remaining(AfterAll(was, now, k), was, now, k, 0) == []
    ensures Staying<T>([], [], next, 0) == []
  {
  }

  /** Those that stay through one more tick, of those still there after `k`. */
  lemma {:induction false} RemainingStay<T>(items: seq<T>, was: seq<AlarmState>, now: U32, k: nat, n: nat)
    requires n <= |items| == |was|
    ensures var left, states := Remaining(items, was, now, k, n), Remaining(AfterAll(was, now, k), was, now, k, n);
      |left| == |states| &&
      Staying(left, states, NextTick(Later(now, k)), |left|) == Remaining(items, was, now, k + 1, n)
  {
    hide Gone, AfterTicks, Leaves, Later, NextTick, Remaining, Staying;
    var afters := AfterAll(was, now, k);
    var next := NextTick(Later(now, k));
    RemainingLength(items, afters, was, now, k, n);
    if n == 0 {
      NoneStay(items, was, now, k, next);
    } else {
      var left, states := Remaining(items, was, now, k, n - 1), Remaining(afters, was, now, k, n - 1);
      RemainingStay(items, was, now, k, n - 1);
      OneTickMore(was[n - 1], now, k);
      RemainingNext(items, was, now, k, n - 1);
      RemainingNext(items, was, now, k + 1, n - 1);
      RemainingNext(afters, was, now, k, n - 1);
      StayingAppend(left, states, items[n - 1], afters[n - 1], next);
    }
  }

  lemma {:induction false} RemainingWithin<T>(items: seq<T>, was: seq<AlarmState>, now: U32, k: nat, n: nat)
    requires n <= |items| == |was|
    ensures forall i :: 0 <= i < |Remaining(items, was, now, k, n)| ==>
      Remaining(items, was, now, k, n)[i] in items[..n]
  {
    hide Gone;
    if n > 0 {
      RemainingWithin(items, was, now, k, n - 1);
      assert items[..n] == items[..n - 1] + [items[n - 1]];
    }
  }

  lemma {:induction false} RemainingOnes(head: Alarm, alarms: seq<Alarm>, was: seq<AlarmState>, now: U32, k: nat,
      n: nat)
    requires n <= |alarms| == |was| && Distinct(head, alarms)
    ensures forall i :: 0 <= i < n ==> (alarms[i] in Remaining(alarms, was, now, k, n) <==> !Gone(was[i], now, k))
  {
    hide Gone;
    if n > 0 {
      RemainingOnes(head, alarms, was, now, k, n - 1);
      RemainingWithin(alarms, was, now, k, n - 1);
    }
  }

  lemma {:induction false} RemainingStates(alarms: seq<Alarm>, was: seq<AlarmState>, now: U32, k: nat, n: nat)
    requires n <= |alarms| == |was|
    requires forall i :: 0 <= i < n ==> alarms[i].state == AfterTicks(was[i], now, k)
    ensures States(Remaining(alarms, was, now, k, n)) == Remaining(AfterAll(was, now, k), was, now, k, n)
  {
    hide Gone, AfterTicks;
    if n > 0 {
      var left := Remaining(alarms, was, now, k, n - 1);
      RemainingStates(alarms, was, now, k, n - 1);
      assert AfterAll(was, now, k)[n - 1] == alarms[n - 1].state;
      assert (left + [alarms[n - 1]])[..|left|] == left && left + [] == left;
    }
  }

  lemma {:induction false} AllRemain(alarms: seq<Alarm>, was: seq<AlarmState>, now: U32, n: nat)
    requires n <= |alarms| == |was|
    ensures Remaining(alarms, was, now, 0, n) == alarms[..n] && alarms[..|alarms|] == alarms
    ensures forall i :: 0 <= i < |was| ==> AfterTicks(was[i], now, 0) == was[i]
  {
    if n > 0 {
      AllRemain(alarms, was, now, n - 1);
    }
  }

  lemma StayingStart(all: seq<Alarm>, was: seq<AlarmState>, now: U32)
    requires |all| == |was|
    ensures Staying(all, was, now, 0) == []
  {
  }

  lemma StayingStep(head: Alarm, all: seq<Alarm>, was: seq<AlarmState>, now: U32, i: nat)
    requires i < |all| == |was|
    ensures var kept := Staying(all, was, now, i);
      var s := kept + all[i..];
      && s[|kept|] == all[i]
      && Staying(all, was, now, i + 1) + all[i + 1..] == (if Leaves(was[i], now) then Without(s, |kept|) else s)
      && After(head, s, |kept|) == (if i + 1 < |all| then all[i + 1] else head)
  {
    hide Leaves;
    var kept := Staying(all, was, now, i);
    var s := kept + all[i..];
    assert all[i..] == [all[i]] + all[i + 1..];
    assert Without(s, |kept|) == kept + all[i + 1..];
  }

  lemma {:induction false} StayingWithin(all: seq<Alarm>, was: seq<AlarmState>, now: U32, n: nat)
    requires n <= |all| == |was|
    ensures forall i :: 0 <= i < |Staying(all, was, now, n)| ==> Staying(all, was, now, n)[i] in all
  {
    hide Leaves;
    if n > 0 {
      StayingWithin(all, was, now, n - 1);
    }
  }

  lemma StayingFrom(all: seq<Alarm>, was: seq<AlarmState>, now: U32, i: nat)
    requires i < |all| == |was|
    ensures var s := Staying(all, was, now, i) + all[i..];
      forall j :: 0 <= j < |s| ==> s[j] in all
  {
    hide Staying;
    StayingWithin(all, was, now, i);
  }

  lemma DistinctAt(head: Alarm, alarms: seq<Alarm>, i: nat)
    requires Distinct(head, alarms) && i < |alarms|
    ensures forall j :: 0 <= j < |alarms| && j != i ==> alarms[j] != alarms[i]
  {
  }

  lemma {:induction false} KeepAll(alarms: seq<Alarm>, stopped: set<Alarm>)
    requires forall a :: a in alarms ==> a !in stopped
    ensures Keep(alarms, stopped) == alarms
  {
    if alarms != [] {
      var n := |alarms| - 1;
      KeepAll(alarms[..n], stopped);
      assert alarms == alarms[..n] + [alarms[n]];
    }
  }

  lemma {:induction false} KeepOthers(alarms: seq<Alarm>, k: nat)
    requires k < |alarms| && forall i :: 0 <= i < |alarms| && i != k ==> alarms[i] != alarms[k]
    ensures Keep(alarms, {alarms[k]}) == Without(alarms, k)
  {
    var n := |alarms| - 1;
    if k == n {
      KeepAll(alarms[..n], {alarms[k]});
    } else {
      KeepOthers(alarms[..n], k);
      assert Without(alarms, k) == Without(alarms[..n], k) + [alarms[n]];
    }
  }

  class Clock {
    var tickRate: U32
    var nticks: U32
    const head: Alarm
    ghost var alarms: seq<Alarm>

    constructor ()
      ensures Linked(head, alarms) && alarms == [] && nticks == 0 && tickRate == 0 && fresh(head)
    {
      tickRate, nticks, alarms := 0, 0, [];
      head := new Alarm();
    }

    /** Registers an alarm as the first of the list. Registering one again before it has left the list
        ruins the list. */
    method Start(alarm: Alarm?, interval: U32, callback: Callback) returns (retCode: int)
      requires Linked(head, alarms) && alarm != head
      modifies this`alarms, head`next, head`previous, alarms`previous, if alarm == null then {} else {alarm}
      ensures retCode == if tickRate == 0 then -ENOTSUP else if alarm == null then -EINVAL else 0
      ensures alarms == if retCode == 0 then [alarm] + old(alarms) else old(alarms)
      ensures retCode != 0 || alarm !in old(alarms) ==> Linked(head, alarms)
      ensures retCode == 0 && alarm in old(alarms) ==> forall list :: !Linked(head, list)
      ensures retCode == 0 ==> alarm.state == AlarmState(AlarmTime.Start(nticks, interval), callback, 0)
    {
      hide Linked;
      if tickRate == 0 {
        return -ENOTSUP;
      }
      if alarm == null {
        return -EINVAL;
      }
      var time := (interval + nticks + 1) % TWO_32;
      alarm.state := AlarmState(Timer(time, time < nticks), callback, 0);
      Insert(head, alarm, alarms);
      alarms := [alarm] + alarms;
      retCode := 0;
    }

    /** Takes an alarm off the list; one that is off it already stays as it is. */
    method Stop(alarm: Alarm)
      requires Linked(head, alarms) && alarm != head
      requires alarm !in alarms ==> alarm.next == alarm.previous == alarm
      modifies this`alarms, head`next, head`previous, alarms`next, alarms`previous, alarm`next, alarm`previous
      ensures Linked(head, alarms) && alarm.next == alarm.previous == alarm
      ensures alarms == Keep(old(alarms), {alarm})
    {
      hide Linked, Keep, InOrder;
      ghost var k := -1;
      if alarm in alarms {
        k :| 0 <= k < |alarms| && alarms[k] == alarm;
        LinkedInOrder(head, alarms, k);
        KeepOthers(alarms, k);
      } else {
        KeepAll(alarms, {alarm});
      }
      RemoveFrom(alarm, head, alarms, k);
      alarms := if k >= 0 then Without(alarms, k) else alarms;
    }

    /** The part of a tick that one alarm sees. */
    method Visit(alarm: Alarm, ghost k: nat, ghost all: seq<Alarm>)
      requires Linked(head, alarms) && k < |alarms| && alarm == alarms[k] && alarm != head
      requires forall i :: 0 <= i < |alarms| ==> alarms[i] in all
      modifies this`alarms, head`next, head`previous, all`next, all`previous, alarm`state
      ensures Linked(head, alarms) && alarm.state == AfterTick(old(alarm.state), nticks)
      ensures alarms == if Leaves(old(alarm.state), nticks) then Without(old(alarms), k) else old(alarms)
      ensures Leaves(old(alarm.state), nticks) ==> alarm.next == alarm.previous == alarm
    {
      hide Linked;
      var AlarmState(Timer(time, rollover), callback, calls) := alarm.state;
      if rollover && nticks == 0 {
        rollover := false;
      }
      if time <= nticks && !rollover {
        var nextCallback := callback.answer(calls);
        calls := calls + 1;
        if nextCallback == 0 {
          RemoveFrom(alarm, head, alarms, k);
          alarms := Without(alarms, k);
        } else {
          time := (time + nextCallback) % TWO_32;
          if time < nticks {
            rollover := true;
          }
        }
      }
      alarm.state := AlarmState(Timer(time, rollover), callback, calls);
    }

    /** The visit to the i-th of the alarms there were when the tick began, and the step to the next,
        whose place is read before the alarm can leave the list. */
    method VisitNth(alarm: Alarm, ghost all: seq<Alarm>, ghost was: seq<AlarmState>, ghost i: nat)
      returns (next: Alarm)
      requires Linked(head, alarms) && Distinct(head, all) && i < |all| == |was| && alarm == all[i]
      requires alarms == Staying(all, was, nticks, i) + all[i..] && alarm.state == was[i]
      modifies this`alarms, head`next, head`previous, all`next, all`previous, alarm`state
      ensures Linked(head, alarms) && alarms == Staying(all, was, nticks, i + 1) + all[i + 1..]
      ensures next == (if i + 1 < |all| then all[i + 1] else head) && alarm.state == AfterTick(was[i], nticks)
      ensures forall j :: 0 <= j < |all| && j != i ==> all[j].state == old(all[j].state)
    {
      hide Linked, Staying, InOrder, Leaves, AfterTick;
      ghost var k := |Staying(all, was, nticks, i)|;
      StayingStep(head, all, was, nticks, i);
      StayingFrom(all, was, nticks, i);
      DistinctAt(head, all, i);
      LinkedInOrder(head, alarms, k);
      next := alarm.next;
      Visit(alarm, k, all);
    }

    /** The walk along the list. */
    method Walk(first: Alarm, ghost all: seq<Alarm>, ghost was: seq<AlarmState>)
      requires Linked(head, alarms) && alarms == all && Distinct(head, all) && |was| == |all|
      requires first == (if all == [] then head else all[0])
      requires forall j :: 0 <= j < |all| ==> all[j] != head && all[j].state == was[j]
      modifies this`alarms, head`next, head`previous, all`next, all`previous, all`state
      ensures Linked(head, alarms) && alarms == Staying(all, was, nticks, |all|)
      ensures forall j :: 0 <= j < |all| ==> all[j].state == AfterTick(was[j], nticks)
    {
      hide Linked, Staying, InOrder, Leaves, AfterTick, Distinct, States, After, Before;
      StayingStart(all, was, nticks);
      ghost var i := 0;
      var alarm := first;
      while alarm != head
        invariant 0 <= i <= |all| && alarm == (if i < |all| then all[i] else head)
        invariant Linked(head, alarms) && alarms == Staying(all, was, nticks, i) + all[i..]
        invariant forall j :: 0 <= j < i ==> all[j].state == AfterTick(was[j], nticks)
        invariant forall j :: i <= j < |all| ==> all[j].state == was[j]
        decreases |all| - i
      {
        alarm := VisitNth(alarm, all, was, i);
        i := i + 1;
      }
    }

    /** One tick: every alarm is visited once, and those whose callback returns zero leave the list. */
    method Tick()
      requires Linked(head, alarms)
      modifies this`nticks, this`alarms, head`next, head`previous, alarms`next, alarms`previous, alarms`state
      ensures nticks == NextTick(old(nticks)) && Linked(head, alarms)
      ensures var all, was := old(alarms), old(States(alarms));
        && alarms == Staying(all, was, nticks, |all|)
        && forall i :: 0 <= i < |all| ==> all[i].state == AfterTick(was[i], nticks)
    {
      hide Linked, Staying, Leaves, AfterTick, Distinct;
      LinkedFirst(head, alarms);
      ghost var was := States(alarms);
      nticks := (nticks + 1) % TWO_32;
      Walk(head.next, alarms, was);
    }

    /** The next of a number of ticks; `i` have gone by since the alarms were `all` in states `was`. */
    method TickOn(ghost all: seq<Alarm>, ghost was: seq<AlarmState>, ghost now: U32, ghost i: nat)
      requires Linked(head, alarms) && Distinct(head, all) && |was| == |all|
      requires nticks == Later(now, i) && alarms == Remaining(all, was, now, i, |all|)
      requires forall j :: 0 <= j < |all| ==> all[j].state == AfterTicks(was[j], now, i)
      modifies this`nticks, this`alarms, head`next, head`previous, all`next, all`previous, all`state
      ensures Linked(head, alarms)
      ensures nticks == Later(now, i + 1) && alarms == Remaining(all, was, now, i + 1, |all|)
      ensures forall j :: 0 <= j < |all| ==> all[j].state == AfterTicks(was[j], now, i + 1)
    {
      hide Linked, Staying, Remaining, AfterTicks, AfterTick, Later, NextTick, Gone, States;
      RemainingWithin(all, was, now, i, |all|);
      RemainingOnes(head, all, was, now, i, |all|);
      assert all[..|all|] == all;
      RemainingStates(all, was, now, i, |all|);
      RemainingStay(all, was, now, i, |all|);
      ghost var left, states := alarms, States(alarms);
      assert forall x :: 0 <= x < |left| ==> states[x] == left[x].state;
      Tick();
      forall j | 0 <= j < |all|
        ensures all[j].state == AfterTicks(was[j], now, i + 1)
      {
        OneTickMore(was[j], now, i);
        if !Gone(was[j], now, i) {
          var x :| 0 <= x < |left| && left[x] == all[j];
        }
      }
      LaterNext(now, i);
    }

    /** Any number of ticks: each alarm ends in the state that its own ticks take it to, and the list is
        the old one, in order, without the alarms that have left. */
    method Ticks(k: nat)
      requires Linked(head, alarms)
      modifies this`nticks, this`alarms, head`next, head`previous, alarms`next, alarms`previous, alarms`state
      ensures nticks == Later(old(nticks), k) && Linked(head, alarms)
      ensures var all, was := old(alarms), old(States(alarms));
        && alarms == Remaining(all, was, old(nticks), k, |all|)
        && forall i :: 0 <= i < |all| ==> all[i].state == AfterTicks(was[i], old(nticks), k)
    {
      hide Linked, Gone, Remaining, AfterTicks, States, Distinct, InOrder, NextTick;
      ghost var all, was, now := alarms, States(alarms), nticks;
      LinkedInOrder(head, alarms, -1);
      AllRemain(all, was, now, |all|);
      var i := 0;
      while i < k
        invariant 0 <= i <= k && Linked(head, alarms)
        invariant nticks == Later(now, i) && alarms == Remaining(all, was, now, i, |all|)
        invariant forall j :: 0 <= j < |all| ==> all[j].state == AfterTicks(was[j], now, i)
      {
        TickOn(all, was, now, i);
        i := i + 1;
      }
    }
  }
}
