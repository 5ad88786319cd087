/** The quadrature encoder counter of the card (rtl/encode_pd.v): a pipeline of registers that all take
    their next values at the same clock edge. */
module EncodePd {

  import opened Machine

  const PERIOD := 100000

  /** The inputs sampled at a clock edge. */
  datatype In = In(a: bool, b: bool, renew: bool)

  /** The counter of the one-millisecond window, with its flag delayed by one clock and by two. */
  datatype Timer = Timer(clkCnt: nat, flag: bool, flagT: bool, flagTt: bool)

  /** Edge detection on the exclusive-or of the lines, and the samples that give the direction. */
  datatype Detector = Detector(
    signalC: bool, signalD: bool, countPlus: bool,
    plusAT: bool, plusATt: bool, plusBT: bool, dirReg: bool)

  datatype Counters = Counters(up: U32, down: U32)

  datatype Regs = Regs(
    timer: Timer, detector: Detector, window: Counters, total: Counters, deltaCount: U32, totalCount: U32)

  function Reset(): Regs {
    Regs(Timer(0, false, false, false), Detector(false, false, false, false, false, false, false),
         Counters(0, 0), Counters(0, 0), 0, 0)
  }

  /** 32-bit addition. */
  function Add(x: U32, y: U32): U32 {
    if x + y < TWO_32 then x + y else x + y - TWO_32
  }

  lemma AddIsModular(x: U32, y: U32)
    ensures Add(x, y) == (x + y) % TWO_32
  {
  }

  lemma AddAssociates(x: U32, y: U32, z: U32)
    ensures Add(Add(x, y), z) == Add(x, Add(y, z)) && Add(x, y) == Add(y, x)
  {
  }

  function Sum(c: Counters): U32 {
    Add(c.up, c.down)
  }

  /** The rising edge of the flag, two clocks after it. */
  predicate DeltaPos(t: Timer) {
    !t.flagTt && t.flagT
  }

  function NextTimer(t: Timer): Timer {
    Timer(if t.clkCnt == PERIOD - 1 then 0 else t.clkCnt + 1, t.clkCnt == PERIOD - 1, t.flag, t.flagT)
  }

  function NextDetector(d: Detector, i: In): Detector {
    Detector(
      i.a != i.b, d.signalC, d.signalC != d.signalD,
      if d.countPlus then i.a else d.plusAT,
      if d.countPlus then d.plusAT else d.plusATt,
      if d.countPlus then i.b else d.plusBT,
      d.plusATt != d.plusBT)
  }

  function NextCounters(c: Counters, clear: bool, d: Detector): Counters {
    if clear then Counters(0, 0)
    else if !d.countPlus then c
    else if d.dirReg then c.(down := Add(c.down, 1))
    else c.(up := Add(c.up, 1))
  }

  /** The registers after a clock edge. */
  function Next(r: Regs, i: In): Regs {
    Regs(
      NextTimer(r.timer),
      NextDetector(r.detector, i),
      NextCounters(r.window, i.renew || DeltaPos(r.timer), r.detector),
      NextCounters(r.total, i.renew, r.detector),
      if r.timer.flag then Sum(r.window) else r.deltaCount,
      if r.timer.flag then Sum(r.total) else r.totalCount)
  }

  function Run(r: Regs, ins: seq<In>): Regs {
    if ins == [] then r else Next(Run(r, ins[..|ins| - 1]), ins[|ins| - 1])
  }

  predicate NoRenew(ins: seq<In>) {
    forall i :: 0 <= i < |ins| ==> !ins[i].renew
  }

  /** The module itself, register by register. */
  class Encoder {
    var clkCnt: nat
    var deltaFlag: bool
    var deltaFlagT: bool
    var deltaFlagTt: bool
    var signalC: bool
    var signalD: bool
    var countPlus: bool
    var plusAT: bool
    var plusATt: bool
    var plusBT: bool
    var dirReg: bool
    var countUp: U32
    var countDown: U32
    var countUpT: U32
    var countDownT: U32
    var deltaCount: U32
    var totalCount: U32

    function TimerState(): Timer
      reads this`clkCnt, this`deltaFlag, this`deltaFlagT, this`deltaFlagTt
    {
      Timer(clkCnt, deltaFlag, deltaFlagT, deltaFlagTt)
    }

    function DetectorState(): Detector
      reads this`signalC, this`signalD, this`countPlus, this`plusAT, this`plusATt, this`plusBT, this`dirReg
    {
      Detector(signalC, signalD, countPlus, plusAT, plusATt, plusBT, dirReg)
    }

    function WindowState(): Counters
      reads this`countUp, this`countDown
    {
      Counters(countUp, countDown)
    }

    function TotalState(): Counters
      reads this`countUpT, this`countDownT
    {
      Counters(countUpT, countDownT)
    }

    function State(): Regs
      reads this
    {
      Regs(TimerState(), DetectorState(), WindowState(), TotalState(), deltaCount, totalCount)
    }

    constructor ()
      ensures State() == Reset()
    {
      clkCnt := 0;
      deltaFlag, deltaFlagT, deltaFlagTt := false, false, false;
      signalC, signalD, countPlus := false, false, false;
      plusAT, plusATt, plusBT, dirReg := false, false, false, false;
      countUp, countDown, countUpT, countDownT := 0, 0, 0, 0;
      deltaCount, totalCount := 0, 0;
    }

    method Outputs()
      modifies this`deltaCount, this`totalCount
      ensures deltaCount == if TimerState().flag then Sum(WindowState()) else old(deltaCount)
      ensures totalCount == if TimerState().flag then Sum(TotalState()) else old(totalCount)
    {
      if deltaFlag {
        deltaCount := Add(countUp, countDown);
        totalCount := Add(countUpT, countDownT);
      }
    }

    method TotalCounters(renew: bool)
      modifies this`countUpT, this`countDownT
      ensures TotalState() == NextCounters(old(TotalState()), renew, DetectorState())
    {
      if renew {
        countUpT, countDownT := 0, 0;
      } else if countPlus {
        if dirReg {
          countDownT := Add(countDownT, 1);
        } else {
          countUpT := Add(countUpT, 1);
        }
      }
    }

    method WindowCounters(renew: bool)
      modifies this`countUp, this`countDown
      ensures WindowState() == NextCounters(old(WindowState()), renew || DeltaPos(TimerState()), DetectorState())
    {
      var deltaPos := !deltaFlagTt && deltaFlagT;
      if renew {
        countUp, countDown := 0, 0;
      } else if deltaPos {
        countUp, countDown := 0, 0;
      } else if countPlus {
        if dirReg {
          countDown := Add(countDown, 1);
        } else {
          countUp := Add(countUp, 1);
        }
      }
    }

    method Sampling(plusA: bool, plusB: bool, renew: bool)
      modifies this`dirReg, this`plusAT, this`plusATt, this`plusBT, this`signalC, this`signalD, this`countPlus
      ensures DetectorState() == NextDetector(old(DetectorState()), In(plusA, plusB, renew))
    {
      dirReg := plusATt != plusBT;
      if countPlus {
        plusATt, plusAT, plusBT := plusAT, plusA, plusB;
      }
      signalC, signalD, countPlus := plusA != plusB, signalC, signalC != signalD;
    }

    method Timing()
      modifies this`clkCnt, this`deltaFlag, this`deltaFlagT, this`deltaFlagTt
      ensures TimerState() == NextTimer(old(TimerState()))
    {
      deltaFlagTt := deltaFlagT;
      deltaFlagT := deltaFlag;
      if clkCnt == PERIOD - 1 {
        clkCnt, deltaFlag := 0, true;
      } else {
        clkCnt, deltaFlag := clkCnt + 1, false;
      }
    }

    /** A rising clock edge: the blocks that read a register come before the one that assigns it, so
        that all of them see the values from before the edge. */
    method Clock(plusA: bool, plusB: bool, renew: bool)
      modifies this
      ensures State() == Next(old(State()), In(plusA, plusB, renew))
    {
      hide Add, Sum, DeltaPos, NextCounters, NextDetector, NextTimer,
           TimerState, DetectorState, WindowState, TotalState;
      Outputs();
      TotalCounters(renew);
      WindowCounters(renew);
      Sampling(plusA, plusB, renew);
      Timing();
    }
  }

  // ---- The one-millisecond window ----

  /** The registers that time the window, `p` clocks into a period; `warm` after the first one. */
  predicate Phase(r: Regs, p: nat, warm: bool) {
    && p < PERIOD && r.timer.clkCnt == p
    && r.timer.flag == (warm && p == 0)
    && r.timer.flagT == (warm && p == 1)
    && r.timer.flagTt == (warm && p == 2)
  }

  /** The flag of the window is up once in a hundred thousand clocks from reset, and at no other. */
  lemma {:induction false} PhaseOf(ins: seq<In>)
    ensures Phase(Run(Reset(), ins), |ins| % 100000, |ins| >= 100000)
  {
    if ins != [] {
      PhaseOf(ins[..|ins| - 1]);
    }
  }

  function Total(r: Regs): U32 {
    Sum(r.total)
  }

  function Window(r: Regs): U32 {
    Sum(r.window)
  }

  function Pulse(r: Regs): U32 {
    if r.detector.countPlus then 1 else 0
  }

  lemma TotalStep(r: Regs, i: In)
    ensures Total(Next(r, i)) == if i.renew then 0 else Add(Total(r), Pulse(r))
    ensures Window(Next(r, i)) == if i.renew || DeltaPos(r.timer) then 0 else Add(Window(r), Pulse(r))
  {
  }

  lemma PhaseStep(r: Regs, i: In, p: nat, warm: bool)
    requires Phase(r, p, warm)
    ensures Phase(Next(r, i), if p == PERIOD - 1 then 0 else p + 1, warm || p == PERIOD - 1)
    ensures DeltaPos(r.timer) <==> warm && p == 1
  {
  }

  lemma SmallSums(x: U32, y: U32, z: U32)
    requires y + z < TWO_32
    ensures Add(Add(x, y), z) == Add(x, y + z) && Add(x, 0) == x && Add(0, x) == x
  {
  }

  /** There is a renew after the first of the inputs. */
  predicate Renewed(ins: seq<In>) {
    exists k :: 1 <= k < |ins| && ins[k].renew
  }

  lemma RenewedMore(ins: seq<In>, i: In)
    requires ins != []
    ensures Renewed(ins + [i]) <==> Renewed(ins) || i.renew
  {
    if Renewed(ins) {
      var k :| 1 <= k < |ins| && ins[k].renew;
      assert (ins + [i])[k].renew;
    }
    if i.renew {
      assert (ins + [i])[|ins|].renew;
    }
  }

  /** By how much the total is ahead of a window cleared in the inputs: what it had before, with the
      pulses of the two clocks around the clearing, as far as no renew has cleared it as well. */
  function Lead(r: Regs, ins: seq<In>): U32
    requires ins != []
  {
    var second := Pulse(Next(r, ins[0]));
    if Renewed(ins) then 0 else if ins[0].renew then second else Add(Total(r), Pulse(r) + second)
  }

  lemma SecondClock(r: Regs, ins: seq<In>)
    requires Phase(r, 0, true) && |ins| == 2
    ensures Phase(Run(r, ins), 2, true)
    ensures Window(Run(r, ins)) == 0 && Total(Run(r, ins)) == Lead(r, ins)
  {
    hide Add, Next, Total, Window, Phase;
    var first := Next(r, ins[0]);
    assert ins[..1][..0] == [] && ins == ins[..1] + [ins[1]] && Run(r, ins[..1]) == first;
    RenewedMore(ins[..1], ins[1]);
    TotalStep(r, ins[0]);
    TotalStep(first, ins[1]);
    PhaseStep(r, ins[0], 0, true);
    PhaseStep(first, ins[1], 1, true);
    SmallSums(Total(r), Pulse(r), Pulse(first));
    SmallSums(Pulse(first), 0, 0);
  }

  /** From the second clock of a period on, the total and the window grow together. */
  lemma {:induction false} WindowGrows(r: Regs, ins: seq<In>)
    requires Phase(r, 0, true) && 2 <= |ins| <= PERIOD
    ensures Phase(Run(r, ins), |ins| % PERIOD, true)
    ensures Total(Run(r, ins)) == Add(Lead(r, ins), Window(Run(r, ins)))
  {
    hide Add, Next, Total, Window, Phase;
    var n := |ins| - 1;
    if n == 1 {
      SecondClock(r, ins);
      SmallSums(Lead(r, ins), 0, 0);
    } else {
      var last := Run(r, ins[..n]);
      WindowGrows(r, ins[..n]);
      TotalStep(last, ins[n]);
      PhaseStep(last, ins[n], n, true);
      assert ins == ins[..n] + [ins[n]];
      RenewedMore(ins[..n], ins[n]);
      AddAssociates(Lead(r, ins[..n]), Window(last), Pulse(last));
      SmallSums(0, 0, 0);
    }
  }

  lemma Published(r: Regs, i: In)
    requires r.timer.flag
    ensures Next(r, i).totalCount == Total(r) && Next(r, i).deltaCount == Window(r)
  {
  }

  /** The outputs are updated on the clock after every hundred thousand from reset, to the sums of the
      counters, and on no other. */
  lemma Updates(ins: seq<In>, i: In)
    ensures var r := Run(Reset(), ins);
      var next := Next(r, i);
      if |ins| >= 100000 && |ins| % 100000 == 0 then
        next.totalCount == Total(r) && next.deltaCount == Window(r)
      else
        next.totalCount == r.totalCount && next.deltaCount == r.deltaCount
  {
    hide Run, Add;
    PhaseOf(ins);
  }

  /** Before the first update the outputs are zero. */
  lemma {:induction false} NoOutputsYet(ins: seq<In>)
    requires |ins| <= 100000
    ensures Run(Reset(), ins).totalCount == 0 && Run(Reset(), ins).deltaCount == 0
  {
    hide Next;
    if ins != [] {
      NoOutputsYet(ins[..|ins| - 1]);
      Updates(ins[..|ins| - 1], ins[|ins| - 1]);
    }
  }

  lemma AddSwaps(x: U32, y: U32, z: U32)
    ensures Add(Add(x, y), z) == Add(Add(x, z), y)
  {
  }

  /** From one update to the next, for all inputs: with no renew, the total grows by what the window
      publishes and by the pulses of the two clocks around the clearing of the window, by at most two
      more. If the last renew comes with the first of these clocks, the total is ahead of the window by
      the pulse of the second, and if it comes later they are the same. */
  lemma WindowConserved(r: Regs, ins: seq<In>, i: In)
    requires Phase(r, 0, true) && |ins| == PERIOD
    ensures var first, second := Next(r, ins[0]), Next(Run(r, ins), i);
      var lost := Pulse(r) + Pulse(first);
      Phase(Run(r, ins), 0, true) && 0 <= lost <= 2 &&
      second.totalCount ==
        if Renewed(ins) then second.deltaCount
        else if ins[0].renew then Add(second.deltaCount, Pulse(first))
        else Add(Add(first.totalCount, second.deltaCount), lost)
  {
    hide Add, Next, Total, Window;
    WindowGrows(r, ins);
    Published(r, ins[0]);
    Published(Run(r, ins), i);
    var window := Window(Run(r, ins));
    AddSwaps(Total(r), Pulse(r) + Pulse(Next(r, ins[0])), window);
    AddAssociates(Pulse(Next(r, ins[0])), window, 0);
    SmallSums(window, 0, 0);
  }

  lemma ResetCounts()
    ensures Total(Reset()) == Window(Reset())
  {
  }

  /** The first window has no losses: up to the first update both counts start from reset, or from the
      same renew. */
  lemma {:induction false} FirstWindow(ins: seq<In>)
    requires |ins| <= PERIOD
    ensures Phase(Run(Reset(), ins), |ins| % PERIOD, |ins| == PERIOD)
    ensures Total(Run(Reset(), ins)) == Window(Run(Reset(), ins))
  {
    hide Add, Next, Total, Window;
    if ins == [] {
      ResetCounts();
    } else {
      var n := |ins| - 1;
      FirstWindow(ins[..n]);
      TotalStep(Run(Reset(), ins[..n]), ins[n]);
      PhaseStep(Run(Reset(), ins[..n]), ins[n], n, false);
    }
  }

  // ---- Counting and direction ----

  /** One turn of the encoder: 00, 10, 11, 01, and 00 again, with A leading. */
  datatype Point = Point(a: bool, b: bool)

  function Ahead(p: Point): Point {
    Point(!p.b, p.a)
  }

  /** A step of the encoder moves one of the two lines. */
  predicate Moves(p: Point, q: Point) {
    (p.a != q.a) != (p.b != q.b)
  }

  predicate Forward(p: Point, q: Point) {
    q == Ahead(p)
  }

  /** Every step goes to the point ahead or comes from it. */
  lemma MovesEitherWay(p: Point, q: Point)
    ensures Moves(p, q) <==> (q == Ahead(p)) != (p == Ahead(q))
  {
  }

  /** The points the inputs have gone through, and for how many clocks they have been at the last. */
  datatype Track = Track(path: seq<Point>, age: nat)

  predicate Traced(t: Track) {
    && t.path != [] && (t.age < 3 ==> |t.path| > 1)
    && forall k :: 1 <= k < |t.path| ==> t.path[k - 1] != t.path[k]
  }

  function Start(): Track {
    Track([Point(false, false)], 3)
  }

  function Last(t: Track): Point
    requires Traced(t)
  {
    t.path[|t.path| - 1]
  }

  function Follow(t: Track, i: In): (t': Track)
    requires Traced(t)
    ensures Traced(t') && Last(t') == Point(i.a, i.b)
  {
    if Last(t) == Point(i.a, i.b) then t.(age := t.age + 1) else Track(t.path + [Point(i.a, i.b)], 1)
  }

  function TrackOf(ins: seq<In>): (t: Track)
    ensures Traced(t)
  {
    if ins == [] then Start() else Follow(TrackOf(ins[..|ins| - 1]), ins[|ins| - 1])
  }

  /** The input may change if it moves one line, at least three clocks after the last change. */
  predicate MayFollow(t: Track, i: In)
    requires Traced(t)
  {
    Last(t) == Point(i.a, i.b) || (Moves(Last(t), Point(i.a, i.b)) && t.age >= 3)
  }

  /** The inputs start at 00 and change one at a time, at least three clocks apart. */
  predicate Spaced(ins: seq<In>) {
    forall k :: 0 <= k < |ins| ==> MayFollow(TrackOf(ins[..k]), ins[k])
  }

  /** The steps counted so far: the last takes three clocks to arrive. */
  function Counted(t: Track): nat
    requires Traced(t)
  {
    if t.age < 3 then |t.path| - 2 else |t.path| - 1
  }

  function Forwards(path: seq<Point>, n: nat): nat
    requires n < |path|
  {
    if n == 0 then 0 else Forwards(path, n - 1) + if Forward(path[n - 1], path[n]) then 1 else 0
  }

  /** One if the last of the first `n` steps went back. */
  function Back(path: seq<Point>, n: nat): nat
    requires n < |path|
  {
    if n > 0 && !Forward(path[n - 1], path[n]) then 1 else 0
  }

  /** What the up counter has after `n` steps: each step counts in the direction of the one before it,
      and the first counts up. */
  function UpAfter(path: seq<Point>, n: nat): nat
    requires n < |path|
  {
    if n == 0 then 0 else 1 + Forwards(path, n - 1)
  }

  /** The up counter is right, or one ahead when the last step went back. */
  lemma WithinOne(path: seq<Point>, n: nat)
    requires n < |path|
    ensures UpAfter(path, n) == Forwards(path, n) + Back(path, n)
    ensures UpAfter(path, n) <= n
  {
    if n > 1 {
      WithinOne(path, n - 1);
    }
  }

  lemma {:induction false} ForwardsStay(path: seq<Point>, q: Point, n: nat)
    requires n < |path|
    ensures Forwards(path + [q], n) == Forwards(path, n)
  {
    if n > 0 {
      ForwardsStay(path, q, n - 1);
    }
  }

  function Low32(n: nat): U32 {
    n % TWO_32
  }

  lemma Low32Next(n: nat)
    ensures Low32(n + 1) == Add(Low32(n), 1)
  {
  }

  /** The edge detector and the direction registers, as the last point has been there for `age` clocks. */
  predicate Follows(d: Detector, t: Track)
    requires Traced(t)
  {
    var x := Last(t).a != Last(t).b;
    var n := Counted(t);
    && d.signalC == x && d.signalD == (if t.age == 1 then !x else x) && d.countPlus == (t.age == 2)
    && d.plusAT == t.path[n].a && d.plusBT == t.path[n].b
    && d.plusATt == (n > 0 && t.path[n - 1].a)
    && (t.age != 3 ==> d.dirReg == (d.plusATt != d.plusBT))
    && t.path[0] == Point(false, false) && t.age > 0
    && forall k :: 1 <= k < |t.path| ==> Moves(t.path[k - 1], t.path[k])
  }

  /** How many steps had been counted at the last renew, or at reset. */
  function Base(ins: seq<In>): nat {
    if ins == [] then 0
    else if ins[|ins| - 1].renew then Counted(TrackOf(ins))
    else Base(ins[..|ins| - 1])
  }

  /** The counters have the steps counted since there were `base` of them. */
  predicate Counts(c: Counters, t: Track, base: nat)
    requires Traced(t)
  {
    var n := Counted(t);
    base <= n &&
    var up := UpAfter(t.path, n) - UpAfter(t.path, base);
    0 <= up <= n - base && c.up == Low32(up) && c.down == Low32(n - base - up)
  }

  lemma FollowsStep(d: Detector, t: Track, i: In)
    requires Traced(t) && Follows(d, t) && MayFollow(t, i)
    ensures Follows(NextDetector(d, i), Follow(t, i))
  {
  }

  /** The step that is being counted goes up exactly if it is the first or the one before it went
      forward. */
  lemma DirectionOf(d: Detector, t: Track)
    requires Traced(t) && Follows(d, t) && t.age == 2
    ensures var n := Counted(t); d.dirReg <==> n > 0 && !Forward(t.path[n - 1], t.path[n])
  {
    var n := Counted(t);
    if n > 0 {
      MovesEitherWay(t.path[n - 1], t.path[n]);
    }
  }

  lemma UpAfterStays(path: seq<Point>, q: Point, n: nat)
    requires n < |path|
    ensures UpAfter(path + [q], n) == UpAfter(path, n)
  {
    if n > 0 {
      ForwardsStay(path, q, n - 1);
    }
  }

  lemma CountsStep(c: Counters, d: Detector, t: Track, i: In, base: nat)
    requires Traced(t) && Follows(d, t) && Counts(c, t, base) && MayFollow(t, i)
    ensures Counts(NextCounters(c, false, d), Follow(t, i), base)
  {
    hide Add, Low32, Moves, Ahead;
    var n := Counted(t);
    if t.age == 2 {
      var up := UpAfter(t.path, n) - UpAfter(t.path, base);
      DirectionOf(d, t);
      Low32Next(up);
      Low32Next(n - base - up);
    } else {
      UpAfterStays(t.path, Point(i.a, i.b), n);
      UpAfterStays(t.path, Point(i.a, i.b), base);
    }
  }

  lemma CountsRenewed(c: Counters, d: Detector, t: Track)
    requires Traced(t)
    ensures Counts(NextCounters(c, true, d), t, Counted(t))
  {
  }

  lemma AtReset()
    ensures Follows(Reset().detector, Start()) && Counts(Reset().total, Start(), 0)
  {
  }

  lemma {:induction false} Tracks(ins: seq<In>)
    requires Spaced(ins)
    ensures var t, r := TrackOf(ins), Run(Reset(), ins);
      Follows(r.detector, t) && Counts(r.total, t, Base(ins))
  {
    hide Follows, Counts, NextDetector, NextCounters, NextTimer, Follow;
    if ins == [] {
      AtReset();
    } else {
      var n := |ins| - 1;
      var before := ins[..n];
      assert forall k :: 0 <= k < n ==> before[..k] == ins[..k];
      Tracks(before);
      var r := Run(Reset(), before);
      FollowsStep(r.detector, TrackOf(before), ins[n]);
      CountsStep(r.total, r.detector, TrackOf(before), ins[n], Base(before));
      CountsRenewed(r.total, r.detector, TrackOf(ins));
    }
  }

  lemma Low32Sum(x: nat, y: nat)
    ensures Add(Low32(x), Low32(y)) == Low32(x + y)
  {
  }

  lemma {:induction false} NoBase(ins: seq<In>)
    requires NoRenew(ins)
    ensures Base(ins) == 0
  {
    if ins != [] {
      NoBase(ins[..|ins| - 1]);
    }
  }

  /** However often the direction reverses, the two counters together have every step counted since the
      last renew, and the up counter has those of them that went forward, give or take one: one more
      while the last went back, and one less if the last before the renew did. */
  lemma Directions(ins: seq<In>)
    requires Spaced(ins)
    ensures var t, r, b := TrackOf(ins), Run(Reset(), ins), Base(ins);
      var n := Counted(t);
      b <= n &&
      var up := Forwards(t.path, n) - Forwards(t.path, b) + Back(t.path, n) - Back(t.path, b);
      0 <= up <= n - b && r.total.up == Low32(up) && r.total.down == Low32(n - b - up) && Total(r) == Low32(n - b)
  {
    hide Add, Low32, Next, Run, Follows, TrackOf, Forwards, Base;
    Tracks(ins);
    var t, b := TrackOf(ins), Base(ins);
    var n := Counted(t);
    WithinOne(t.path, n);
    WithinOne(t.path, b);
    var up := UpAfter(t.path, n) - UpAfter(t.path, b);
    Low32Sum(up, n - b - up);
  }
}
