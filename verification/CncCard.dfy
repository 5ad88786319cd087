/** The hand-off of interpolation words from the write call of the CNC driver to its interrupt handler
    (drv/src/cnc_card.c). The write call holds a mutex and the handler a spinlock, so that nothing but
    the fill level keeps them apart. They may run on two processors: each step below is one access to
    shared state, and the steps of the two come in any order. */
module CncCard {

  type Word = bv32

  /** Where the one writing process stands: each constructor names the access it does next. */
  datatype Writer =
    | Idle
    | Locking(user: seq<Word>, nonblock: bool)
    | CheckingFull(user: seq<Word>, nonblock: bool)
    | SettingState(user: seq<Word>)
    | Releasing(user: seq<Word>)
    | Asleep(user: seq<Word>)
    | Woken(user: seq<Word>)
    | Relocking(user: seq<Word>)
    | Comparing(user: seq<Word>)                             // reads the level to compare with the request
    | Clipping(user: seq<Word>)                              // reads it again to clip the request
    | Addressing(user: seq<Word>, count: nat)                // reads it for the place to copy to
    | Copying(user: seq<Word>, count: nat, base: nat, k: nat)
    | Adding(user: seq<Word>, count: nat)                    // reads it to add the count
    | Storing(user: seq<Word>, count: nat, level: nat)       // stores the sum
    | Unlocking

  /** Where the interrupt handler stands. */
  datatype Handler = Quiet | Checking | Sending(i: nat) | Clearing | Waking | Reenabling

  datatype State = State(
    buf: seq<Word>,             // data_buf
    num: nat,                   // current_buf_num
    writer: Writer,
    handler: Handler,
    running: bool,              // the task state of the writing process
    signal: bool,               // a signal is pending for it
    batches: seq<seq<Word>>,    // history: the completed sends
    current: seq<Word>,         // history: the words of the send in progress
    accepted: seq<Word>)        // history: the words the write calls have accepted

  datatype Action =
    | Call(user: seq<Word>, nonblock: bool)   // the process calls write
    | WriterStep                              // its next access
    | Interrupted                             // a mutex_lock_interruptible gives up for a signal
    | Fault                                   // copy_from_user stops at a bad page
    | Signal
    | Irq                                     // the card raises its interrupt
    | HandlerStep                             // the handler's next access

  function Room(s: State): nat {
    if s.num <= |s.buf| then |s.buf| - s.num else 0
  }

  /** The words behind a count; a count beyond the request runs past the end of the user's data. */
  function Taken(user: seq<Word>, count: nat): seq<Word> {
    if count <= |user| then user[..count] else user
  }

  function Return(s: State): State {
    s.(writer := Idle, running := true, signal := false)
  }

  /** The accesses of the write call up to the decision to go ahead. */
  function WaitDo(s: State): State {
    match s.writer
    case Locking(user, nonblock) => s.(writer := CheckingFull(user, nonblock))
    case CheckingFull(user, nonblock) =>
      if s.num != |s.buf| then s.(writer := Comparing(user))
      else if nonblock then s.(writer := Unlocking)
      else s.(writer := SettingState(user))
    case SettingState(user) => s.(running := false, writer := Releasing(user))
    case Releasing(user) => s.(writer := Asleep(user))
    case Asleep(user) => if s.running || s.signal then s.(running := true, writer := Woken(user)) else s
    case Woken(user) => if s.signal then Return(s) else s.(writer := Relocking(user))
    case Relocking(user) => s.(writer := Comparing(user))
    case _ => s
  }

  function ClipDo(s: State): State {
    match s.writer
    case Comparing(user) =>
      if |user| > Room(s) then s.(writer := Clipping(user)) else s.(writer := Addressing(user, |user|))
    case Clipping(user) => s.(writer := Addressing(user, Room(s)))
    case Addressing(user, count) => s.(writer := Copying(user, count, s.num, 0))
    case Adding(user, count) => s.(writer := Storing(user, count, s.num))
    case _ => s
  }

  function CopyDo(s: State): State
    requires s.writer.Copying?
  {
    var Copying(user, count, base, k) := s.writer;
    if k >= count then s.(writer := Adding(user, count))
    else if k < |user| && base + k < |s.buf| then
      s.(buf := s.buf[base + k := user[k]], writer := Copying(user, count, base, k + 1))
    else s.(writer := Copying(user, count, base, k + 1))
  }

  function StoreDo(s: State): State
    requires s.writer.Storing?
  {
    var Storing(user, count, level) := s.writer;
    s.(num := level + count, writer := Unlocking, accepted := s.accepted + Taken(user, count))
  }

  predicate WriterTouches(w: Writer) {
    w.Comparing? || w.Clipping? || w.Addressing? || w.Copying? || w.Adding? || w.Storing?
  }

  function WriterDo(s: State): State {
    match s.writer
    case Idle => s
    case Copying(_, _, _, _) => CopyDo(s)
    case Storing(_, _, _) => StoreDo(s)
    case Unlocking => Return(s)
    case _ => if WriterTouches(s.writer) then ClipDo(s) else WaitDo(s)
  }

  function HandlerDo(s: State): State {
    match s.handler
    case Quiet => s
    case Checking => s.(handler := if s.num == |s.buf| then Sending(0) else Reenabling)
    case Sending(i) =>
      if i < |s.buf| then s.(handler := Sending(i + 1), current := s.current + [s.buf[i]])
      else s.(handler := Clearing)
    case Clearing => s.(num := 0, handler := Waking, batches := s.batches + [s.current], current := [])
    case Waking => s.(handler := Reenabling, running := true)
    case Reenabling => s.(handler := Quiet)
  }

  function Do(s: State, a: Action): State {
    match a
    case Call(user, nonblock) => if s.writer.Idle? then s.(writer := Locking(user, nonblock)) else s
    case WriterStep => WriterDo(s)
    case Interrupted => if s.signal && (s.writer.Locking? || s.writer.Relocking?) then Return(s) else s
    case Fault => if s.writer.Copying? then s.(writer := Unlocking) else s
    case Signal => s.(signal := true, running := true)
    case Irq => if s.handler.Quiet? then s.(handler := Checking) else s
    case HandlerStep => HandlerDo(s)
  }

  function Run(s: State, actions: seq<Action>): State
    decreases |actions|
  {
    if actions == [] then s else Run(Do(s, actions[0]), actions[1..])
  }

  function Init(buf: seq<Word>): State {
    State(buf, 0, Idle, Quiet, true, false, [], [], [])
  }

  function Concat(batches: seq<seq<Word>>): seq<Word> {
    if batches == [] then [] else Concat(batches[..|batches| - 1]) + batches[|batches| - 1]
  }

  /** The words written to the card so far. */
  function Sent(s: State): seq<Word> {
    Concat(s.batches) + s.current
  }

  /** The words in the buffer that are still to be written to the card. */
  function Unsent(s: State): seq<Word> {
    match s.handler
    case Sending(i) => if i <= |s.buf| then s.buf[i..] else []
    case Clearing => []
    case _ => if s.num <= |s.buf| then s.buf[..s.num] else s.buf
  }

  /** Every accepted word goes to the card once, in order, and in whole buffers. */
  ghost predicate Consistent(s: State) {
    && Sent(s) + Unsent(s) == s.accepted
    && forall b :: b in s.batches ==> |b| == |s.buf|
  }

  predicate HandlerTouches(h: Handler) {
    h.Sending? || h.Clearing?
  }

  predicate Waits(w: Writer) {
    w.SettingState? || w.Releasing? || w.Asleep? || w.Woken?
  }

  /** The words sent, up to the last completed send, and those in the buffer are the accepted ones. */
  ghost predicate HistoryInv(s: State) {
    && 0 < |s.buf| && s.num <= |s.buf|
    && Concat(s.batches) + s.buf[..s.num] == s.accepted
    && forall b :: b in s.batches ==> |b| == |s.buf|
  }

  ghost predicate HandlerInv(s: State) {
    match s.handler
    case Sending(i) => s.num == |s.buf| && i <= |s.buf| && s.current == s.buf[..i]
    case Clearing => s.num == |s.buf| && s.current == s.buf
    case _ => s.current == []
  }

  /** A writer past the check has room; a writer woken other than by a signal finds the buffer empty. */
  ghost predicate LevelInv(s: State) {
    && (WriterTouches(s.writer) ==> s.num < |s.buf|)
    && (Waits(s.writer) ==> s.num == 0 || s.num == |s.buf|)
    && (Waits(s.writer) && !s.writer.SettingState? && s.running && !s.signal ==> s.num == 0)
    && (s.writer.Woken? ==> s.running)
    && (s.writer.Relocking? ==> s.num == 0)
  }

  /** The count is that of the words that fit. */
  predicate Fits(s: State, user: seq<Word>, count: nat) {
    count <= |user| && s.num + count <= |s.buf| && (count == |user| || s.num + count == |s.buf|)
  }

  /** The words copied so far lie just behind the level. */
  ghost predicate Copied(s: State, user: seq<Word>, count: nat, k: nat) {
    && k <= count && Fits(s, user, count)
    && s.buf[s.num..s.num + k] == user[..k]
  }

  ghost predicate CopyInv(s: State) {
    match s.writer
    case Clipping(user) => |user| > Room(s)
    case Addressing(user, count) => Copied(s, user, count, 0)
    case Copying(user, count, base, k) => base == s.num && Copied(s, user, count, k)
    case Adding(user, count) => Copied(s, user, count, count)
    case Storing(user, count, level) => level == s.num && Copied(s, user, count, count)
    case _ => true
  }

  ghost predicate Inv(s: State) {
    HistoryInv(s) && HandlerInv(s) && LevelInv(s) && CopyInv(s)
  }

  /** A wake-up that comes so late after the clearing of the buffer that the writer has filled it again
      and waits once more. */
  predicate LateWake(s: State, a: Action) {
    a.HandlerStep? && s.handler.Waking? && (s.writer.Releasing? || s.writer.Asleep?) && !s.running && !s.signal &&
    s.num == |s.buf|
  }

  predicate NoLateWake(s: State, actions: seq<Action>)
    decreases |actions|
  {
    actions != [] ==> !LateWake(s, actions[0]) && NoLateWake(Do(s, actions[0]), actions[1..])
  }

  lemma ConcatAppend(batches: seq<seq<Word>>, b: seq<Word>)
    ensures Concat(batches + [b]) == Concat(batches) + b
  {
    assert (batches + [b])[..|batches|] == batches;
  }

  lemma ClearKeeps(s: State)
    requires Inv(s) && s.handler.Clearing?
    ensures Inv(HandlerDo(s))
  {
    hide Concat, WriterDo;
    ConcatAppend(s.batches, s.current);
    assert s.buf[..s.num] == s.buf;
  }

  /** The history and the writer's share depend only on the buffer and on the writer. */
  lemma FrameKeeps(s: State, s': State)
    requires Inv(s) && s'.buf == s.buf && s'.num == s.num && s'.batches == s.batches && s'.accepted == s.accepted
    ensures HistoryInv(s')
    ensures s'.writer == s.writer ==> CopyInv(s')
    ensures s'.writer == s.writer && s'.running == s.running && s'.signal == s.signal ==> LevelInv(s')
    ensures s'.handler == s.handler && s'.current == s.current ==> HandlerInv(s')
  {
  }

  lemma SendKeeps(s: State)
    requires Inv(s) && s.handler.Sending?
    ensures Inv(HandlerDo(s))
  {
    hide HistoryInv, LevelInv, CopyInv, Concat, WriterDo;
    var i := s.handler.i;
    FrameKeeps(s, HandlerDo(s));
    if i < |s.buf| {
      assert s.buf[..i + 1] == s.buf[..i] + [s.buf[i]];
    } else {
      assert s.buf[..i] == s.buf;
    }
  }

  lemma HandlerKeeps(s: State)
    requires Inv(s) && !LateWake(s, HandlerStep)
    ensures Inv(HandlerDo(s))
  {
    hide HistoryInv, CopyInv, Concat, WriterDo;
    if s.handler.Clearing? {
      ClearKeeps(s);
    } else if s.handler.Sending? {
      SendKeeps(s);
    } else {
      FrameKeeps(s, HandlerDo(s));
    }
  }

  lemma StoreBehind(buf: seq<Word>, num: nat, k: nat, x: Word)
    requires num + k < |buf|
    ensures buf[num + k := x][..num] == buf[..num]
    ensures buf[num + k := x][num..num + k + 1] == buf[num..num + k] + [x]
  {
  }

  /** A word stored behind the level shows neither in the history nor to the handler. */
  lemma CopyWordFrame(s: State)
    requires Inv(s) && s.writer.Copying? && s.writer.k < s.writer.count
    ensures HistoryInv(CopyDo(s)) && HandlerInv(CopyDo(s)) && LevelInv(CopyDo(s))
  {
    hide Concat;
    var Copying(user, count, base, k) := s.writer;
    StoreBehind(s.buf, s.num, k, user[k]);
  }

  lemma CopyWordCopied(s: State)
    requires Inv(s) && s.writer.Copying? && s.writer.k < s.writer.count
    ensures CopyInv(CopyDo(s))
  {
    hide HistoryInv, HandlerInv, LevelInv;
    var Copying(user, count, base, k) := s.writer;
    StoreBehind(s.buf, s.num, k, user[k]);
    assert user[..k + 1] == user[..k] + [user[k]];
  }

  lemma CopyEndKeeps(s: State)
    requires Inv(s) && s.writer.Copying? && s.writer.k >= s.writer.count
    ensures Inv(CopyDo(s))
  {
    hide HistoryInv, HandlerInv;
    FrameKeeps(s, CopyDo(s));
  }

  lemma CopyKeeps(s: State)
    requires Inv(s) && s.writer.Copying?
    ensures Inv(CopyDo(s))
  {
    hide HistoryInv, HandlerInv, LevelInv, CopyInv, CopyDo;
    if s.writer.k < s.writer.count {
      CopyWordFrame(s);
      CopyWordCopied(s);
    } else {
      CopyEndKeeps(s);
    }
  }

  lemma CopiedTaken(s: State, user: seq<Word>, count: nat)
    requires Copied(s, user, count, count)
    ensures s.num + count <= |s.buf| && s.buf[..s.num + count] == s.buf[..s.num] + Taken(user, count)
  {
    assert s.buf[..s.num + count] == s.buf[..s.num] + s.buf[s.num..s.num + count];
  }

  lemma StoreHistory(s: State)
    requires Inv(s) && s.writer.Storing?
    ensures HistoryInv(StoreDo(s))
  {
    hide Concat, Copied, HandlerInv, LevelInv, Taken;
    var Storing(user, count, level) := s.writer;
    CopiedTaken(s, user, count);
    var before, taken := s.buf[..s.num], Taken(user, count);
    assert Concat(s.batches) + (before + taken) == Concat(s.batches) + before + taken;
  }

  lemma StoreRest(s: State)
    requires Inv(s) && s.writer.Storing?
    ensures HandlerInv(StoreDo(s)) && LevelInv(StoreDo(s)) && CopyInv(StoreDo(s))
  {
    hide HistoryInv;
  }

  lemma StoreKeeps(s: State)
    requires Inv(s) && s.writer.Storing?
    ensures Inv(StoreDo(s))
  {
    hide HistoryInv, HandlerInv, LevelInv, CopyInv, StoreDo;
    StoreHistory(s);
    StoreRest(s);
  }

  lemma WaitDoes(s: State)
    ensures var t := WaitDo(s); t == s.(writer := t.writer, running := t.running, signal := t.signal)
  {
  }

  lemma LevelInRange(s: State)
    requires Inv(s)
    ensures s.num <= |s.buf| && |s.buf| > 0
  {
  }

  lemma WaitLevel(s: State)
    requires Inv(s) && !WriterTouches(s.writer)
    ensures LevelInv(WaitDo(s)) && CopyInv(WaitDo(s))
  {
    hide HistoryInv, HandlerInv, Copied;
    LevelInRange(s);
  }

  lemma WaitKeeps(s: State)
    requires Inv(s) && !WriterTouches(s.writer)
    ensures Inv(WaitDo(s))
  {
    hide HistoryInv, HandlerInv, LevelInv, CopyInv, WaitDo;
    WaitDoes(s);
    WaitLevel(s);
    FrameKeeps(s, WaitDo(s));
  }

  lemma ClipDoes(s: State)
    ensures var t := ClipDo(s); t == s.(writer := t.writer)
  {
  }

  lemma ClipLevel(s: State)
    requires Inv(s)
    ensures LevelInv(ClipDo(s)) && CopyInv(ClipDo(s))
  {
    hide HistoryInv, HandlerInv;
    LevelInRange(s);
  }

  lemma ClipKeeps(s: State)
    requires Inv(s)
    ensures Inv(ClipDo(s))
  {
    hide HistoryInv, HandlerInv, LevelInv, CopyInv, ClipDo;
    ClipDoes(s);
    ClipLevel(s);
    FrameKeeps(s, ClipDo(s));
  }

  lemma ReturnKeeps(s: State)
    requires Inv(s)
    ensures Inv(Return(s))
  {
    hide HistoryInv, HandlerInv;
    FrameKeeps(s, Return(s));
  }

  lemma WriterKeeps(s: State)
    requires Inv(s)
    ensures Inv(WriterDo(s))
  {
    hide HistoryInv, HandlerInv, CopyInv, WaitDo, ClipDo, CopyDo, StoreDo;
    if s.writer.Copying? {
      CopyKeeps(s);
    } else if s.writer.Storing? {
      StoreKeeps(s);
    } else if WriterTouches(s.writer) {
      ClipKeeps(s);
    } else {
      WaitKeeps(s);
      ReturnKeeps(s);
    }
  }

  lemma EventKeeps(s: State, a: Action)
    requires Inv(s) && !a.WriterStep? && !a.HandlerStep?
    ensures Inv(Do(s, a))
  {
    hide HistoryInv, WriterDo, HandlerDo;
    FrameKeeps(s, Do(s, a));
  }

  lemma StepKeeps(s: State, a: Action)
    requires Inv(s) && !LateWake(s, a)
    ensures Inv(Do(s, a))
  {
    hide HistoryInv, HandlerInv, CopyInv, WriterDo, HandlerDo;
    match a
    case WriterStep => WriterKeeps(s);
    case HandlerStep => HandlerKeeps(s);
    case _ => EventKeeps(s, a);
  }

  lemma InvConsistent(s: State)
    requires Inv(s)
    ensures Consistent(s)
    ensures !(WriterTouches(s.writer) && HandlerTouches(s.handler))
  {
    match s.handler
    case Sending(i) =>
      assert s.buf[..s.num] == s.buf == s.buf[..i] + s.buf[i..];
    case Clearing =>
      assert s.buf[..s.num] == s.buf;
    case _ =>
  }

  /** The hand-off is safe in every run without a late wake-up: nothing is lost, repeated or reordered,
      sends are whole buffers, and the two sides never touch the buffer at the same time. */
  lemma {:induction false} SafeRuns(s: State, actions: seq<Action>)
    requires Inv(s) && NoLateWake(s, actions)
    ensures Inv(Run(s, actions))
    ensures Consistent(Run(s, actions))
    ensures !(WriterTouches(Run(s, actions).writer) && HandlerTouches(Run(s, actions).handler))
    decreases |actions|
  {
    if actions == [] {
      InvConsistent(s);
    } else {
      StepKeeps(s, actions[0]);
      SafeRuns(Do(s, actions[0]), actions[1..]);
    }
  }

  lemma InitInv(buf: seq<Word>)
    requires buf != []
    ensures Inv(Init(buf))
  {
  }

  // ---- What a late wake-up does ----

  ghost predicate CanBreak(s: State) {
    exists actions :: NoLateWake(s, actions) && !Consistent(Run(s, actions))
  }

  lemma CanBreakBefore(s: State, a: Action)
    requires !LateWake(s, a) && CanBreak(Do(s, a))
    ensures CanBreak(s)
  {
    var actions :| NoLateWake(Do(s, a), actions) && !Consistent(Run(Do(s, a), actions));
    hide Consistent, Do, LateWake;
    var all := [a] + actions;
    assert all[0] == a && all[1..] == actions;
    assert NoLateWake(s, all) && Run(s, all) == Run(Do(s, a), actions);
  }

  /** The writer stores the full level it read before the handler emptied the buffer: the words just
      sent count as unsent again. */
  lemma StoreBreaks(s: State)
    requires s.handler.Waking? && s.writer.Storing? && s.writer.count == 0 && s.writer.level == |s.buf| > 0
    requires Sent(s) == s.accepted
    ensures CanBreak(s)
  {
    hide Concat;
    var t := Do(s, WriterStep);
    assert |Sent(t) + Unsent(t)| == |t.accepted| + |s.buf|;
    assert Run(t, []) == t && NoLateWake(t, []);
    CanBreakBefore(s, WriterStep);
  }

  lemma {:induction false} SendBreaks(s: State)
    requires s.handler.Sending? && s.handler.i <= |s.buf|
    requires s.writer.Storing? && s.writer.count == 0 && s.writer.level == |s.buf| > 0
    requires Concat(s.batches) + s.buf == s.accepted && s.current == s.buf[..s.handler.i]
    ensures CanBreak(s)
    decreases |s.buf| - s.handler.i
  {
    hide CanBreak, Concat, WriterDo;
    var t := Do(s, HandlerStep);
    if s.handler.i < |s.buf| {
      assert t.current == s.buf[..s.handler.i + 1];
      SendBreaks(t);
    } else {
      assert s.current == s.buf;
      ConcatAppend(t.batches, t.current);
      StoreBreaks(Do(t, HandlerStep));
      CanBreakBefore(t, HandlerStep);
    }
    CanBreakBefore(s, HandlerStep);
  }

  /** How many accesses a writer woken with the buffer full still has to make before it stores. */
  function Stage(w: Writer): nat {
    match w
    case Releasing(_) => 8
    case Asleep(_) => 7
    case Woken(_) => 6
    case Relocking(_) => 5
    case Comparing(_) => 4
    case Clipping(_) => 3
    case Addressing(_, _) => 2
    case Copying(_, _, _, _) => 1
    case _ => 0
  }

  /** On its way with a full buffer the writer finds no room, copies nothing, and reads the level to
      add nothing to it. Then the card interrupts. */
  ghost predicate OnItsWay(s: State) {
    && HistoryInv(s) && s.num == |s.buf| && s.current == [] && s.handler.Quiet? && s.running && !s.signal
    && match s.writer
       case Releasing(_) => true
       case Asleep(_) => true
       case Woken(_) => true
       case Relocking(_) => true
       case Comparing(_) => true
       case Clipping(_) => true
       case Addressing(_, count) => count == 0
       case Copying(_, count, _, _) => count == 0
       case Adding(_, count) => count == 0
       case Storing(_, count, level) => count == 0 && level == |s.buf|
       case _ => false
  }

  lemma {:induction false} PathBreaks(s: State)
    requires OnItsWay(s)
    ensures CanBreak(s)
    decreases Stage(s.writer), s.writer.Adding?
  {
    hide CanBreak, Concat;
    if s.writer.Storing? {
      assert s.buf[..s.num] == s.buf;
      var t := Do(s, Irq);
      SendBreaks(Do(t, HandlerStep));
      CanBreakBefore(t, HandlerStep);
      CanBreakBefore(s, Irq);
    } else {
      PathBreaks(Do(s, WriterStep));
      CanBreakBefore(s, WriterStep);
    }
  }

  /** A wake-up is harmless exactly when it is not late: the guard is the fill level at the wake-up. */
  lemma WakeSafeIff(s: State)
    requires Inv(s) && s.handler.Waking?
    ensures CanBreak(Do(s, HandlerStep)) <==> LateWake(s, HandlerStep)
  {
    var t := Do(s, HandlerStep);
    if LateWake(s, HandlerStep) {
      PathBreaks(Do(t, HandlerStep));
      CanBreakBefore(t, HandlerStep);
    } else {
      StepKeeps(s, HandlerStep);
      forall actions | NoLateWake(t, actions)
        ensures Consistent(Run(t, actions))
      {
        SafeRuns(t, actions);
      }
    }
  }

  /** A run in which nothing comes between the clearing of the buffer and the wake-up, as when the
      interrupt is served by the processor the writer runs on. */
  predicate Prompt(s: State, actions: seq<Action>)
    decreases |actions|
  {
    actions != [] ==> (s.handler.Waking? ==> actions[0].HandlerStep?) && Prompt(Do(s, actions[0]), actions[1..])
  }

  lemma {:induction false} PromptRunsAreSafe(s: State, actions: seq<Action>)
    requires Inv(s) && (s.handler.Waking? ==> s.num == 0) && Prompt(s, actions)
    ensures NoLateWake(s, actions) && Consistent(Run(s, actions))
    decreases |actions|
  {
    hide HistoryInv, HandlerInv, LevelInv, CopyInv, Consistent;
    if actions == [] {
      InvConsistent(s);
    } else {
      LevelInRange(s);
      StepKeeps(s, actions[0]);
      PromptRunsAreSafe(Do(s, actions[0]), actions[1..]);
    }
  }

  // ---- Late wake-ups do happen ----

  ghost predicate CanBeLate(s: State) {
    exists actions :: NoLateWake(s, actions) && LateWake(Run(s, actions), HandlerStep)
  }

  lemma CanBeLateBefore(s: State, a: Action)
    requires !LateWake(s, a) && CanBeLate(Do(s, a))
    ensures CanBeLate(s)
  {
    var actions :| NoLateWake(Do(s, a), actions) && LateWake(Run(Do(s, a), actions), HandlerStep);
    hide Do, LateWake;
    var all := [a] + actions;
    assert all[0] == a && all[1..] == actions;
    assert NoLateWake(s, all) && Run(s, all) == Run(Do(s, a), actions);
  }

  lemma LateNow(s: State)
    requires LateWake(s, HandlerStep)
    ensures CanBeLate(s)
  {
    assert NoLateWake(s, []) && Run(s, []) == s;
  }

  /** With the buffer full again before the wake-up, the next write call waits for it. */
  lemma {:induction false} LateFromFull(s: State)
    requires s.num == |s.buf| && s.handler.Waking? && !s.signal
    requires s.writer.Idle? || s.writer.Locking? || s.writer.CheckingFull? || s.writer.SettingState?
    requires (s.writer.Locking? || s.writer.CheckingFull?) ==> !s.writer.nonblock
    ensures CanBeLate(s)
    decreases if s.writer.Idle? then 3 else if s.writer.Locking? then 2 else if s.writer.CheckingFull? then 1 else 0
  {
    hide CanBeLate;
    var a := if s.writer.Idle? then Call([], false) else WriterStep;
    if s.writer.SettingState? {
      LateNow(Do(s, a));
    } else {
      LateFromFull(Do(s, a));
    }
    CanBeLateBefore(s, a);
  }

  /** A write call on its way to fill the empty buffer. */
  ghost predicate Filling(s: State) {
    && 0 < |s.buf| && !s.signal && (s.handler.Quiet? || s.handler.Waking?)
    && match s.writer
       case Locking(user, _) => s.num == 0 && |user| == |s.buf|
       case CheckingFull(user, _) => s.num == 0 && |user| == |s.buf|
       case Comparing(user) => s.num == 0 && |user| == |s.buf|
       case Addressing(user, count) => s.num == 0 && count == |user| == |s.buf|
       case Copying(user, count, base, k) => s.num == 0 && count == |user| == |s.buf| && k <= count
       case Adding(user, count) => s.num == 0 && count == |user| == |s.buf|
       case Storing(user, count, level) => level == 0 && count == |user| == |s.buf|
       case Unlocking => s.num == |s.buf|
       case _ => false
  }

  function FillSteps(s: State): int {
    match s.writer
    case Locking(_, _) => |s.buf| + 7
    case CheckingFull(_, _) => |s.buf| + 6
    case Comparing(_) => |s.buf| + 5
    case Addressing(_, _) => |s.buf| + 4
    case Copying(_, _, _, k) => 3 + |s.buf| - k
    case Adding(_, _) => 2
    case Storing(_, _, _) => 1
    case _ => 0
  }

  lemma {:induction false} LateFromFilling(s: State)
    requires Filling(s)
    ensures CanBeLate(s)
    decreases s.handler.Quiet?, 2, FillSteps(s)
  {
    hide CanBeLate;
    var t := Do(s, WriterStep);
    if !s.writer.Unlocking? {
      LateFromFilling(t);
    } else if s.handler.Waking? {
      LateFromFull(t);
    } else {
      LateFromSending(t);
    }
    CanBeLateBefore(s, WriterStep);
  }

  /** The handler empties the full buffer, and before it wakes anybody a write call fills it again. */
  lemma {:induction false} LateFromSending(s: State)
    requires s.writer.Idle? && s.num == |s.buf| > 0 && !s.signal
    requires s.handler.Quiet? || s.handler.Checking? || s.handler.Sending? || s.handler.Clearing?
    ensures CanBeLate(s)
    decreases true, 1, match s.handler
      case Quiet => |s.buf| + 3
      case Checking => |s.buf| + 2
      case Sending(i) => if i < |s.buf| then |s.buf| + 1 - i else 1
      case _ => 0
  {
    hide CanBeLate;
    var a := if s.handler.Quiet? then Irq else HandlerStep;
    var t := Do(s, a);
    if s.handler.Clearing? {
      var u := Do(t, Call(t.buf, false));
      LateFromFilling(u);
      CanBeLateBefore(t, Call(t.buf, false));
    } else {
      LateFromSending(t);
    }
    CanBeLateBefore(s, a);
  }

  /** Whatever the size of the buffer, some run from the start comes to a late wake-up. */
  lemma LateWakeHappens(buf: seq<Word>)
    requires buf != []
    ensures CanBeLate(Init(buf))
  {
    hide CanBeLate;
    LateFromFilling(Do(Init(buf), Call(buf, false)));
    CanBeLateBefore(Init(buf), Call(buf, false));
  }

  lemma {:induction false} RunAppend(s: State, first: seq<Action>, second: seq<Action>)
    ensures Run(s, first + second) == Run(Run(s, first), second)
    decreases |first|
  {
    hide Do;
    if first == [] {
      assert [] + second == second;
    } else {
      RunAppend(Do(s, first[0]), first[1..], second);
      assert (first + second)[1..] == first[1..] + second;
    }
  }

  lemma LateIsWaking(s: State)
    requires LateWake(s, HandlerStep)
    ensures s.handler.Waking?
  {
  }

  /** Whatever the size of the buffer, some run from the start loses or repeats words. */
  lemma SomeRunBreaks(buf: seq<Word>)
    requires buf != []
    ensures exists actions :: !Consistent(Run(Init(buf), actions))
  {
    hide Consistent, Inv, Do, LateWake;
    LateWakeHappens(buf);
    var first :| NoLateWake(Init(buf), first) && LateWake(Run(Init(buf), first), HandlerStep);
    var s := Run(Init(buf), first);
    InitInv(buf);
    SafeRuns(Init(buf), first);
    LateIsWaking(s);
    WakeSafeIff(s);
    var second :| !Consistent(Run(Do(s, HandlerStep), second));
    var rest := [HandlerStep] + second;
    assert rest[0] == HandlerStep && rest[1..] == second;
    RunAppend(Init(buf), first, rest);
    assert !Consistent(Run(Init(buf), first + rest));
  }
}
