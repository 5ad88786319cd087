/** The write call and the interrupt handler of the CNC driver as routines over the card's fields
    (drv/src/cnc_card.c). Between any two accesses of a routine, whatever else there is may take any
    number of steps; each routine is shown to go through steps of the machine of module CncCard. */
module CncDriver {
  import opened CncCard

  const EAGAIN := 11
  const EFAULT := 14
  const ERESTARTSYS := 512
  const EINTR := 4

  const WORD := 4

  /** A call that waits is watched for a number of polls, and may not have returned by then. */
  datatype Outcome = Returned(value: int) | StillWaiting

  predicate BesidesWriter(a: Action) {
    a.Irq? || a.HandlerStep? || a.Signal?
  }

  predicate BesidesHandler(a: Action) {
    !a.Irq? && !a.HandlerStep?
  }

  lemma {:induction false} RunOneMore(s: State, actions: seq<Action>, a: Action)
    ensures Run(s, actions + [a]) == Do(Run(s, actions), a)
    decreases |actions|
  {
    hide Do;
    if actions == [] {
      assert [a][1..] == [] && [] + [a] == [a];
    } else {
      RunOneMore(Do(s, actions[0]), actions[1..], a);
      assert (actions + [a])[1..] == actions[1..] + [a];
    }
  }

  /** What comes before in a run without a late wake-up has none either. */
  lemma {:induction false} NoLateWakeBefore(s: State, first: seq<Action>, all: seq<Action>)
    requires first <= all && NoLateWake(s, all)
    ensures NoLateWake(s, first)
    decreases |first|
  {
    hide Do, LateWake;
    if first != [] {
      NoLateWakeBefore(Do(s, first[0]), first[1..], all[1..]);
    }
  }

  /** A writer about to store the level has counted the words that fit, of which there are some. */
  lemma StoresWhatFits(start: seq<Word>, trace: seq<Action>)
    requires start != [] && NoLateWake(Init(start), trace) && Run(Init(start), trace).writer.Storing?
    ensures var s := Run(Init(start), trace);
      var Storing(user, count, level) := s.writer;
      level == s.num && Fits(s, user, count) && (user != [] ==> count > 0)
  {
    hide Run, NoLateWake, Init, Concat;
    InitInv(start);
    SafeRuns(Init(start), trace);
  }

  lemma CopyDoes(s: State)
    requires s.writer.Copying?
    ensures var t := CopyDo(s); |t.buf| == |s.buf| && t == s.(buf := t.buf, writer := t.writer)
  {
  }

  lemma WriterDoes(s: State)
    ensures var t := WriterDo(s);
      |t.buf| == |s.buf| && t.handler == s.handler && t.batches == s.batches && t.current == s.current
  {
    hide CopyDo, WaitDo, ClipDo;
    WaitDoes(s);
    ClipDoes(s);
    if s.writer.Copying? {
      CopyDoes(s);
    }
  }

  lemma HandlerDoes(s: State)
    ensures var t := HandlerDo(s); t.buf == s.buf && t.writer == s.writer && t.accepted == s.accepted
  {
  }

  lemma CopiesWhatFits(start: seq<Word>, trace: seq<Action>)
    requires start != [] && NoLateWake(Init(start), trace) && Run(Init(start), trace).writer.Copying?
    ensures var s := Run(Init(start), trace); Fits(s, s.writer.user, s.writer.count)
  {
    hide Run, NoLateWake, Init, Concat;
    InitInv(start);
    SafeRuns(Init(start), trace);
  }

  lemma DoBesides(s: State, a: Action)
    ensures |Do(s, a).buf| == |s.buf|
    ensures BesidesWriter(a) ==> Do(s, a).writer == s.writer && Do(s, a).accepted == s.accepted
    ensures BesidesHandler(a) ==>
      Do(s, a).handler == s.handler && Do(s, a).batches == s.batches && Do(s, a).current == s.current
  {
    hide HandlerDo, WriterDo;
    WriterDoes(s);
    HandlerDoes(s);
  }

  /** One batch has been added, and it is as long as it should be. */
  predicate OneMore(before: seq<seq<Word>>, after: seq<seq<Word>>, len: nat) {
    |after| > 0 && after == before + [after[|after| - 1]] && |after[|after| - 1]| == len
  }

  class Card {
    const buf: array<Word>      // data_buf
    var num: nat                // current_buf_num
    var writer: Writer          // where the writing process and the handler stand
    var handler: Handler
    var running: bool           // the writing process
    var signal: bool
    var batches: seq<seq<Word>> // what has gone to the data register of the card
    var current: seq<Word>
    var accepted: seq<Word>

    ghost const start: seq<Word>
    ghost var trace: seq<Action>

    function State(): CncCard.State
      reads this, buf
    {
      CncCard.State(buf[..], num, writer, handler, running, signal, batches, current, accepted)
    }

    /** The card is where the machine comes to by the steps of its history. */
    ghost predicate Valid()
      reads this, buf
    {
      buf.Length > 0 && |start| == buf.Length && State() == Run(Init(start), trace)
    }

    twostate predicate WriterThere()
      reads this, buf
    {
      Valid() && writer == old(writer) && accepted == old(accepted) && old(trace) <= trace
    }

    twostate predicate HandlerThere()
      reads this, buf
    {
      Valid() && handler == old(handler) && batches == old(batches) && current == old(current) && old(trace) <= trace
    }

    constructor (size: nat)
      requires size > 0
      ensures Valid() && fresh(buf) && trace == [] && writer == Idle && handler == Quiet
    {
      buf := new Word[size](_ => 0);
      num, writer, handler, running, signal := 0, Idle, Quiet, true, false;
      batches, current, accepted, trace := [], [], [], [];
      start := seq(size, _ => 0);
      new;
      assert buf[..] == start;
    }

    /** Where the card is, by its history. */
    lemma Here()
      requires Valid()
      ensures var s := Run(Init(start), trace);
        s.writer == writer && s.num == num && s.signal == signal && |s.buf| == |start| == buf.Length
    {
    }

    /** What has made a write call fail: where it was after `seen`, in its own time since `before`, and
        what came next. */
    ghost predicate Cause(code: int, user: seq<Word>, nonblock: bool, before: seq<Action>, seen: seq<Action>)
      reads this`trace
    {
      var s := Run(Init(start), seen);
      && before <= seen <= trace
      && (code == -EAGAIN ==> nonblock && s.writer == CheckingFull(user, nonblock) && s.num == |start|)
      && (code == -EINTR ==>
           (s.writer.Locking? || s.writer.Relocking?) && s.signal && seen + [Interrupted] <= trace)
      && (code == -ERESTARTSYS ==> s.writer == Woken(user) && s.signal && seen + [WriterStep] <= trace)
      && (code == -EFAULT ==> s.writer.Copying? && s.writer.user == user && seen + [Fault] <= trace)
    }

    /** No wake-up has come late. */
    ghost predicate NeverLate()
      reads this
    {
      NoLateWake(Init(start), trace)
    }

    /** Whatever the routines do: without a late wake-up in the history, every accepted word has gone
        to the card once, in order and in whole buffers, or waits in the buffer. */
    lemma Safe()
      requires Valid() && NeverLate()
      ensures Consistent(State()) && !(WriterTouches(writer) && HandlerTouches(handler))
    {
      InitInv(start);
      SafeRuns(Init(start), trace);
    }

    /** A step of the machine, taken as a whole. */
    method Take(a: Action)
      requires Valid()
      modifies this, buf
      ensures Valid() && State() == Do(old(State()), a) && trace == old(trace) + [a]
    {
      hide Do, Run;
      RunOneMore(Init(start), trace, a);
      DoBesides(State(), a);
      var t := Do(State(), a);
      forall i | 0 <= i < buf.Length {
        buf[i] := t.buf[i];
      }
      num, writer, handler, running, signal := t.num, t.writer, t.handler, t.running, t.signal;
      batches, current, accepted := t.batches, t.current, t.accepted;
      trace := trace + [a];
      assert buf[..] == t.buf;
    }

    /** What goes on besides the write call. */
    method BesideWriter()
      requires Valid()
      modifies this, buf
      ensures WriterThere()
    {
      hide Do, Run;
      var n: nat := *;
      while n > 0
        invariant WriterThere()
        decreases n
      {
        var a: Action := *;
        if BesidesWriter(a) {
          DoBesides(State(), a);
          Take(a);
        }
        n := n - 1;
      }
    }

    /** What goes on besides the interrupt handler. */
    method BesideHandler()
      requires Valid()
      modifies this, buf
      ensures HandlerThere()
    {
      hide Do, Run;
      var n: nat := *;
      while n > 0
        invariant HandlerThere()
        decreases n
      {
        var a: Action := *;
        if BesidesHandler(a) {
          DoBesides(State(), a);
          Take(a);
        }
        n := n - 1;
      }
    }

    /** The routine has made the access of the machine's step `a`, in a card that was in state `s`. */
    ghost method Made(s: CncCard.State, a: Action)
      requires buf.Length > 0 && |start| == buf.Length && s == Run(Init(start), trace)
      requires State() == Do(s, a)
      modifies this`trace
      ensures Valid() && trace == old(trace) + [a]
    {
      hide Do, Run;
      RunOneMore(Init(start), trace, a);
      trace := trace + [a];
    }

    // ---- The interrupt handler ----

    method CheckLevel() returns (full: bool)
      requires Valid() && handler.Checking?
      modifies this
      ensures Valid() && trace == old(trace) + [HandlerStep] && batches == old(batches) && current == old(current)
      ensures handler == if full then Sending(0) else Reenabling
      ensures full <==> old(num) == buf.Length
    {
      ghost var s := State();
      full := num == buf.Length;
      handler := if full then Sending(0) else Reenabling;
      Made(s, HandlerStep);
    }

    /** A word goes from the buffer to the data register. */
    method SendWord(i: nat)
      requires Valid() && handler == Sending(i) && i < buf.Length
      modifies this
      ensures Valid() && trace == old(trace) + [HandlerStep] && batches == old(batches)
      ensures handler == Sending(i + 1) && |current| == |old(current)| + 1
    {
      ghost var s := State();
      current := current + [buf[i]];
      handler := Sending(i + 1);
      Made(s, HandlerStep);
    }

    method EndSend()
      requires Valid() && handler == Sending(buf.Length)
      modifies this
      ensures Valid() && trace == old(trace) + [HandlerStep] && batches == old(batches)
      ensures handler == Clearing && current == old(current)
    {
      ghost var s := State();
      handler := Clearing;
      Made(s, HandlerStep);
    }

    method ClearLevel()
      requires Valid() && handler == Clearing
      modifies this
      ensures Valid() && trace == old(trace) + [HandlerStep] && batches == old(batches) + [old(current)]
      ensures handler == Waking && current == [] && num == 0
    {
      ghost var s := State();
      num := 0;
      batches, current, handler := batches + [current], [], Waking;
      Made(s, HandlerStep);
    }

    method WakeUp()
      requires Valid() && handler == Waking
      modifies this
      ensures Valid() && trace == old(trace) + [HandlerStep] && batches == old(batches) && current == old(current)
      ensures handler == Reenabling && running
    {
      ghost var s := State();
      running := true;
      handler := Reenabling;
      Made(s, HandlerStep);
    }

    /** Sends the words one by one. */
    method SendAll()
      requires Valid() && handler == Sending(0) && current == []
      modifies this, buf
      ensures Valid() && handler == Clearing && |current| == buf.Length
      ensures batches == old(batches) && old(trace) <= trace
    {
      hide Do, Run, State;
      var i := 0;
      while i < buf.Length
        invariant 0 <= i <= buf.Length && Valid() && handler == Sending(i) && |current| == i
        invariant batches == old(batches) && old(trace) <= trace
      {
        BesideHandler();
        SendWord(i);
        i := i + 1;
      }
      EndSend();
    }

    /** Sends the buffer if it is full, and wakes the writer; `seen` is the history up to the look at
        the level. */
    method DataSend() returns (sent: bool, ghost seen: seq<Action>)
      requires Valid() && handler.Checking? && current == []
      modifies this, buf
      ensures Valid() && handler.Reenabling? && current == [] && old(trace) <= seen <= trace
      ensures sent <==> Run(Init(start), seen).num == buf.Length
      ensures if sent then OneMore(old(batches), batches, buf.Length) else batches == old(batches)
    {
      hide Do, Run;
      BesideHandler();
      seen := trace;
      sent := CheckLevel();
      if sent {
        SendAll();
        BesideHandler();
        ClearLevel();
        BesideHandler();
        WakeUp();
      }
    }

    method Raise()
      requires Valid() && handler.Quiet?
      modifies this
      ensures Valid() && handler.Checking? && trace == old(trace) + [Irq]
      ensures batches == old(batches) && current == old(current)
    {
      ghost var s := State();
      handler := Checking;
      Made(s, Irq);
    }

    method Reenable()
      requires Valid() && handler.Reenabling?
      modifies this
      ensures Valid() && handler.Quiet? && trace == old(trace) + [HandlerStep]
      ensures batches == old(batches) && current == old(current)
    {
      ghost var s := State();
      handler := Quiet;
      Made(s, HandlerStep);
    }

    /** The interrupt handler: it sends exactly if the level it sees is that of a full buffer, and then
        it sends the whole buffer. */
    method Interrupt(status: int) returns (handled: bool, sent: bool, ghost seen: seq<Action>)
      requires Valid() && handler.Quiet? && current == []
      modifies this, buf
      ensures Valid() && handler.Quiet? && current == [] && old(trace) <= seen <= trace
      ensures handled <==> status == 3
      ensures sent <==> handled && Run(Init(start), seen).num == buf.Length
      ensures if sent then OneMore(old(batches), batches, buf.Length) else batches == old(batches)
    {
      hide Do, Run, State;
      if status != 3 {
        return false, false, trace;
      }
      Raise();
      sent, seen := DataSend();
      BesideHandler();
      Reenable();
      handled := true;
    }

    // ---- The write call ----

    method Begin(user: seq<Word>, nonblock: bool)
      requires Valid() && writer.Idle?
      modifies this
      ensures Valid() && writer == Locking(user, nonblock) && accepted == old(accepted) && old(trace) <= trace
    {
      ghost var s := State();
      writer := Locking(user, nonblock);
      Made(s, Call(user, nonblock));
    }

    /** The mutex is taken, or waiting for it is given up for a signal. */
    method Lock() returns (taken: bool)
      requires Valid() && (writer.Locking? || writer.Relocking?)
      modifies this
      ensures Valid() && accepted == old(accepted) && old(trace) <= trace
      ensures !taken ==> old(signal) && writer.Idle? && trace == old(trace) + [Interrupted]
      ensures taken ==> writer == match old(writer)
        case Locking(user, nonblock) => CheckingFull(user, nonblock)
        case _ => Comparing(old(writer).user)
    {
      ghost var s := State();
      taken := *;
      taken := taken || !signal;
      if !taken {
        writer, running, signal := Idle, true, false;
        Made(s, Interrupted);
      } else if writer.Locking? {
        writer := CheckingFull(writer.user, writer.nonblock);
        Made(s, WriterStep);
      } else {
        writer := Comparing(writer.user);
        Made(s, WriterStep);
      }
    }

    method CheckFull() returns (full: bool)
      requires Valid() && writer.CheckingFull?
      modifies this
      ensures Valid() && accepted == old(accepted) && old(trace) <= trace
      ensures var CheckingFull(user, nonblock) := old(writer);
        writer == if !full then Comparing(user) else if nonblock then Unlocking else SettingState(user)
      ensures full <==> old(num) == buf.Length
    {
      ghost var s := State();
      var CheckingFull(user, nonblock) := writer;
      full := num == buf.Length;
      writer := if !full then Comparing(user) else if nonblock then Unlocking else SettingState(user);
      Made(s, WriterStep);
    }

    /** Goes to sleep, and gives up the mutex. */
    method SetState()
      requires Valid() && writer.SettingState?
      modifies this
      ensures Valid() && writer == Releasing(old(writer).user) && accepted == old(accepted) && old(trace) <= trace
    {
      ghost var s := State();
      running := false;
      writer := Releasing(writer.user);
      Made(s, WriterStep);
    }

    method Release()
      requires Valid() && writer.Releasing?
      modifies this
      ensures Valid() && writer == Asleep(old(writer).user) && accepted == old(accepted) && old(trace) <= trace
    {
      ghost var s := State();
      writer := Asleep(writer.user);
      Made(s, WriterStep);
    }

    method Schedule()
      requires Valid() && writer.Asleep? && (running || signal)
      modifies this
      ensures Valid() && writer == Woken(old(writer).user) && accepted == old(accepted) && old(trace) <= trace
    {
      ghost var s := State();
      running := true;
      writer := Woken(writer.user);
      Made(s, WriterStep);
    }

    method CheckSignal() returns (pending: bool)
      requires Valid() && writer.Woken?
      modifies this
      ensures Valid() && accepted == old(accepted) && old(trace) <= trace
      ensures writer == if pending then Idle else Relocking(old(writer).user)
      ensures (pending <==> old(signal)) && trace == old(trace) + [WriterStep]
    {
      ghost var s := State();
      pending := signal;
      if pending {
        writer, running, signal := Idle, true, false;
      } else {
        writer := Relocking(writer.user);
      }
      Made(s, WriterStep);
    }

    method Unlock()
      requires Valid() && writer.Unlocking?
      modifies this
      ensures Valid() && writer.Idle? && accepted == old(accepted) && old(trace) <= trace
    {
      ghost var s := State();
      writer, running, signal := Idle, true, false;
      Made(s, WriterStep);
    }

    method CompareLevel() returns (clip: bool)
      requires Valid() && writer.Comparing?
      modifies this
      ensures Valid() && accepted == old(accepted) && old(trace) <= trace
      ensures var user := old(writer).user; writer == if clip then Clipping(user) else Addressing(user, |user|)
    {
      ghost var s := State();
      var user := writer.user;
      clip := |user| > if num <= buf.Length then buf.Length - num else 0;
      writer := if clip then Clipping(user) else Addressing(user, |user|);
      Made(s, WriterStep);
    }

    method ClipCount() returns (count: nat)
      requires Valid() && writer.Clipping?
      modifies this
      ensures Valid() && accepted == old(accepted) && old(trace) <= trace
      ensures writer == Addressing(old(writer).user, count)
    {
      ghost var s := State();
      count := if num <= buf.Length then buf.Length - num else 0;
      writer := Addressing(writer.user, count);
      Made(s, WriterStep);
    }

    method Address() returns (base: nat)
      requires Valid() && writer.Addressing?
      modifies this
      ensures Valid() && accepted == old(accepted) && old(trace) <= trace
      ensures writer == Copying(old(writer).user, old(writer).count, base, 0)
    {
      ghost var s := State();
      base := num;
      writer := Copying(writer.user, writer.count, base, 0);
      Made(s, WriterStep);
    }

    method CopyWord(user: seq<Word>, count: nat, base: nat, k: nat)
      requires Valid() && writer == Copying(user, count, base, k) && k < count
      modifies this, buf
      ensures Valid() && writer == Copying(user, count, base, k + 1) && accepted == old(accepted) && old(trace) <= trace
    {
      ghost var s := State();
      if k < |user| && base + k < buf.Length {
        buf[base + k] := user[k];
        assert buf[..] == s.buf[base + k := user[k]];
      }
      writer := Copying(user, count, base, k + 1);
      Made(s, WriterStep);
    }

    /** The copy comes to its end, or to a bad page. */
    method EndCopy(faulty: bool)
      requires Valid() && writer.Copying? && (!faulty ==> writer.k >= writer.count)
      modifies this
      ensures Valid() && accepted == old(accepted) && old(trace) <= trace
      ensures writer == if faulty then Unlocking else Adding(old(writer).user, old(writer).count)
      ensures faulty ==> trace == old(trace) + [Fault]
    {
      ghost var s := State();
      if faulty {
        writer := Unlocking;
        Made(s, Fault);
      } else {
        writer := Adding(writer.user, writer.count);
        Made(s, WriterStep);
      }
    }

    method ReadLevel()
      requires Valid() && writer.Adding?
      modifies this
      ensures Valid() && accepted == old(accepted) && old(trace) <= trace
      ensures writer.Storing? && writer.user == old(writer).user && writer.count == old(writer).count
    {
      ghost var s := State();
      writer := Storing(writer.user, writer.count, num);
      Made(s, WriterStep);
    }

    /** The words counted are all there were, or have filled the buffer. */
    predicate Fitted(user: seq<Word>, count: nat)
      reads this
    {
      count <= |user| && num <= buf.Length && (count == |user| || num == buf.Length) && (user != [] ==> count > 0)
    }

    method StoreLevel()
      requires Valid() && writer.Storing?
      modifies this
      ensures Valid() && writer.Unlocking? && old(trace) <= trace
      ensures accepted == old(accepted) + Taken(old(writer).user, old(writer).count)
      ensures NeverLate() ==> Fitted(old(writer).user, old(writer).count)
    {
      hide Run, NoLateWake;
      ghost var s, before := State(), trace;
      var Storing(user, count, level) := writer;
      num := level + count;
      accepted := accepted + Taken(user, count);
      writer := Unlocking;
      Made(s, WriterStep);
      if NeverLate() {
        NoLateWakeBefore(Init(start), before, trace);
        StoresWhatFits(start, before);
      }
    }

    /** Sleeps until woken, or until there is a signal. */
    method Sleep(user: seq<Word>, patience: nat) returns (woken: bool)
      requires Valid() && writer == SettingState(user)
      modifies this, buf
      ensures Valid() && accepted == old(accepted) && old(trace) <= trace
      ensures writer == if woken then Woken(user) else Asleep(user)
      ensures !woken ==> !running && !signal
    {
      hide Do, Run, State;
      SetState();
      BesideWriter();
      Release();
      var polls := patience;
      BesideWriter();
      while !running && !signal
        invariant Valid() && writer == Asleep(user) && accepted == old(accepted) && old(trace) <= trace
        decreases polls
      {
        if polls == 0 {
          return false;
        }
        polls := polls - 1;
        BesideWriter();
      }
      Schedule();
      return true;
    }

    /** Waits for room, without looking for it after having been woken. */
    method AwaitRoom(user: seq<Word>, patience: nat) returns (r: Outcome, ghost seen: seq<Action>)
      requires Valid() && writer == SettingState(user)
      modifies this, buf
      ensures Valid() && accepted == old(accepted) && old(trace) <= trace
      ensures r == Returned(0) ==> writer == Comparing(user)
      ensures r.Returned? && r.value != 0 ==> writer.Idle? && r.value in {-ERESTARTSYS, -EINTR}
      ensures r.StillWaiting? ==> writer == Asleep(user) && !running && !signal
      ensures r.Returned? && r.value < 0 ==> Cause(r.value, user, false, old(trace), seen)
    {
      hide Do, Run, State;
      seen := trace;
      var woken := Sleep(user, patience);
      if !woken {
        return StillWaiting, seen;
      }
      BesideWriter();
      seen := trace;
      Here();
      var pending := CheckSignal();
      if pending {
        return Returned(-ERESTARTSYS), seen;
      }
      BesideWriter();
      seen := trace;
      Here();
      var taken := Lock();
      return Returned(if taken then 0 else -EINTR), seen;
    }

    /** How many words fit, and where they go. */
    method Fit(user: seq<Word>) returns (count: nat, base: nat)
      requires Valid() && writer == Comparing(user)
      modifies this, buf
      ensures Valid() && writer == Copying(user, count, base, 0) && accepted == old(accepted) && old(trace) <= trace
    {
      hide Do, Run, State;
      count := |user|;
      var clip := CompareLevel();
      BesideWriter();
      if clip {
        count := ClipCount();
        BesideWriter();
      }
      base := Address();
    }

    /** Copies word by word, up to the first that cannot be read. */
    method CopyFromUser(user: seq<Word>, count: nat, base: nat, readable: nat)
      returns (faulty: bool, ghost seen: seq<Action>)
      requires Valid() && writer == Copying(user, count, base, 0)
      modifies this, buf
      ensures Valid() && accepted == old(accepted) && old(trace) <= trace
      ensures writer == if faulty then Unlocking else Adding(user, count)
      ensures faulty <==> readable < count
      ensures faulty && NeverLate() ==> count <= |user|
      ensures faulty ==> Cause(-EFAULT, user, false, old(trace), seen)
    {
      hide Do, Run, State;
      var k := 0;
      seen := trace;
      while k < count
        invariant 0 <= k <= count && k <= readable && Valid() && writer == Copying(user, count, base, k)
        invariant accepted == old(accepted) && old(trace) <= trace
      {
        BesideWriter();
        if k == readable {
          seen := trace;
          Here();
          EndCopy(true);
          if NeverLate() {
            NoLateWakeBefore(Init(start), seen, trace);
            CopiesWhatFits(start, seen);
          }
          return true, seen;
        }
        CopyWord(user, count, base, k);
        k := k + 1;
      }
      faulty := false;
      EndCopy(false);
    }

    /** Takes as many words as fit behind the level. */
    method Accept(user: seq<Word>, readable: nat) returns (r: int, count: nat, ghost seen: seq<Action>)
      requires Valid() && writer == Comparing(user)
      modifies this, buf
      ensures Valid() && writer.Unlocking? && old(trace) <= trace
      ensures r == if readable < count then -EFAULT else WORD * count
      ensures accepted == if r < 0 then old(accepted) else old(accepted) + Taken(user, count)
      ensures NeverLate() ==> if r >= 0 then Fitted(user, count) else count <= |user|
      ensures r < 0 ==> Cause(r, user, false, old(trace), seen)
    {
      hide Do, Run, State, NoLateWake;
      var base, faulty;
      count, base := Fit(user);
      faulty, seen := CopyFromUser(user, count, base, readable);
      ghost var before := trace;
      BesideWriter();
      if faulty {
        if NeverLate() {
          NoLateWakeBefore(Init(start), before, trace);
        }
        return -EFAULT, count, seen;
      }
      ReadLevel();
      BesideWriter();
      StoreLevel();
      return WORD * count, count, seen;
    }

    /** The part of a write up to the decision to go ahead, which is a zero. */
    method Enter(user: seq<Word>, nonblock: bool, patience: nat) returns (r: Outcome, ghost seen: seq<Action>)
      requires Valid() && writer.Idle?
      modifies this, buf
      ensures Valid() && accepted == old(accepted) && old(trace) <= trace
      ensures r == Returned(0) ==> writer == Comparing(user)
      ensures r.Returned? && r.value != 0 ==> writer.Idle? && r.value in {-EAGAIN, -EINTR, -ERESTARTSYS}
      ensures r.StillWaiting? ==> writer == Asleep(user) && !nonblock && !running && !signal
      ensures r.Returned? && r.value < 0 ==> Cause(r.value, user, nonblock, old(trace), seen)
    {
      hide Do, Run, State;
      Begin(user, nonblock);
      BesideWriter();
      seen := trace;
      Here();
      var taken := Lock();
      if !taken {
        return Returned(-EINTR), seen;
      }
      BesideWriter();
      seen := trace;
      Here();
      var full := CheckFull();
      BesideWriter();
      if !full {
        return Returned(0), seen;
      }
      if nonblock {
        Unlock();
        return Returned(-EAGAIN), seen;
      }
      r, seen := AwaitRoom(user, patience);
    }

    /** The part from there on. */
    method Finish(user: seq<Word>, readable: nat) returns (r: int, count: nat, ghost seen: seq<Action>)
      requires Valid() && writer == Comparing(user)
      modifies this, buf
      ensures Valid() && writer.Idle? && old(trace) <= trace
      ensures r == if readable < count then -EFAULT else WORD * count
      ensures accepted == if r < 0 then old(accepted) else old(accepted) + Taken(user, count)
      ensures NeverLate() ==> count <= |user| && (user != [] ==> count > 0)
      ensures r < 0 ==> Cause(r, user, false, old(trace), seen)
    {
      hide Do, Run, State, NoLateWake;
      BesideWriter();
      r, count, seen := Accept(user, readable);
      ghost var before := trace;
      BesideWriter();
      Unlock();
      if NeverLate() {
        NoLateWakeBefore(Init(start), before, trace);
      }
    }

    /** The write call, for the whole words of the user's data. It accepts none, or it accepts words from
        the first on and returns how many bytes they are; unless a wake-up has come late, those are
        words of the user's, and at least one if there are any. A call that fails has its cause in the
        history, or in the user's memory, of which the first `readable` words can be read. */
    method Write(user: seq<Word>, readable: nat, nonblock: bool, patience: nat)
      returns (r: Outcome, count: nat, ghost seen: seq<Action>)
      requires Valid() && writer.Idle?
      modifies this, buf
      ensures Valid() && old(trace) <= trace && (r.Returned? ==> writer.Idle?)
      ensures r.Returned? && r.value >= 0 ==>
        r.value == WORD * count && count <= readable && accepted == old(accepted) + Taken(user, count)
      ensures r.Returned? && r.value >= 0 && NeverLate() ==>
        count <= |user| && accepted == old(accepted) + user[..count] && (user != [] ==> count > 0)
      ensures r.Returned? && r.value < 0 ==>
        accepted == old(accepted) && r.value in {-EAGAIN, -EINTR, -ERESTARTSYS, -EFAULT} &&
        Cause(r.value, user, nonblock, old(trace), seen) && (r.value == -EFAULT ==> readable < count)
      ensures r == Returned(-EFAULT) && NeverLate() ==> count <= |user|
      ensures r.StillWaiting? ==>
        accepted == old(accepted) && !nonblock && writer == Asleep(user) && !running && !signal
    {
      hide Do, Run, State, NoLateWake;
      count := 0;
      r, seen := Enter(user, nonblock, patience);
      if r == Returned(0) {
        var value;
        value, count, seen := Finish(user, readable);
        r := Returned(value);
      }
    }
  }
}
