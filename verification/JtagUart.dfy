/** The interrupt-driven JTAG UART driver: the interrupt routine, and the read and write routines that
    share two rings with it (altera_avalon_jtag_uart_init.c, _read.c, _write.c).

    The foreground routines call `BesideWriter` or `BesideReader` between any two of their accesses to
    shared state, so what they ensure holds for every interleaving with the interrupt routine and with
    the other of the two. What `SomeRead` and `SomeWrite` let in there are the accesses that the other
    routine makes, and each of these ensures what this one relies on. */
module JtagUart {
  import opened Machine
  import opened Ring

  const EWOULDBLOCK := 11
  const EIO := 5
  const INT_MAX := 0x7FFF_FFFF

  /** A call that waits is watched for a number of polls, and may not have returned by then. */
  datatype Outcome = Returned(value: int) | StillWaiting(soFar: nat)

  /** What a read of the control register shows, and what a read of the data register shows. */
  datatype Control = Control(ri: bool, wi: bool, ac: bool, wspace: nat)
  datatype Data = Data(ravail: nat, rvalid: bool)

  function Min(a: nat, b: nat): nat {
    if a < b then a else b
  }

  class Uart {
    const len: nat            // the size of each ring, ALTERA_AVALON_JTAG_UART_BUF_LEN
    const rxBuf: array<Byte>
    const txBuf: array<Byte>
    const timeout: nat
    var rxIn: nat
    var rxOut: nat
    var txIn: nat
    var txOut: nat
    var irqRe: bool           // irq_enable
    var irqWe: bool
    var hostInactive: nat

    // The device: enable bits of the control register, and the hardware FIFOs.
    const depth: nat
    var re: bool
    var we: bool
    var rxFifo: seq<Byte>
    var txFifo: seq<Byte>

    // History.
    ghost var accepted: seq<Byte>   // bytes the writer has published
    ghost var sent: seq<Byte>       // bytes handed to the hardware
    ghost var popped: seq<Byte>     // valid bytes taken from the hardware
    ghost var returned: seq<Byte>   // bytes the reader has consumed
    ghost var unkicked: bool        // a writer has published and not yet enabled the write interrupt
    ghost var unresumed: bool       // a reader has consumed and not yet enabled the read interrupt
    ghost var controls: seq<Control> // what the reads of the control register have shown
    ghost var lastData: Data        // what the last read of the data register has shown
    ghost var level: nat            // how full the transmit ring was when bytes were last published
    ghost var quiets: nat           // how many of the once-a-second checks have found the host gone quiet

    ghost predicate RxRing()
      reads this`rxIn, this`rxOut
    {
      rxBuf.Length == len && rxIn < len && rxOut < len
    }

    ghost predicate TxRing()
      reads this`txIn, this`txOut
    {
      txBuf.Length == len && txIn < len && txOut < len
    }

    ghost predicate Shape()
      reads this`rxIn, this`rxOut, this`txIn, this`txOut, this`txFifo, this`hostInactive
    {
      RxRing() && TxRing() && rxBuf != txBuf && |txFifo| <= depth && hostInactive <= INT_MAX - 2
    }

    ghost function Rx(): seq<Byte>
      requires RxRing()
      reads this`rxIn, this`rxOut, rxBuf
    {
      Contents(rxBuf[..], rxOut, rxIn)
    }

    ghost function Tx(): seq<Byte>
      requires TxRing()
      reads this`txIn, this`txOut, txBuf
    {
      Contents(txBuf[..], txOut, txIn)
    }

    /** The part of the invariant that a byte just popped does not touch. */
    ghost predicate Waiting()
      reads this, rxBuf, txBuf
    {
      && Shape()
      && re == irqRe && we == irqWe
      && sent + Tx() == accepted
      && (Tx() != [] ==> we || unkicked)
      && (!re ==> |Rx()| == len - 1 || unresumed)
    }

    /** Nothing is lost, repeated or reordered, and nothing is stranded: data waiting to be sent has
        the write interrupt on or a writer about to turn it on, and the read interrupt is off only
        while the ring is full or a reader is about to turn it on. */
    ghost predicate Valid()
      reads this, rxBuf, txBuf
    {
      Waiting() && returned + Rx() == popped
    }

    /** The host has been found quiet for the timeout at some moment since. */
    twostate predicate HostQuiet()
      reads this
    {
      quiets > old(quiets) || old(hostInactive) >= timeout
    }

    twostate predicate HostMoved()
      reads this
    {
      quiets >= old(quiets) && (hostInactive >= timeout ==> HostQuiet())
    }

    /** What interrupts and the host leave alone, and which way they move the rest. */
    twostate predicate Interrupted()
      reads this, rxBuf, txBuf
    {
      && old(Shape()) && Shape()
      && txIn == old(txIn) && rxOut == old(rxOut) && txBuf[..] == old(txBuf[..])
      && accepted == old(accepted) && returned == old(returned)
      && unkicked == old(unkicked) && unresumed == old(unresumed)
      && old(sent) <= sent && |Tx()| <= old(|Tx()|)
      && old(Rx()) <= Rx()
      && level == old(level) && HostMoved()
    }

    constructor (len: nat, timeout: nat, depth: nat)
      requires len > 0
      ensures Valid() && fresh(rxBuf) && fresh(txBuf)
      ensures accepted == sent == popped == returned == [] && re && !we && !unkicked && !unresumed
    {
      this.len, this.timeout, this.depth := len, timeout, depth;
      rxBuf, txBuf := new Byte[len](_ => 0), new Byte[len](_ => 0);
      rxIn, rxOut, txIn, txOut := 0, 0, 0, 0;
      hostInactive := 0;
      irqRe, irqWe, re, we := true, false, true, false;
      rxFifo, txFifo := [], [];
      accepted, sent, popped, returned := [], [], [], [];
      unkicked, unresumed := false, false;
      controls, lastData, level, quiets := [], Data(0, false), 0, 0;
    }

    /** What interrupts can still do before there is nothing left for them. */
    ghost function Work(): nat
      requires RxRing() && TxRing()
      reads this`rxIn, this`rxOut, this`txIn, this`txOut, this`re, this`we, rxBuf, txBuf
    {
      len - |Rx()| + |Tx()| + (if re then 1 else 0) + (if we then 1 else 0)
    }

    // ---- The device ----

    /** Between any two accesses the host may send bytes and take bytes. */
    method Host()
      modifies this`rxFifo, this`txFifo
      ensures old(rxFifo) <= rxFifo && |txFifo| <= old(|txFifo|)
    {
      var arrived: seq<Byte>, taken: nat := *, *;
      rxFifo := rxFifo + arrived;
      if taken <= |txFifo| {
        txFifo := txFifo[taken..];
      }
    }

    /** An interrupt is pending only while it is enabled and the FIFO has data, or room. */
    method ReadControl() returns (c: Control)
      requires Valid()
      modifies this`rxFifo, this`txFifo, this`controls
      ensures Valid() && Interrupted() && Rx() == old(Rx()) && Tx() == old(Tx())
      ensures old(rxFifo) <= rxFifo && |txFifo| <= old(|txFifo|)
      ensures c.wspace + |txFifo| == depth && Work() == old(Work())
      ensures (c.ri ==> re && rxFifo != []) && (c.wi ==> we && c.wspace > 0)
      ensures controls == old(controls) + [c]
    {
      hide Contents, Advance;
      Host();
      var ri: bool, wi: bool, ac: bool := *, *, *;
      c := Control(ri && re && rxFifo != [], wi && we && |txFifo| < depth, ac, depth - |txFifo|);
      controls := controls + [c];
    }

    method WriteControl()
      modifies this`re, this`we
      ensures re == irqRe && we == irqWe
    {
      re, we := irqRe, irqWe;
    }

    /** Pops a byte when there is one; `ravail` is how many are left. */
    method ReadData() returns (ravail: nat, rvalid: bool, data: Byte)
      requires Shape()
      modifies this`rxFifo, this`txFifo, this`popped, this`lastData
      ensures |txFifo| <= old(|txFifo|) && lastData == Data(ravail, rvalid)
      ensures old(rxFifo) != [] ==> rvalid
      ensures rvalid ==> popped == old(popped) + [data]
      ensures !rvalid ==> popped == old(popped) && ravail == 0
    {
      Host();
      if rxFifo == [] {
        ravail, rvalid, data := 0, false, 0;
      } else {
        data, rvalid := rxFifo[0], true;
        rxFifo := rxFifo[1..];
        ravail := |rxFifo|;
        popped := popped + [data];
      }
      lastData := Data(ravail, rvalid);
    }

    /** The hardware FIFO must have room. */
    method WriteData(b: Byte)
      requires Shape() && |txFifo| < depth
      modifies this`rxFifo, this`txFifo, this`sent
      ensures |txFifo| <= old(|txFifo|) + 1 && sent == old(sent) + [b]
      ensures old(rxFifo) <= rxFifo
    {
      txFifo := txFifo + [b];
      sent := sent + [b];
      Host();
    }

    // ---- Interrupt level ----

    /** Stores a byte just popped. */
    method StoreReceived(data: Byte)
      requires Waiting() && returned + Rx() + [data] == popped && Advance(rxIn, 1, len) != rxOut
      modifies this`rxIn, rxBuf
      ensures Valid() && Rx() == old(Rx()) + [data] && Tx() == old(Tx())
    {
      hide Contents, Advance, Tx;
      StoreOne(rxBuf[..], rxOut, rxIn, data);
      ghost var after := rxBuf[..][rxIn := data];
      rxBuf[rxIn] := data;
      assert rxBuf[..] == after;
      rxIn := Advance(rxIn, 1, len);
    }

    /** Takes a byte from the hardware and stores it. */
    method ReceiveOne() returns (ravail: nat, rvalid: bool)
      requires Valid() && Advance(rxIn, 1, len) != rxOut
      modifies this, rxBuf
      ensures Valid() && Interrupted() && re == old(re) && we == old(we) && Tx() == old(Tx())
      ensures |txFifo| <= old(|txFifo|) && controls == old(controls) && lastData == Data(ravail, rvalid)
      ensures if rvalid then |Rx()| == old(|Rx()|) + 1 else Rx() == old(Rx()) && ravail == 0
      ensures old(rxFifo) != [] ==> rvalid
    {
      hide Contents, Advance, Tx, Rx;
      var data;
      ravail, rvalid, data := ReadData();
      if rvalid {
        StoreReceived(data);
      }
    }

    /** Turns the read interrupt off, with a read of the register so that it is cleared in time. */
    method StopReceiving()
      requires Valid() && |Rx()| == len - 1
      modifies this
      ensures Valid() && Interrupted() && !re && we == old(we) && Tx() == old(Tx()) && Rx() == old(Rx())
      ensures |txFifo| <= old(|txFifo|) && old(controls) <= controls && lastData == old(lastData)
    {
      hide Contents, Advance, Rx, Tx;
      irqRe := false;
      WriteControl();
      var shown := ReadControl();
    }

    method StopTransmitting()
      requires Valid() && Tx() == []
      modifies this
      ensures Valid() && Interrupted() && re == old(re) && !we && Tx() == old(Tx()) && Rx() == old(Rx())
      ensures old(controls) <= controls && lastData == old(lastData)
    {
      hide Contents, Advance, Rx, Tx;
      irqWe := false;
      WriteControl();
      var shown := ReadControl();
    }

    /** What the read half has done: with room in the ring it has moved bytes until there were none or
        the ring was full, and the read interrupt is on unless data is left over. */
    twostate predicate Received()
      reads this, rxBuf
    {
      && old(Shape()) && Shape()
      && if old(|Rx()|) == len - 1 then Rx() == old(Rx()) && !re
         else |Rx()| > old(|Rx()|) && (|Rx()| == len - 1 || !lastData.rvalid) && (re <==> lastData.ravail == 0)
    }

    /** The read half of the interrupt routine: moves bytes into the ring while there is room, and
        turns the read interrupt off when data is left over. */
    method ReceiveBytes()
      requires Valid() && re && rxFifo != []
      modifies this, rxBuf
      ensures Valid() && Interrupted() && we == old(we) && Tx() == old(Tx())
      ensures |txFifo| <= old(|txFifo|) && old(controls) <= controls
      ensures Received() && Work() < old(Work())
    {
      hide Contents, Advance;
      var ravail: nat := 1;
      while true
        invariant Valid() && Interrupted() && re && we == old(we) && Tx() == old(Tx())
        invariant |txFifo| <= old(|txFifo|)
        invariant controls == old(controls)
        invariant if |Rx()| == old(|Rx()|) then Rx() == old(Rx()) && ravail == 1 && rxFifo != []
          else lastData == Data(ravail, true)
        decreases len - |Rx()|
      {
        RoomBehind(rxBuf[..], rxOut, rxIn);
        var next := Advance(rxIn, 1, len);
        if next == rxOut {
          break;
        }
        var rvalid;
        ravail, rvalid := ReceiveOne();
        if !rvalid {
          break;
        }
      }
      if ravail != 0 {
        StopReceiving();
      }
    }

    /** Hands the oldest byte in the ring to the hardware. */
    method TransmitOne()
      requires Valid() && txOut != txIn && |txFifo| < depth
      modifies this
      ensures Valid() && Interrupted() && re == old(re) && we == old(we) && Rx() == old(Rx())
      ensures |txFifo| <= old(|txFifo|) + 1 && |Tx()| == old(|Tx()|) - 1
      ensures controls == old(controls) && lastData == old(lastData)
      ensures Tx() == [] <==> txOut == txIn
    {
      hide Contents, Advance, Rx;
      TakeOne(txBuf[..], txOut, txIn);
      WriteData(txBuf[txOut]);
      txOut := Advance(txOut, 1, len);
      RoomBehind(txBuf[..], txOut, txIn);
    }

    /** The write half: feeds the hardware while it has room, and turns the write interrupt off when
        the ring runs dry first. The bytes that leave the ring are those that the hardware is given. */
    method TransmitBytes(wspace: nat)
      requires Valid() && we && wspace > 0 && wspace + |txFifo| <= depth
      modifies this
      ensures Valid() && Interrupted() && re == old(re) && Rx() == old(Rx())
      ensures |Tx()| == old(|Tx()|) - Min(wspace, old(|Tx()|)) && (we <==> wspace <= old(|Tx()|))
      ensures old(controls) <= controls && lastData == old(lastData) && Work() < old(Work())
    {
      hide Contents, Advance;
      var space := wspace;
      RoomBehind(txBuf[..], txOut, txIn);
      while space > 0 && txOut != txIn
        invariant Valid() && Interrupted() && re == old(re) && we == old(we) && Rx() == old(Rx())
        invariant controls == old(controls) && lastData == old(lastData)
        invariant space + |txFifo| <= depth && space - |Tx()| == wspace - old(|Tx()|)
        invariant Tx() == [] <==> txOut == txIn
        decreases space
      {
        TransmitOne();
        space := space - 1;
      }
      if space > 0 {
        StopTransmitting();
      }
    }

    /** What a round does after a read of the control register that has shown `c`. */
    twostate predicate Served(c: Control)
      reads this, rxBuf, txBuf
    {
      && old(Shape()) && Shape()
      && (if c.ri then Received() else Rx() == old(Rx()) && re == old(re))
      && (if c.wi then |Tx()| == old(|Tx()|) - Min(c.wspace, old(|Tx()|)) && (we <==> c.wspace <= old(|Tx()|))
          else Tx() == old(Tx()) && we == old(we))
    }

    /** A round of the interrupt routine; `more` tells whether there was anything to do. */
    method Service() returns (more: bool)
      requires Valid()
      modifies this, rxBuf
      ensures Valid() && Interrupted() && (more ==> Work() < old(Work()))
      ensures |controls| > |old(controls)| && old(controls) <= controls
      ensures var c := controls[|old(controls)|];
        Served(c) && (more <==> c.ri || c.wi) && (!more ==> controls == old(controls) + [c])
    {
      hide Contents, Advance, Work;
      var c := ReadControl();
      ghost var shown := controls;
      if c.ri {
        ReceiveBytes();
      }
      if c.wi {
        TransmitBytes(c.wspace);
      }
      more := c.ri || c.wi;
      assert shown[|old(controls)|] == c;
    }

    /** The interrupt routine. It comes to an end whatever the host does, and only after a read of the
        control register that has shown nothing to do. */
    method Irq()
      requires Valid()
      modifies this, rxBuf
      ensures Valid() && Interrupted()
      ensures |controls| > |old(controls)| && var c := controls[|controls| - 1]; !c.ri && !c.wi
    {
      hide Contents, Advance, Work, Served;
      var more := true;
      while more
        invariant Valid() && Interrupted() && |controls| >= |old(controls)|
        invariant !more ==> |controls| > |old(controls)| && var c := controls[|controls| - 1]; !c.ri && !c.wi
        decreases more, Work()
      {
        more := Service();
      }
    }

    /** Counts the seconds without the host. */
    method CountSeconds(active: bool)
      requires Valid()
      modifies this`hostInactive, this`quiets
      ensures Valid() && Interrupted()
      ensures hostInactive ==
        if active then 0 else if old(hostInactive) < INT_MAX - 2 then old(hostInactive) + 1 else old(hostInactive)
    {
      hide Contents, Advance;
      hostInactive :=
        if active then 0 else if hostInactive < INT_MAX - 2 then hostInactive + 1 else hostInactive;
      quiets := quiets + if hostInactive >= timeout then 1 else 0;
    }

    /** The once-a-second check whether the host is there: `active` is the bit that it sets. */
    method Timeout() returns (active: bool)
      requires Valid()
      modifies this
      ensures Valid() && Interrupted()
      ensures |controls| > 0 && active == controls[|controls| - 1].ac
      ensures hostInactive ==
        if active then 0 else if old(hostInactive) < INT_MAX - 2 then old(hostInactive) + 1 else old(hostInactive)
    {
      hide Contents, Advance, Rx, Tx;
      var c := ReadControl();
      active := c.ac;
      if active {
        WriteControl();
      }
      CountSeconds(active);
    }

    /** Any number of interrupts, in any order. */
    method Preempt()
      requires Valid()
      modifies this, rxBuf
      ensures Valid() && Interrupted()
    {
      hide Contents, Advance;
      var n: nat := *;
      while n > 0
        invariant Valid() && Interrupted()
      {
        var tick: bool := *;
        if tick {
          var active := Timeout();
        } else {
          Irq();
        }
        n := n - 1;
      }
    }

    // ---- Foreground: single accesses ----

    /** What interrupts and a reader leave alone of a writer's. */
    twostate predicate WriterUntouched()
      reads this, txBuf
    {
      && old(Shape()) && Shape()
      && txIn == old(txIn) && txBuf[..] == old(txBuf[..]) && accepted == old(accepted) && unkicked == old(unkicked)
      && |Tx()| <= old(|Tx()|) && level == old(level) && HostMoved()
    }

    /** What interrupts and a writer leave alone of a reader's. */
    twostate predicate ReaderUntouched()
      reads this, rxBuf
    {
      && old(Shape()) && Shape()
      && rxOut == old(rxOut) && returned == old(returned) && unresumed == old(unresumed) && old(Rx()) <= Rx()
      && HostMoved()
    }

    /** How many bytes can be copied in one piece behind `inn`, given the snapshots of the indices. */
    function WriteRun(inn: nat, out: nat): (n: nat)
      requires inn < len && out < len
      ensures inn + n <= len
    {
      if inn < out then out - 1 - inn else if out > 0 then len - inn else len - 1 - inn
    }

    /** The run fits with a slot to spare, and it is empty only when the ring is full. */
    lemma WriteRunFits(inn: nat, out: nat)
      requires Shape() && inn == txIn && out == txOut
      ensures |Tx()| + WriteRun(inn, out) < len
      ensures WriteRun(inn, out) == 0 <==> |Tx()| == len - 1
    {
    }

    method StoreInFree(inn: nat, k: nat, b: Byte)
      requires Valid() && inn == txIn && inn + k < len && |Tx()| + k < len
      modifies txBuf
      ensures Valid() && Tx() == old(Tx()) && txBuf[..] == old(txBuf[..])[inn + k := b]
      ensures ReaderUntouched()
    {
      hide Contents, Advance;
      StoreFree(txBuf[..], txOut, txIn, k, b);
      ghost var after := txBuf[..][inn + k := b];
      txBuf[inn + k] := b;
      assert txBuf[..] == after;
    }

    /** Makes the bytes copied in visible to the interrupt routine. */
    method PublishWritten(inn: nat, n: nat)
      requires Valid() && inn == txIn && inn + n <= len && |Tx()| + n < len
      modifies this`txIn, this`accepted, this`unkicked, this`level
      ensures Valid() && unkicked && accepted == old(accepted) + txBuf[inn..inn + n]
      ensures ReaderUntouched() && level == |Tx()| == old(|Tx()|) + n
    {
      hide Contents, Advance;
      PutRun(txBuf[..], txOut, txIn, n);
      assert txBuf[..][inn..inn + n] == txBuf[inn..inn + n];
      accepted := accepted + txBuf[inn..inn + n];
      unkicked := true;
      txIn := Advance(inn, n, len);
      level := |Tx()|;
    }

    /** Turning the write interrupt on, with interrupts disabled around it. */
    method StartTransmitting()
      requires Valid()
      modifies this`irqWe, this`re, this`we, this`unkicked
      ensures Valid() && !unkicked && we && re == old(re) && ReaderUntouched()
    {
      hide Contents, Advance, Rx, Tx;
      irqWe := true;
      WriteControl();
      unkicked := false;
    }

    /** How many bytes can be copied in one piece, given the snapshots of the indices. */
    function ReadRun(inn: nat, out: nat): (n: nat)
      requires inn < len && out < len
      ensures out + n <= len
    {
      if inn >= out then inn - out else len - out
    }

    lemma ReadRunThere(inn: nat, out: nat)
      requires Shape() && inn == rxIn && out == rxOut
      ensures ReadRun(inn, out) <= |Rx()|
      ensures ReadRun(inn, out) == 0 <==> Rx() == []
    {
    }

    /** Frees the slots of the bytes copied out. */
    method ConsumeRead(out: nat, bytes: seq<Byte>)
      requires Valid() && out == rxOut && out + |bytes| <= len && bytes <= Rx()
      modifies this`rxOut, this`returned, this`unresumed
      ensures Valid() && unresumed && returned == old(returned) + bytes && WriterUntouched()
      ensures |Rx()| == old(|Rx()|) - |bytes|
    {
      hide Contents, Advance;
      TakeRun(rxBuf[..], rxOut, rxIn, |bytes|);
      assert Rx()[..|bytes|] == bytes;
      returned := returned + bytes;
      unresumed := true;
      rxOut := Advance(out, |bytes|, len);
    }

    /** Turning the read interrupt on, with interrupts disabled around it. */
    method ResumeReceiving()
      requires Valid()
      modifies this`irqRe, this`re, this`we, this`unresumed
      ensures Valid() && !unresumed && re && we == old(we) && WriterUntouched()
    {
      hide Contents, Advance, Rx, Tx;
      irqRe := true;
      WriteControl();
      unresumed := false;
    }

    // ---- What goes on beside a routine ----

    /** An access of a reader to what it shares with others: it frees some slots, or turns the read
        interrupt on. */
    method SomeRead()
      requires Valid()
      modifies this`rxOut, this`returned, this`unresumed, this`irqRe, this`re, this`we
      ensures Valid() && WriterUntouched()
    {
      hide Contents, Advance;
      var n: nat := *;
      ReadRunThere(rxIn, rxOut);
      if 0 < n <= ReadRun(rxIn, rxOut) {
        TakeRun(rxBuf[..], rxOut, rxIn, n);
        assert rxBuf[..][rxOut..rxOut + n] == rxBuf[rxOut..rxOut + n];
        ConsumeRead(rxOut, rxBuf[rxOut..rxOut + n]);
      } else {
        ResumeReceiving();
      }
    }

    /** Any number of interrupts, and of accesses of a reader, in any order. */
    method BesideWriter()
      requires Valid()
      modifies this, rxBuf
      ensures Valid() && WriterUntouched()
    {
      hide Contents, Advance;
      var n: nat := *;
      while n > 0
        invariant Valid() && WriterUntouched()
      {
        var reader: bool := *;
        if reader {
          SomeRead();
        } else {
          Preempt();
        }
        n := n - 1;
      }
    }

    /** An access of a writer to what it shares with others: it stores into a free slot, publishes some,
        or turns the write interrupt on. */
    method SomeWrite()
      requires Valid()
      modifies this`txIn, this`accepted, this`unkicked, this`level, this`irqWe, this`re, this`we, txBuf
      ensures Valid() && ReaderUntouched()
    {
      hide Contents, Advance;
      var n: nat, b: Byte, publish: bool := *, *, *;
      WriteRunFits(txIn, txOut);
      if publish && n <= WriteRun(txIn, txOut) {
        PublishWritten(txIn, n);
      } else if n < WriteRun(txIn, txOut) {
        StoreInFree(txIn, n, b);
      } else {
        StartTransmitting();
      }
    }

    /** Any number of interrupts, and of accesses of a writer, in any order. */
    method BesideReader()
      requires Valid()
      modifies this, rxBuf, txBuf
      ensures Valid() && ReaderUntouched()
    {
      hide Contents, Advance;
      var n: nat := *;
      while n > 0
        invariant Valid() && ReaderUntouched()
      {
        var writer: bool := *;
        if writer {
          SomeWrite();
        } else {
          Preempt();
        }
        n := n - 1;
      }
    }

    // ---- Foreground: writing ----

    /** The copy into the ring, byte by byte, with interrupts coming in between. The slots written are
        free and stay free: the ring only empties meanwhile. */
    method CopyIn(inn: nat, src: seq<Byte>)
      requires Valid() && inn == txIn && inn + |src| <= len && |Tx()| + |src| < len
      modifies this, rxBuf, txBuf
      ensures Valid() && txIn == old(txIn) && accepted == old(accepted) && unkicked == old(unkicked)
      ensures txBuf[inn..inn + |src|] == src && |Tx()| <= old(|Tx()|) && HostMoved()
    {
      hide Contents, Advance;
      var k := 0;
      while k < |src|
        invariant 0 <= k <= |src| && Valid() && txIn == old(txIn) && accepted == old(accepted)
        invariant unkicked == old(unkicked)
        invariant txBuf[inn..inn + k] == src[..k] && |Tx()| <= old(|Tx()|) && HostMoved()
      {
        BesideWriter();
        StoreInFree(inn, k, src[k]);
        k := k + 1;
      }
    }

    /** Copies a piece that fits behind the ring and publishes it. */
    method AddPiece(inn: nat, piece: seq<Byte>)
      requires Valid() && inn == txIn && inn + |piece| <= len && |Tx()| + |piece| < len
      modifies this, rxBuf, txBuf
      ensures Valid() && accepted == old(accepted) + piece && |Tx()| == level && HostMoved()
    {
      hide Contents, Advance;
      CopyIn(inn, piece);
      BesideWriter();
      PublishWritten(inn, |piece|);
    }

    /** One round of the filling loop: what fits in one piece, going by a snapshot of the index that
        the interrupt routine moves. */
    method CopyRun(src: seq<Byte>) returns (n: nat, out: nat)
      requires Valid() && src != []
      modifies this, rxBuf, txBuf
      ensures Valid() && n <= |src| && out < len
      ensures accepted == old(accepted) + src[..n]
      ensures n == 0 ==>
        unkicked == old(unkicked) && |Tx()| <= old(|Tx()|) && |Contents(txBuf[..], out, txIn)| == len - 1
      ensures if n == 0 then old(|Tx()|) == len - 1 && level == old(level) else |Tx()| == level
      ensures HostMoved()
    {
      hide Contents, Advance;
      BesideWriter();
      var inn := txIn;
      BesideWriter();
      out := txOut;
      n := WriteRun(inn, out);
      WriteRunFits(inn, out);
      if n == 0 {
        return;
      }
      if n > |src| {
        n := |src|;
      }
      AddPiece(inn, src[..n]);
    }

    lemma Extends(src: seq<Byte>, k: nat, n: nat)
      requires k + n <= |src|
      ensures src[..k] + src[k..][..n] == src[..k + n]
    {
    }

    /** Copies as much as fits; bytes are left over only if the ring was full at the last snapshot, and so
        full when bytes were last published, or from the start if none were. */
    method FillRing(src: seq<Byte>) returns (ptr: nat, out: nat)
      requires Valid()
      modifies this, rxBuf, txBuf
      ensures Valid() && ptr <= |src| && out < len
      ensures accepted == old(accepted) + src[..ptr]
      ensures ptr < |src| ==> |Contents(txBuf[..], out, txIn)| == len - 1
      ensures ptr < |src| ==> if ptr == 0 then old(|Tx()|) == len - 1 else level == len - 1
      ensures HostMoved() && (ptr == 0 ==> |Tx()| <= old(|Tx()|))
    {
      hide Contents, Advance;
      ptr, out := 0, 0;
      while ptr < |src|
        invariant Valid() && ptr <= |src| && out < len
        invariant accepted == old(accepted) + src[..ptr]
        invariant HostMoved() && if ptr == 0 then |Tx()| <= old(|Tx()|) else |Tx()| == level
        decreases |src| - ptr
      {
        var n;
        n, out := CopyRun(src[ptr..]);
        if n == 0 {
          break;
        }
        Extends(src, ptr, n);
        ptr := ptr + n;
      }
    }

    /** Fills the ring and turns the write interrupt on. */
    method WriteRound(src: seq<Byte>, ptr: nat) returns (n: nat, out: nat)
      requires Valid() && ptr <= |src|
      modifies this, rxBuf, txBuf
      ensures Valid() && !unkicked && n <= |src| - ptr && out < len
      ensures src[..ptr] + src[ptr..][..n] == src[..ptr + n] && accepted == old(accepted) + src[ptr..][..n]
      ensures ptr + n < |src| ==> |Contents(txBuf[..], out, txIn)| == len - 1
      ensures ptr + n < |src| ==> if n == 0 then old(|Tx()|) == len - 1 else level == len - 1
      ensures HostMoved() && (n == 0 ==> |Tx()| <= old(|Tx()|))
    {
      hide Contents, Advance;
      n, out := FillRing(src[ptr..]);
      Extends(src, ptr, n);
      BesideWriter();
      StartTransmitting();
    }

    /** The wait of a blocked writer: until the interrupt routine has taken something from the full
        ring, or the host has gone quiet, or, for an observer, until the patience runs out. */
    method AwaitDrain(out: nat, patience: nat) returns (moved: bool, expired: bool)
      requires Valid() && out < len && |Contents(txBuf[..], out, txIn)| == len - 1
      modifies this, rxBuf
      ensures Valid() && WriterUntouched()
      ensures expired ==> |Tx()| == len - 1 && hostInactive < timeout
      ensures !expired && moved ==> |Tx()| < len - 1
      ensures !expired && !moved ==> timeout < INT_MAX && HostQuiet()
    {
      hide Contents, Advance;
      var polls := patience;
      BesideWriter();
      while out == txOut && hostInactive < timeout
        invariant Valid() && WriterUntouched()
        decreases polls
      {
        if polls == 0 {
          return false, true;
        }
        polls := polls - 1;
        BesideWriter();
      }
      RoomElsewhere(txBuf[..], out, txOut, txIn);
      BesideWriter();
      RoomElsewhere(txBuf[..], out, txOut, txIn);
      return out != txOut, false;
    }

    /** The write call. It returns how many bytes it has accepted, and those are the first ones. It leaves
        bytes over only after having filled the ring, or having found it full, and then it returns only
        in non-blocking mode or when it has seen the host quiet for too long. */
    method Write(src: seq<Byte>, nonblock: bool, patience: nat) returns (r: Outcome)
      requires Valid() && !unkicked
      modifies this, rxBuf, txBuf
      ensures Valid() && !unkicked
      ensures r.Returned? && r.value > 0 ==> r.value <= |src| && accepted == old(accepted) + src[..r.value]
      ensures r.Returned? && r.value <= 0 ==>
        accepted == old(accepted) && r.value == if nonblock then -EWOULDBLOCK else -EIO
      ensures r.StillWaiting? ==> !nonblock && r.soFar < |src| && accepted == old(accepted) + src[..r.soFar]
      ensures r.StillWaiting? ==> |Tx()| == len - 1 && hostInactive < timeout
      ensures src != [] && |accepted| == |old(accepted)| ==> old(|Tx()|) == len - 1
      ensures |old(accepted)| < |accepted| < |old(accepted)| + |src| ==> level == len - 1
      ensures r.Returned? && !nonblock && r.value < |src| && src != [] ==> HostQuiet()
      ensures r.Returned? && !nonblock && timeout == INT_MAX && src != [] ==> r.value == |src|
    {
      hide Contents, Advance;
      var ptr: nat := 0;
      while true
        invariant Valid() && !unkicked && ptr <= |src|
        invariant accepted == old(accepted) + src[..ptr]
        invariant HostMoved() && if ptr == 0 then |Tx()| <= old(|Tx()|) else |Tx()| < len - 1
        decreases |src| - ptr, len - 1 - |Tx()| == 0
      {
        var copied, out := WriteRound(src, ptr);
        ptr := ptr + copied;
        if ptr >= |src| {
          break;
        }
        if nonblock {
          break;
        }
        var moved, expired := AwaitDrain(out, patience);
        if expired {
          return StillWaiting(ptr);
        }
        if !moved {
          break;
        }
      }
      if ptr != 0 {
        return Returned(ptr);
      } else if nonblock {
        return Returned(-EWOULDBLOCK);
      } else {
        return Returned(-EIO);
      }
    }

    // ---- Foreground: reading ----

    /** The copy out of the ring. The bytes read stay in place: the ring only grows meanwhile. */
    method CopyOut(out: nat, n: nat) returns (bytes: seq<Byte>)
      requires Valid() && out == rxOut && out + n <= len && n <= |Rx()|
      modifies this, rxBuf, txBuf
      ensures Valid() && rxOut == old(rxOut) && returned == old(returned) && unresumed == old(unresumed)
      ensures |bytes| == n && bytes <= Rx() && old(Rx()) <= Rx() && HostMoved()
    {
      hide Contents, Advance;
      bytes := [];
      while |bytes| < n
        invariant Valid() && ReaderUntouched() && |bytes| <= n && bytes <= Rx()
        decreases n - |bytes|
      {
        BesideReader();
        ContentsAt(rxBuf[..], rxOut, rxIn, |bytes|);
        bytes := bytes + [rxBuf[out + |bytes|]];
      }
    }

    /** One round of the draining loop, going by a snapshot of the index that the interrupt routine
        moves. */
    method DrainRun(space: nat) returns (bytes: seq<Byte>, inn: nat)
      requires Valid() && space > 0
      modifies this, rxBuf, txBuf
      ensures Valid() && |bytes| <= space && inn < len
      ensures returned == old(returned) + bytes
      ensures bytes == [] ==> old(Rx()) == [] && unresumed == old(unresumed) && rxOut == old(rxOut) && inn == rxOut
      ensures |Rx()| + |bytes| >= old(|Rx()|) && HostMoved()
    {
      hide Contents, Advance;
      BesideReader();
      inn := rxIn;
      var out := rxOut;
      var n := ReadRun(inn, out);
      ReadRunThere(inn, out);
      BesideReader();
      if n == 0 {
        return [], inn;
      }
      if n > space {
        n := space;
      }
      bytes := CopyOut(out, n);
      BesideReader();
      ConsumeRead(out, bytes);
    }

    /** Takes what there is, as far as there is space. */
    method DrainRing(space: nat) returns (buffer: seq<Byte>, inn: nat)
      requires Valid() && space > 0 && !unresumed
      modifies this, rxBuf, txBuf
      ensures Valid() && |buffer| <= space && inn < len
      ensures returned == old(returned) + buffer && (buffer == [] ==> !unresumed)
      ensures buffer == [] ==> old(Rx()) == [] && inn == rxOut
      ensures |buffer| >= Min(space, old(|Rx()|)) && HostMoved()
    {
      hide Contents, Advance;
      buffer := [];
      while true
        invariant Valid() && |buffer| < space
        invariant returned == old(returned) + buffer
        invariant buffer == [] ==> !unresumed && rxOut == old(rxOut) && old(Rx()) <= Rx()
        invariant |Rx()| + |buffer| >= old(|Rx()|) && HostMoved()
        decreases space - |buffer|
      {
        var bytes;
        bytes, inn := DrainRun(space - |buffer|);
        if bytes == [] {
          break;
        }
        buffer := buffer + bytes;
        if |buffer| >= space {
          break;
        }
      }
    }

    /** The wait of a blocked reader. */
    method AwaitData(inn: nat, patience: nat) returns (moved: bool, expired: bool)
      requires Valid() && inn < len && inn == rxOut
      modifies this, rxBuf, txBuf
      ensures Valid() && ReaderUntouched()
      ensures expired ==> Rx() == [] && hostInactive < timeout
      ensures !expired && moved ==> Rx() != []
      ensures !expired && !moved ==> timeout < INT_MAX && HostQuiet()
    {
      hide Contents, Advance;
      var polls := patience;
      BesideReader();
      while inn == rxIn && hostInactive < timeout
        invariant Valid() && ReaderUntouched()
        decreases polls
      {
        if polls == 0 {
          return false, true;
        }
        polls := polls - 1;
        BesideReader();
      }
      RoomBehind(rxBuf[..], rxOut, rxIn);
      BesideReader();
      RoomBehind(rxBuf[..], rxOut, rxIn);
      return inn != rxIn, false;
    }

    /** The read call. It returns what it took from the ring, and that is the next bytes received, at
        least those there were as far as there is space; in blocking mode it returns empty-handed only
        when it has seen the host quiet for too long. */
    method Read(space: nat, nonblock: bool, patience: nat) returns (r: Outcome, buffer: seq<Byte>)
      requires Valid() && !unresumed
      modifies this, rxBuf, txBuf
      ensures Valid() && !unresumed && |buffer| <= space
      ensures returned == old(returned) + buffer
      ensures r.Returned? ==>
        r.value == if buffer != [] then |buffer| else if nonblock then -EWOULDBLOCK else -EIO
      ensures r.StillWaiting? ==> !nonblock && buffer == [] && Rx() == [] && hostInactive < timeout
      ensures |buffer| >= Min(space, old(|Rx()|))
      ensures r.Returned? && !nonblock && space > 0 && buffer == [] ==> HostQuiet()
      ensures r.Returned? && !nonblock && timeout == INT_MAX && space > 0 ==> buffer != []
    {
      hide Contents, Advance;
      buffer := [];
      while space > 0
        invariant Valid() && !unresumed && buffer == []
        invariant returned == old(returned) && |Rx()| >= old(|Rx()|) && HostMoved()
        decreases Rx() == []
      {
        var inn;
        buffer, inn := DrainRing(space);
        if buffer != [] {
          break;
        }
        if nonblock {
          break;
        }
        var moved, expired := AwaitData(inn, patience);
        if expired {
          return StillWaiting(0), [];
        }
        if !moved {
          break;
        }
      }
      if buffer != [] {
        BesideReader();
        ResumeReceiving();
        return Returned(|buffer|), buffer;
      } else if nonblock {
        return Returned(-EWOULDBLOCK), buffer;
      } else {
        return Returned(-EIO), buffer;
      }
    }
  }
}
