/** The SPI master core and the transfer routine that drives it (altera_avalon_spi.c). */
module SpiMaster {

  import opened Machine

  /** `length` bytes of zero, clocked out while reading. */
  function Zeros(length: nat): (r: seq<Byte>)
    ensures |r| == length
  {
    seq(length, _ => 0)
  }

  /** The simple form of a transfer to a slave in state `s`: the bytes one after the other, with the
      answers collected. `shift` is one word each way; its flag says whether the select line is held
      or toggled around the word. */
  function ShiftAll<S>(shift: (S, bool, Byte) -> (S, Byte), s: S, held: bool, bytes: seq<Byte>): (r: (S, seq<Byte>))
    ensures |r.1| == |bytes|
  {
    if bytes == [] then (s, [])
    else
      var n := |bytes| - 1;
      var (s1, answers) := ShiftAll(shift, s, held, bytes[..n]);
      var (s2, a) := shift(s1, held, bytes[n]);
      (s2, answers + [a])
  }

  lemma ShiftNothing<S>(shift: (S, bool, Byte) -> (S, Byte), s: S, held: bool, bytes: seq<Byte>)
    requires bytes == []
    ensures ShiftAll(shift, s, held, bytes) == (s, [])
  {
  }

  lemma ShiftOneMore<S>(shift: (S, bool, Byte) -> (S, Byte), s: S, held: bool, bytes: seq<Byte>, j: nat)
    requires j < |bytes|
    ensures var (s1, answers) := ShiftAll(shift, s, held, bytes[..j]);
      var (s2, a) := shift(s1, held, bytes[j]);
      ShiftAll(shift, s, held, bytes[..j + 1]) == (s2, answers + [a])
  {
    assert bytes[..j + 1][..j] == bytes[..j];
  }

  /** A transfer to a slave whose state is known after every prefix of the bytes. */
  lemma {:induction false} TrackedTransfer<S>(shift: (S, bool, Byte) -> (S, Byte), held: bool,
      state: seq<Byte> -> S, answer: seq<Byte> -> Byte, bytes: seq<Byte>)
    requires forall i :: 0 <= i < |bytes| ==>
      shift(state(bytes[..i]), held, bytes[i]) == (state(bytes[..i + 1]), answer(bytes[..i]))
    ensures ShiftAll(shift, state([]), held, bytes).0 == state(bytes)
    ensures forall i :: 0 <= i < |bytes| ==> ShiftAll(shift, state([]), held, bytes).1[i] == answer(bytes[..i])
  {
    if bytes != [] {
      var n := |bytes| - 1;
      var init := bytes[..n];
      assert forall i :: 0 <= i <= n ==> init[..i] == bytes[..i];
      TrackedTransfer(shift, held, state, answer, init);
      assert bytes[..n + 1] == bytes;
    }
  }

  /** Seen by a slave that records what it receives and answers from the record: every byte arrives
      once, in order, and each answer is given before its byte is known. */
  lemma RecordedTransfer(answer: seq<Byte> -> Byte, log: seq<Byte>, held: bool, bytes: seq<Byte>)
    ensures var record := (r: seq<Byte>, h: bool, b: Byte) => (r + [b], answer(r));
      ShiftAll(record, log, held, bytes).0 == log + bytes &&
      forall i :: 0 <= i < |bytes| ==> ShiftAll(record, log, held, bytes).1[i] == answer(log + bytes[..i])
  {
    var record := (r: seq<Byte>, h: bool, b: Byte) => (r + [b], answer(r));
    forall i | 0 <= i < |bytes|
      ensures record(log + bytes[..i], held, bytes[i]) == (log + bytes[..i + 1], answer(log + bytes[..i]))
    {
      assert log + bytes[..i + 1] == log + bytes[..i] + [bytes[i]];
    }
    assert log + [] == log;
    TrackedTransfer(record, held, p => log + p, p => answer(log + p), bytes);
  }

  /** The registers of the core with a slave of any kind behind them. When it becomes ready is up to the
      hardware: the three `...Time` functions give, for the k-th byte, an arbitrary number of status
      reads before TRDY rises again, before the exchange completes, and before TMT rises. */
  class Core<S> {
    const shift: (S, bool, Byte) -> (S, Byte)
    const release: S -> S
    const trdyTime: nat -> nat
    const shiftTime: nat -> nat
    const tmtTime: nat -> nat

    var slave: S
    var held: bool             // the SSO bit: chip-select is forced
    var outgoing: seq<Byte>    // the byte written to TXDATA and not yet exchanged, if any
    var rxdata: Byte
    var rrdy: bool
    var trdyWait: nat
    var shiftWait: nat
    var tmtWait: nat

    var words: nat             // how many bytes have been written to TXDATA

    /** At most one byte is outstanding: written but not exchanged, or exchanged but not read. */
    ghost predicate Valid()
      reads this
    {
      |outgoing| <= 1 && (rrdy ==> outgoing == [])
    }

    /** No transfer in progress. A stale byte may still sit in RXDATA. */
    ghost predicate Quiet()
      reads this
    {
      outgoing == []
    }

    constructor (slave: S, shift: (S, bool, Byte) -> (S, Byte), release: S -> S,
                 trdyTime: nat -> nat, shiftTime: nat -> nat, tmtTime: nat -> nat)
      ensures Quiet() && !held && this.slave == slave && this.shift == shift && this.release == release
    {
      this.slave, this.shift, this.release := slave, shift, release;
      this.trdyTime, this.shiftTime, this.tmtTime := trdyTime, shiftTime, tmtTime;
      held, outgoing, rxdata, rrdy := false, [], 0, false;
      trdyWait, shiftWait, tmtWait := 0, 0, 0;
      words := 0;
    }

    method ReadStatus() returns (trdy: bool, rrdyBit: bool, tmt: bool)
      requires Valid()
      modifies this
      ensures Valid() && held == old(held)
      ensures trdy == (old(trdyWait) == 0)
      ensures trdyWait == if old(trdyWait) == 0 then 0 else old(trdyWait) - 1
      ensures rrdyBit == rrdy
      ensures tmt ==> outgoing == []
      ensures old(outgoing) == [] && !tmt ==> tmtWait < old(tmtWait)
      ensures old(outgoing) == [] ==>
        outgoing == [] && slave == old(slave) && rrdy == old(rrdy) && rxdata == old(rxdata) &&
        shiftWait == old(shiftWait)
      ensures old(outgoing) != [] && old(shiftWait) > 0 ==>
        outgoing == old(outgoing) && slave == old(slave) && rrdy == old(rrdy) && rxdata == old(rxdata) &&
        shiftWait == old(shiftWait) - 1
      ensures old(outgoing) != [] && old(shiftWait) == 0 ==>
        outgoing == [] && rrdy && (slave, rxdata) == shift(old(slave), held, old(outgoing)[0])
    {
      trdy := trdyWait == 0;
      trdyWait := if trdyWait == 0 then 0 else trdyWait - 1;
      if outgoing != [] {
        tmt := false;
        if shiftWait > 0 {
          shiftWait := shiftWait - 1;
        } else {
          var (c, r) := shift(slave, held, outgoing[0]);
          slave, rxdata, rrdy, outgoing := c, r, true, [];
        }
      } else {
        tmt := tmtWait == 0;
        tmtWait := if tmtWait == 0 then 0 else tmtWait - 1;
      }
      rrdyBit := rrdy;
    }

    /** Reading RXDATA clears RRDY. */
    method ReadRxdata() returns (data: Byte)
      requires Valid()
      modifies this`rrdy
      ensures data == rxdata && !rrdy
    {
      data := rxdata;
      rrdy := false;
    }

    /** The core loses data when a byte is written while another is outstanding. */
    method WriteTxdata(data: Byte)
      requires Valid() && outgoing == [] && !rrdy
      modifies this`outgoing, this`trdyWait, this`shiftWait, this`tmtWait, this`words
      ensures Valid() && outgoing == [data]
    {
      outgoing := [data];
      trdyWait, shiftWait, tmtWait := trdyTime(words), shiftTime(words), tmtTime(words);
      words := words + 1;
    }

    /** Writing the control register: clearing SSO ends the slave's frame. */
    method WriteControl(sso: bool)
      requires Valid()
      modifies this`held, this`slave
      ensures Valid() && held == sso
      ensures slave == if old(held) && !sso then release(old(slave)) else old(slave)
    {
      if held && !sso {
        slave := release(slave);
      }
      held := sso;
    }

    /** Polls the status until a byte can be written or one can be read. While a byte is outstanding
        there is no credit to write another, so only its answer ends the wait. */
    method AwaitReady(credits: int) returns (trdy: bool, rrdyBit: bool)
      requires Valid() && !rrdy && credits == 1 - |outgoing|
      modifies this
      ensures Valid() && held == old(held)
      ensures rrdyBit == rrdy == (credits == 0)
      ensures credits > 0 ==> trdy && outgoing == [] && slave == old(slave)
      ensures credits == 0 ==>
        outgoing == [] && (slave, rxdata) == shift(old(slave), held, old(outgoing)[0])
    {
      var tmt;
      trdy, rrdyBit, tmt := ReadStatus();
      while (!trdy || credits == 0) && !rrdyBit
        invariant Valid() && held == old(held)
        invariant rrdyBit == rrdy
        invariant !rrdy ==> outgoing == old(outgoing) && slave == old(slave)
        invariant rrdy ==> credits == 0 && outgoing == []
        invariant rrdy ==> (slave, rxdata) == shift(old(slave), held, old(outgoing)[0])
        decreases !rrdy, trdyWait + shiftWait, !trdy
      {
        trdy, rrdyBit, tmt := ReadStatus();
      }
    }

    method AwaitTransmitted()
      requires Valid() && outgoing == []
      modifies this
      ensures Valid() && outgoing == [] && held == old(held)
      ensures slave == old(slave)
    {
      var trdy, rrdyBit, tmt := ReadStatus();
      while !tmt
        invariant Valid() && outgoing == [] && held == old(held)
        invariant slave == old(slave)
        decreases !tmt, tmtWait
      {
        trdy, rrdyBit, tmt := ReadStatus();
      }
    }

    /** The clocking loop. With one credit to start from, a byte goes out only when the answer to the
        previous one has been read; `out` is what has to go out. */
    method ClockBytes(writeData: seq<Byte>, readLength: nat, ghost out: seq<Byte>)
      returns (readData: seq<Byte>)
      requires Valid() && outgoing == [] && !rrdy && out != []
      requires |out| == |writeData| + readLength
      requires forall k :: 0 <= k < |out| ==> out[k] == if k < |writeData| then writeData[k] else 0
      modifies this
      ensures Valid() && outgoing == [] && held == old(held)
      ensures slave == ShiftAll(shift, old(slave), held, out).0
      ensures readData == ShiftAll(shift, old(slave), held, out).1[|writeData|..]
    {
      hide ShiftAll;
      var writeZeros, readIgnore, credits, next := readLength, |writeData|, 1, 0;
      readData := [];
      ghost var s0, got := slave, [];   // `got` is every answer so far
      ShiftNothing(shift, s0, held, out[..0]);
      while true
        invariant Valid() && held == old(held) && !rrdy && credits == 1 - |outgoing|
        invariant |got| + |outgoing| == next + readLength - writeZeros && |got| < |out|
        invariant next <= |writeData| && writeZeros <= readLength && (next < |writeData| ==> writeZeros == readLength)
        invariant readIgnore == if |got| < |writeData| then |writeData| - |got| else 0
        invariant outgoing != [] ==> outgoing[0] == out[|got|]
        invariant (slave, got) == ShiftAll(shift, s0, held, out[..|got|])
        invariant readData == if |got| <= |writeData| then [] else got[|writeData|..]
        decreases |out| - |got|, credits
      {
        var trdy, rrdyBit := AwaitReady(credits);

        if trdy && credits > 0 {
          credits := credits - 1;
          var b: Byte := 0;
          if next < |writeData| {
            b := writeData[next];
            next := next + 1;
          } else if writeZeros > 0 {
            writeZeros := writeZeros - 1;
          } else {
            assert false;   // the branch that sets credits to -1024
          }
          WriteTxdata(b);
        }

        if rrdyBit {
          var data := ReadRxdata();
          ShiftOneMore(shift, s0, held, out, |got|);
          got := got + [data];
          if readIgnore > 0 {
            readIgnore := readIgnore - 1;
          } else {
            readData := readData + [data];
          }
          credits := credits + 1;
          if readIgnore == 0 && |readData| == readLength {
            assert out[..|got|] == out;
            break;
          }
        }
      }
    }

    /** One transfer: `writeData` out, then `readLength` bytes in, keeping the slave selected
        afterwards when `merge` is set. */
    method Command(writeData: seq<Byte>, readLength: nat, merge: bool, toggle: bool)
      returns (readData: seq<Byte>)
      requires Quiet() && |writeData| + readLength > 0
      modifies this
      ensures Quiet() && held == (merge && (old(held) || !toggle))
      ensures var (s, a) := ShiftAll(shift, old(slave), old(held) || !toggle, writeData + Zeros(readLength));
        readData == a[|writeData|..] &&
        slave == if (old(held) || !toggle) && !merge then release(s) else s
    {
      if !toggle {
        WriteControl(true);
      }
      var stale := ReadRxdata();
      readData := ClockBytes(writeData, readLength, writeData + Zeros(readLength));
      AwaitTransmitted();
      if !merge {
        WriteControl(false);
      }
    }
  }
}
