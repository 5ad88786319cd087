/** The command layer of the serial flash driver (epcs_commands.c): every routine is a series of SPI
    transfers, and its contract says what the series does to the chip. */
module EpcsCommands {
  import opened Machine
  import opened SpiMaster
  import opened EpcsChip

  type Bus = Core<Device>

  /** The bus carries a flash chip, deselected, with no transfer in progress. */
  ghost predicate Ready(bus: Bus)
    reads bus
  {
    bus.shift == EpcsChip.Shift && bus.release == EpcsChip.Release &&
    bus.Quiet() && !bus.held && bus.slave.frame == []
  }

  /** The number of addresses that the address bytes of a command can tell apart. */
  function Span(four: bool): (n: nat)
    ensures n > 0
  {
    if four then 0x1_0000_0000 else 0x100_0000
  }

  /** Addresses that the address bytes of a command can carry. */
  predicate Reaches(four: bool, size: nat) {
    size <= Span(four)
  }

  function AddressHeader(opcode: Byte, offset: nat, four: bool): (r: seq<Byte>)
    ensures |r| == if four then 5 else 4
  {
    (if four then [opcode, offset / 0x100_0000 % 256] else [opcode]) +
    [offset / 0x1_0000 % 256, offset / 0x100 % 256, offset % 256]
  }

  lemma HeaderStart(opcode: Byte, offset: nat, four: bool)
    ensures AddressHeader(opcode, offset, four)[0] == opcode
  {
  }

  lemma EncodeThree(x: nat)
    ensures Encode(x, 3) == [x / 256 / 256 % 256, x / 256 % 256, x % 256]
  {
    assert Encode(x / 256 / 256, 1) == [] + [x / 256 / 256 % 256];
    assert Encode(x / 256, 2) == Encode(x / 256 / 256, 1) + [x / 256 % 256];
  }

  /** The shifts and masks of the header are the big-endian encoding of the offset, and the chip
      decodes it back. */
  lemma AddressRoundTrip(opcode: Byte, offset: nat, four: bool)
    requires offset < Span(four)
    ensures var n := if four then 4 else 3;
      AddressHeader(opcode, offset, four)[1..] == Encode(offset, n) && Decode(Encode(offset, n)) == offset
  {
    assert offset / 0x1_0000 == offset / 0x100 / 256;
    assert offset / 0x100_0000 == offset / 0x1_0000 / 256;
    assert Power256(3) == 0x100_0000 && Power256(4) == 256 * Power256(3);
    DecodeEncode(offset, if four then 4 else 3);
    EncodeThree(offset / 256);
    EncodeThree(offset);
  }

  lemma SameByte(x: nat, y: nat, k: nat, d: nat)
    requires d == 1 || d == 0x100 || d == 0x1_0000 || d == 0x100_0000
    requires x == y + 256 * (k * d)
    ensures x / d % 256 == y / d % 256
  {
    if d == 1 {
    } else if d == 0x100 {
      assert x / d == y / d + 256 * k;
    } else if d == 0x1_0000 {
      assert x / d == y / d + 256 * k;
    } else {
      assert x / d == y / d + 256 * k;
    }
  }

  lemma HeaderCut(opcode: Byte, offset: nat, four: bool)
    ensures AddressHeader(opcode, offset, four) == AddressHeader(opcode, offset % Span(four), four)
  {
    var y, q := offset % Span(four), offset / Span(four);
    var k := if four then 256 * q else q;
    SameByte(offset, y, 0x1_0000 * k, 1);
    SameByte(offset, y, 0x100 * k, 0x100);
    SameByte(offset, y, k, 0x1_0000);
    if four {
      SameByte(offset, y, q, 0x100_0000);
    }
  }

  /** Of an offset that is too large for the address bytes, the chip decodes the low part. */
  lemma AddressCut(opcode: Byte, offset: nat, four: bool)
    ensures Decode(AddressHeader(opcode, offset, four)[1..]) == offset % Span(four)
  {
    hide AddressHeader, Decode, Encode;
    HeaderCut(opcode, offset, four);
    AddressRoundTrip(opcode, offset % Span(four), four);
  }

  /** The place in a memory of `size` bytes that a command with this offset means. */
  function Place(offset: nat, four: bool, size: nat): (r: nat)
    requires size > 0
    ensures r < size
    ensures offset < size && Reaches(four, size) ==> r == offset
  {
    Wrap(offset % Span(four), size)
  }

  /** Any transfer with the select line held from the first byte to the last is one frame: the chip
      is given all of `bytes`, and then acts on them. */
  lemma OneFrame(c: Device, bytes: seq<Byte>, c': Device, a: seq<Byte>)
    requires c.frame == [] && bytes != [] && bytes[0] != RDSR
    requires (c', a) == ShiftAll(Shift, c, true, bytes)
    ensures c' == c.(frame := bytes) && |a| == |bytes|
    ensures forall i :: 0 <= i < |bytes| ==> a[i] == Output(c.(frame := bytes[..i]))
  {
    HeldTransfer(c, bytes);
    assert c.frame + bytes == bytes;
    assert forall i :: 0 <= i < |bytes| ==> c.frame + bytes[..i] == bytes[..i];
  }

  method ReadStatusRegister(bus: Bus) returns (status: Byte)
    requires Ready(bus)
    modifies bus
    ensures Ready(bus)
    ensures status % 2 == if old(bus.slave).busy > 0 then 1 else 0
    ensures bus.slave == old(bus.slave).(busy := if old(bus.slave).busy > 0 then old(bus.slave).busy - 1 else 0)
  {
    StatusTransfer(bus.slave);
    assert [RDSR] + Zeros(1) == [RDSR, 0];
    var r := bus.Command([RDSR], 1, false, false);
    status := r[0];
  }

  method AwaitWipReleased(bus: Bus)
    requires Ready(bus)
    modifies bus
    ensures Ready(bus) && bus.slave == old(bus.slave).(busy := 0)
  {
    var status := ReadStatusRegister(bus);
    while status % 2 == 1
      invariant Ready(bus)
      invariant bus.slave == old(bus.slave).(busy := bus.slave.busy)
      invariant status % 2 == 0 ==> bus.slave.busy == 0
      decreases bus.slave.busy, status % 2
    {
      status := ReadStatusRegister(bus);
    }
  }

  /** A command that is its whole frame. */
  method SendFrame(bus: Bus, frame: seq<Byte>)
    requires Ready(bus) && frame != [] && frame[0] != RDSR
    modifies bus
    ensures Ready(bus) && bus.slave == Release(old(bus.slave).(frame := frame))
  {
    var r := bus.Command(frame, 0, false, false);
    assert frame + Zeros(0) == frame;
    var (c, a) := ShiftAll(Shift, old(bus.slave), true, frame);
    OneFrame(old(bus.slave), frame, c, a);
  }

  /** A busy chip does not take the write enable. */
  method WriteEnable(bus: Bus)
    requires Ready(bus)
    modifies bus
    ensures Ready(bus)
    ensures bus.slave == old(bus.slave).(wel := old(bus.slave).wel || old(bus.slave).busy == 0)
  {
    SendFrame(bus, [WREN]);
  }

  method EnterFourByteMode(bus: Bus)
    requires Ready(bus) && bus.slave.busy == 0
    modifies bus
    ensures Ready(bus) && bus.slave == old(bus.slave).(wel := false, fourByte := true)
  {
    WriteEnable(bus);
    SendFrame(bus, [EN4B]);
  }

  method ExitFourByteMode(bus: Bus)
    requires Ready(bus) && bus.slave.busy == 0
    modifies bus
    ensures Ready(bus) && bus.slave == old(bus.slave).(wel := false, fourByte := false)
  {
    WriteEnable(bus);
    SendFrame(bus, [DIS4B]);
  }

  /** Erases the block holding `offset`, and waits for the chip. The chip ignores an erase that comes
      while it is busy, without the write enable, or with the wrong number of address bytes, so the
      effect on the memory says that none of these happens. */
  method SectorErase(bus: Bus, offset: nat, four: bool)
    requires Ready(bus) && bus.slave.Idle() && offset < bus.slave.part.size && Reaches(four, bus.slave.part.size)
    modifies bus
    ensures Ready(bus)
    ensures bus.slave == old(bus.slave).(wel := false, jobs := old(bus.slave).jobs + 1,
      mem := Erased(old(bus.slave).mem, old(bus.slave).part.blockSize, offset))
  {
    hide Release, Shift, Erased, AddressHeader, Decode;
    var se := AddressHeader(SE, offset, four);
    HeaderStart(SE, offset, four);
    AddressCut(SE, offset, four);
    if four {
      EnterFourByteMode(bus);
    }
    WriteEnable(bus);
    EraseRelease(bus.slave.(frame := se));
    SendFrame(bus, se);
    AwaitWipReleased(bus);
    if four {
      ExitFourByteMode(bus);
    }
  }

  /** Reads run on past the end of the memory to its beginning. */
  function ReadAround(mem: seq<Byte>, offset: nat, length: nat): (r: seq<Byte>)
    requires mem != []
    ensures |r| == length
  {
    seq(length, i requires 0 <= i < length => mem[Wrap(offset + i, |mem|)])
  }

  lemma ReadInside(mem: seq<Byte>, offset: nat, length: nat)
    requires mem != [] && offset + length <= |mem|
    ensures ReadAround(mem, offset, length) == mem[offset..offset + length]
  {
    forall i | 0 <= i < length
      ensures ReadAround(mem, offset, length)[i] == mem[offset..offset + length][i]
    {
      assert Wrap(offset + i, |mem|) == offset + i;
    }
  }

  /** What a chip reading from `offset` drives after `n` data bytes. */
  lemma ReadAnswer(c: Device, read: seq<Byte>, offset: nat, n: nat)
    requires |read| == 1 + c.AddressBytes() && read[0] == READ && c.busy == 0
    requires Decode(read[1..]) == offset < |c.mem|
    ensures Output(c.(frame := read + Zeros(n))) == c.mem[Wrap(offset + n, |c.mem|)]
  {
    var sofar := c.(frame := read + Zeros(n));
    assert sofar.frame[1..c.AddressBytes() + 1] == read[1..];
    ReadOutput(sofar);
  }

  lemma ReadFrame(c: Device, read: seq<Byte>, offset: nat, length: nat)
    requires c.frame == [] && c.busy == 0
    requires |read| == 1 + c.AddressBytes() && read[0] == READ && Decode(read[1..]) == offset < |c.mem|
    ensures var (c', a) := ShiftAll(Shift, c, true, read + Zeros(length));
      Release(c') == c && a[|read|..] == ReadAround(c.mem, offset, length)
  {
    hide Output, Release, Decode, Wrap, ShiftAll;
    var frame := read + Zeros(length);
    var (c', a) := ShiftAll(Shift, c, true, frame);
    OneFrame(c, frame, c', a);
    ReadRelease(c');
    forall i | 0 <= i < length
      ensures a[|read| + i] == ReadAround(c.mem, offset, length)[i]
    {
      assert frame[..|read| + i] == read + Zeros(i);
      ReadAnswer(c, read, offset, i);
    }
  }

  /** In the three-byte mode a read may be asked of a busy chip: it waits for the job to end. The
      four-byte mode can be entered only when the chip is not busy. */
  method ReadBuffer(bus: Bus, offset: nat, length: nat, four: bool) returns (dest: seq<Byte>)
    requires Ready(bus) && !bus.slave.fourByte && (four ==> bus.slave.busy == 0)
    requires offset < bus.slave.part.size && Reaches(four, bus.slave.part.size)
    modifies bus
    ensures Ready(bus)
    ensures bus.slave == old(bus.slave).(busy := 0, wel := old(bus.slave).wel && !four)
    ensures dest == ReadAround(old(bus.slave).mem, offset, length)
  {
    var read := AddressHeader(READ, offset, four);
    AddressCut(READ, offset, four);
    if four {
      EnterFourByteMode(bus);
    }
    AwaitWipReleased(bus);
    ReadFrame(bus.slave, read, offset, length);
    dest := bus.Command(read, length, false, false);
    if four {
      ExitFourByteMode(bus);
    }
  }

  /** Two transfers with the line held across them are one frame. */
  lemma ProgramFrame(c: Device, header: seq<Byte>, src: seq<Byte>)
    requires c.frame == [] && c.wel && c.busy == 0 && |header| == 1 + c.AddressBytes() && header[0] == PP && src != []
    ensures var (c1, a) := ShiftAll(Shift, c, true, header + Zeros(0));
      var (c2, a') := ShiftAll(Shift, c1, true, src + Zeros(0));
      Release(c2) == c.(wel := false, busy := c.part.busyTime(c.jobs), jobs := c.jobs + 1,
        mem := Programmed(c.mem, Wrap(Decode(header[1..]), |c.mem|), src))
  {
    hide Release, ShiftAll, Programmed, Output, Decode, Shift;
    assert header + Zeros(0) == header && src + Zeros(0) == src;
    var (c1, a) := ShiftAll(Shift, c, true, header);
    OneFrame(c, header, c1, a);
    HeldTransfer(c1, src);
    ProgramRelease(c1.(frame := header + src), header, src);
  }

  /** Programs up to a page. The header and the data are two transfers, merged into one frame by the
      merge flag of the first. */
  method WriteBuffer(bus: Bus, offset: nat, src: seq<Byte>, four: bool)
    requires Ready(bus) && bus.slave.Idle() && src != []
    modifies bus
    ensures Ready(bus)
    ensures bus.slave == old(bus.slave).(wel := false, jobs := old(bus.slave).jobs + 1,
      mem := Programmed(old(bus.slave).mem, Place(offset, four, |old(bus.slave).mem|), src))
  {
    hide Release, Shift, ShiftAll, Programmed, AddressHeader, Decode;
    var pp := AddressHeader(PP, offset, four);
    HeaderStart(PP, offset, four);
    AddressCut(PP, offset, four);
    if four {
      EnterFourByteMode(bus);
    }
    WriteEnable(bus);
    ProgramFrame(bus.slave, pp, src);
    var none := bus.Command(pp, 0, true, false);
    none := bus.Command(src, 0, false, false);
    AwaitWipReleased(bus);
    if four {
      ExitFourByteMode(bus);
    }
  }

  method ReadElectronicSignature(bus: Bus) returns (res: Byte)
    requires Ready(bus) && bus.slave.busy == 0
    modifies bus
    ensures Ready(bus) && bus.slave == old(bus.slave) && res == bus.slave.part.signature
  {
    var r := bus.Command([RES, 0, 0, 0], 1, false, false);
    res := r[0];
    ghost var frame := [RES, 0, 0, 0] + Zeros(1);
    ghost var (c, a) := ShiftAll(Shift, old(bus.slave), true, frame);
    OneFrame(old(bus.slave), frame, c, a);
  }

  lemma IdFrame(c: Device)
    requires c.frame == [] && c.busy == 0
    ensures var (c', a) := ShiftAll(Shift, c, true, [RDID] + Zeros(3));
      Release(c') == c && a[1..] == c.part.deviceId
  {
    hide Release, ShiftAll;
    var frame := [RDID] + Zeros(3);
    var (c', a) := ShiftAll(Shift, c, true, frame);
    OneFrame(c, frame, c', a);
    ReadRelease(c');
  }

  method ReadDeviceId(bus: Bus) returns (id: nat)
    requires Ready(bus) && bus.slave.busy == 0
    modifies bus
    ensures Ready(bus) && bus.slave == old(bus.slave)
    ensures id == Decode(bus.slave.part.deviceId)
  {
    hide Release, ShiftAll;
    IdFrame(bus.slave);
    var r := bus.Command([RDID], 3, false, false);
    var high: nat, mid: nat, low: nat := r[0], r[1], r[2];
    id := high * 0x1_0000 + mid * 0x100 + low;
    DecodeAppend([], r[0]);
    DecodeAppend([r[0]], r[1]);
    DecodeAppend([r[0], r[1]], r[2]);
    assert r == [r[0], r[1]] + [r[2]] && [r[0], r[1]] == [r[0]] + [r[1]] && [r[0]] == [] + [r[0]];
  }
}
