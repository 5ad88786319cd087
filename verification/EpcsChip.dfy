/** The serial configuration flash (EPCS / EPCQ) as the drivers see it: a chip that takes one frame of
    bytes per chip-select and acts on it when the select line is released. */
module EpcsChip {

  import opened Machine
  import opened SpiMaster

  // Opcodes, epcs_commands.h
  const READ: Byte := 0x03
  const PP: Byte := 0x02
  const WREN: Byte := 0x06
  const RDSR: Byte := 0x05
  const SE: Byte := 0xD8
  const RES: Byte := 0xAB
  const RDID: Byte := 0x9F
  const EN4B: Byte := 0xB7
  const DIS4B: Byte := 0xE9

  const PAGE := 256

  /** What distinguishes one device from another. `busyTime(k)` is how many status reads the k-th
      erase or program job stays in progress; it is an arbitrary function. */
  datatype Part = Part(size: nat, blockSize: nat, signature: Byte, deviceId: seq<Byte>, busyTime: nat -> nat) {
    ghost predicate Valid() {
      blockSize > 0 && size > 0 && size % PAGE == 0 && |deviceId| == 3
    }
  }

  /** `frame` holds the bytes received since the chip was selected; `wel` is the write-enable latch,
      `busy` the number of status reads that will still show work in progress, `jobs` the number of
      erases and programs accepted so far. */
  datatype Chip = Chip(part: Part, mem: seq<Byte>, wel: bool, fourByte: bool, busy: nat, jobs: nat, frame: seq<Byte>) {

    ghost predicate Valid() {
      part.Valid() && |mem| == part.size
    }

    /** Between commands: not selected and with nothing in progress, in the three-byte address mode. */
    ghost predicate Idle() {
      Valid() && frame == [] && busy == 0 && !fourByte
    }

    function AddressBytes(): nat {
      if fourByte then 4 else 3
    }
  }

  /** The number written by a run of bytes, most significant first. */
  function Decode(bytes: seq<Byte>): nat {
    if bytes == [] then 0 else 256 * Decode(bytes[..|bytes| - 1]) + bytes[|bytes| - 1]
  }

  lemma DecodeAppend(bytes: seq<Byte>, b: Byte)
    ensures Decode(bytes + [b]) == 256 * Decode(bytes) + b
  {
    assert (bytes + [b])[..|bytes|] == bytes;
  }

  /** The low `n` bytes of `x`, most significant first. */
  function Encode(x: nat, n: nat): (r: seq<Byte>)
    ensures |r| == n
  {
    if n == 0 then [] else Encode(x / 256, n - 1) + [x % 256]
  }

  function Power256(n: nat): nat {
    if n == 0 then 1 else 256 * Power256(n - 1)
  }

  lemma {:induction false} DecodeEncode(x: nat, n: nat)
    requires x < Power256(n)
    ensures Decode(Encode(x, n)) == x
  {
    if n > 0 {
      DecodeEncode(x / 256, n - 1);
    }
  }

  type Device = c: Chip | c.Valid()
    ghost witness Chip(Part(PAGE, PAGE, 0, [0, 0, 0], _ => 0), Zeros(PAGE), false, false, 0, 0, [])

  /** Where an address past the end of a memory of `n` bytes falls. */
  function Wrap(i: nat, n: nat): (r: nat)
    requires n > 0
    ensures r < n && (i < n ==> r == i)
  {
    if i < n then i else Wrap(i - n, n)
  }

  /** The chip takes no notice of address bits past its size. */
  function Address(c: Device): (r: nat)
    requires |c.frame| > c.AddressBytes()
    ensures r < |c.mem|
  {
    Wrap(Decode(c.frame[1..c.AddressBytes() + 1]), |c.mem|)
  }

  /** The start of the block, of `blockSize` bytes, that holds address `a`. */
  function BlockBase(a: nat, blockSize: nat): (r: nat)
    requires blockSize > 0
    ensures r <= a < r + blockSize
    decreases a
  {
    if a < blockSize then 0 else blockSize + BlockBase(a - blockSize, blockSize)
  }

  /** The byte the chip drives while the next byte of the frame is clocked in. A busy chip answers only
      status reads; reads run on past the end of the memory to its beginning. */
  function Output(c: Device): Byte
  {
    var n := |c.frame|;
    if n == 0 then 0xFF
    else if c.frame[0] == RDSR then (if c.busy > 0 then 1 else 0) + (if c.wel then 2 else 0)
    else if c.busy > 0 then 0xFF
    else if c.frame[0] == READ && n > c.AddressBytes() then
      c.mem[Wrap(Address(c) + (n - 1 - c.AddressBytes()), |c.mem|)]
    else if c.frame[0] == RES && n >= 4 then c.part.signature
    else if c.frame[0] == RDID then c.part.deviceId[Wrap(n - 1, 3)]
    else 0xFF
  }

  /** One byte each way. Every status byte read lets the job in progress advance. */
  function Exchange(c: Device, b: Byte): (r: (Device, Byte))
  {
    var c' := c.(frame := c.frame + [b]);
    (if c.frame != [] && c.frame[0] == RDSR && c.busy > 0 then c'.(busy := c.busy - 1) else c', Output(c))
  }

  function And(a: Byte, b: Byte): Byte {
    ((a as bv8) & (b as bv8)) as int
  }

  lemma AndErased(b: Byte)
    ensures And(0xFF, b) == b
  {
    assert ((0xFF as bv8) & (b as bv8)) == b as bv8;
  }

  /** The block of size `blockSize` that holds `addr`, set to 0xFF. */
  function Erased(mem: seq<Byte>, blockSize: nat, addr: nat): (r: seq<Byte>)
    requires blockSize > 0
    ensures |r| == |mem|
  {
    seq(|mem|, a requires 0 <= a < |mem| =>
      if BlockBase(a, blockSize) == BlockBase(addr, blockSize) then 0xFF else mem[a])
  }

  /** The last of the `n` bytes of a page program to be loaded at `i` bytes past its start. */
  function LastLoad(i: nat, n: nat): (k: nat)
    requires i < n
    ensures i <= k < n && (n <= PAGE ==> k == i)
    decreases n - i
  {
    if i + PAGE < n then LastLoad(i + PAGE, n) else i
  }

  /** A page program: bits can only be cleared, addresses wrap inside the page, and of more than one
      page of data only the last page counts. */
  function Programmed(mem: seq<Byte>, addr: nat, data: seq<Byte>): (r: seq<Byte>)
    ensures |r| == |mem|
  {
    seq(|mem|, a requires 0 <= a < |mem| =>
      var i := (a - addr) % PAGE;
      if a / PAGE == addr / PAGE && i < |data| then And(mem[a], data[LastLoad(i, |data|)]) else mem[a])
  }

  /** Releasing chip-select executes the frame, when the chip is ready and the latch allows it. */
  function Release(c: Device): (r: Device)
    ensures r.frame == []
  {
    var d := c.(frame := []);
    var n := |c.frame|;
    if n == 0 || c.busy > 0 then d
    else if c.frame[0] == WREN && n == 1 then d.(wel := true)
    else if !c.wel then d
    else if c.frame[0] == EN4B && n == 1 then d.(wel := false, fourByte := true)
    else if c.frame[0] == DIS4B && n == 1 then d.(wel := false, fourByte := false)
    else if c.frame[0] == SE && n == 1 + c.AddressBytes() then
      d.(wel := false, busy := c.part.busyTime(c.jobs), jobs := c.jobs + 1,
         mem := Erased(c.mem, c.part.blockSize, Address(c)))
    else if c.frame[0] == PP && n > 1 + c.AddressBytes() then
      d.(wel := false, busy := c.part.busyTime(c.jobs), jobs := c.jobs + 1,
         mem := Programmed(c.mem, Address(c), c.frame[1 + c.AddressBytes()..]))
    else d
  }

  /** One SPI word: with the select line held it extends the frame, otherwise the line is toggled
      around the word and the word is a frame of its own. */
  function Shift(c: Device, held: bool, b: Byte): (r: (Device, Byte))
  {
    var (c', a) := Exchange(c, b);
    (if held then c' else Release(c'), a)
  }

  /** With the line held, a byte that does not come after a status read only extends the frame. */
  lemma HeldByte(c: Device, bytes: seq<Byte>, i: nat)
    requires i < |bytes| && (c.frame + bytes)[0] != RDSR
    ensures Shift(c.(frame := c.frame + bytes[..i]), true, bytes[i]) ==
      (c.(frame := c.frame + bytes[..i + 1]), Output(c.(frame := c.frame + bytes[..i])))
  {
    hide Output, Release, Address;
    assert c.frame + bytes[..i + 1] == c.frame + bytes[..i] + [bytes[i]];
    assert c.frame + bytes[..i] == (c.frame + bytes)[..|c.frame| + i];
  }

  /** A held transfer that is not a status read only extends the frame. */
  lemma HeldTransfer(c: Device, bytes: seq<Byte>)
    requires |c.frame + bytes| > 0 && (c.frame + bytes)[0] != RDSR
    ensures ShiftAll(Shift, c, true, bytes).0 == c.(frame := c.frame + bytes)
    ensures forall i :: 0 <= i < |bytes| ==>
      ShiftAll(Shift, c, true, bytes).1[i] == Output(c.(frame := c.frame + bytes[..i]))
  {
    hide Output, Release, Shift, ShiftAll, Address;
    var state: seq<Byte> -> Device := p => c.(frame := c.frame + p);
    forall i | 0 <= i < |bytes|
      ensures Shift(state(bytes[..i]), true, bytes[i]) == (state(bytes[..i + 1]), Output(state(bytes[..i])))
    {
      HeldByte(c, bytes, i);
    }
    assert c.frame + [] == c.frame;
    TrackedTransfer<Device>(Shift, true, state, p => Output(state(p)), bytes);
  }

  lemma StatusTransfer(c: Device)
    requires c.frame == []
    ensures var (c', r) := ShiftAll(Shift, c, true, [RDSR, 0]);
      r[1] % 2 == (if c.busy > 0 then 1 else 0) &&
      c' == c.(frame := [RDSR, 0], busy := if c.busy > 0 then c.busy - 1 else 0)
  {
    hide Release, Address;
    var bytes: seq<Byte> := [RDSR, 0];
    assert bytes[..1] == [RDSR] && bytes[..1][..0] == [];
    assert ShiftAll(Shift, c, true, []) == (c, []);
    assert ShiftAll(Shift, c, true, bytes[..1]).0 == c.(frame := [RDSR]);
  }

  lemma ReadRelease(c: Device)
    requires |c.frame| > 0 && c.frame[0] in {READ, RES, RDID}
    ensures Release(c) == c.(frame := [])
  {
  }

  lemma ReadOutput(c: Device)
    requires |c.frame| > c.AddressBytes() && c.frame[0] == READ && c.busy == 0
    ensures Output(c) == c.mem[Wrap(Address(c) + (|c.frame| - 1 - c.AddressBytes()), |c.mem|)]
  {
  }

  /** What a page program frame does to a chip that accepts it. */
  lemma ProgramRelease(c: Device, header: seq<Byte>, data: seq<Byte>)
    requires c.frame == header + data && |header| == 1 + c.AddressBytes() && data != [] && header[0] == PP
    requires c.wel && c.busy == 0
    ensures Release(c) == c.(frame := [], wel := false, busy := c.part.busyTime(c.jobs), jobs := c.jobs + 1,
      mem := Programmed(c.mem, Wrap(Decode(header[1..]), |c.mem|), data))
  {
    assert c.frame[1..c.AddressBytes() + 1] == header[1..];
    assert c.frame[1 + c.AddressBytes()..] == data;
  }

  lemma EraseRelease(c: Device)
    requires |c.frame| == 1 + c.AddressBytes() && c.frame[0] == SE && c.wel && c.busy == 0
    ensures Release(c) == c.(frame := [], wel := false, busy := c.part.busyTime(c.jobs), jobs := c.jobs + 1,
      mem := Erased(c.mem, c.part.blockSize, Wrap(Decode(c.frame[1..]), |c.mem|)))
  {
    assert c.frame[1..c.AddressBytes() + 1] == c.frame[1..];
  }
}
