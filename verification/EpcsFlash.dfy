/** The flash device on top of the command layer (altera_avalon_epcs_flash_controller.c): geometry,
    reads, block erase, block write in pages, and the write that erases only the blocks that differ. */
module EpcsFlash {
  import opened Machine
  import opened SpiMaster
  import opened EpcsChip
  import opened EpcsCommands

  const EIO := 5
  const ENODEV := 19
  const CHUNK := 32

  datatype Geometry = Geometry(size: nat, blocks: nat, blockSize: nat, four: bool)

  /** The devices known by their electronic signature, then those known by their device id. */
  function Catalogue(signature: Byte, id: nat): Option<Geometry> {
    if signature == 0x16 then Some(Geometry(0x80_0000, 128, 65536, false))        // EPCS64
    else if signature == 0x14 then Some(Geometry(0x20_0000, 32, 65536, false))    // EPCS16
    else if signature == 0x13 then Some(Geometry(0x10_0000, 16, 65536, false))    // EPCS8
    else if signature == 0x12 then Some(Geometry(0x8_0000, 8, 65536, false))      // EPCS4
    else if signature == 0x10 then Some(Geometry(0x2_0000, 4, 32768, false))      // EPCS1
    else if id == 0x20BA18 then Some(Geometry(0x100_0000, 256, 65536, false))     // EPCQ128
    else if id % 0x100 == 0x18 then Some(Geometry(0x100_0000, 64, 262144, false)) // EPCS128
    else if id % 0x100 == 0x19 then Some(Geometry(0x200_0000, 512, 65536, true))  // EPCQ256
    else None
  }

  function Power2(n: nat): nat {
    if n == 0 then 1 else 2 * Power2(n - 1)
  }

  lemma {:induction false} Doubles(m: nat, n: nat)
    ensures Power2(m + n) == Power2(m) * Power2(n)
  {
    if n > 0 {
      Doubles(m, n - 1);
    }
  }

  /** The signature or the last byte of the id tells the size, and blocks are of 64 kilobytes but for
      the smallest device and for the EPCS128. */
  lemma CatalogueDensity(signature: Byte, id: nat)
    ensures var g := Catalogue(signature, id);
      var known := signature == 0x10 || 0x12 <= signature <= 0x14 || signature == 0x16;
      && (g.Some? <==> known || id == 0x20BA18 || id % 0x100 == 0x18 || id % 0x100 == 0x19)
      && (g.Some? ==>
           && g.value.size == Power2(if known then signature + 1 else id % 0x100)
           && g.value.blockSize ==
             Power2(if known && signature == 0x10 then 15 else if !known && g.value.blocks == 64 then 18 else 16)
           && (!known && g.value.blocks == 64 <==> !known && id % 0x100 == 0x18 && id != 0x20BA18))
  {
    assert Power2(8) == 256;
    Doubles(8, 7);
    Doubles(8, 8);
    Doubles(8, 9);
    Doubles(8, 10);
    Doubles(16, 2);
    Doubles(16, 3);
    Doubles(16, 4);
    Doubles(16, 5);
    Doubles(16, 7);
    Doubles(16, 8);
    Doubles(16, 9);
  }

  /** Every device in the catalogue is made of whole blocks of whole pages, and the address bytes of
      its address mode reach all of it. */
  lemma CatalogueSound(signature: Byte, id: nat)
    ensures var g := Catalogue(signature, id);
      g.Some? ==>
        && g.value.size == g.value.blocks * g.value.blockSize > 0
        && g.value.blockSize % PAGE == 0
        && Reaches(g.value.four, g.value.size)
        && (g.value.four <==> !Reaches(false, g.value.size))
  {
  }

  function Max(a: nat, b: nat): nat {
    if a < b then b else a
  }

  function Min(a: nat, b: nat): nat {
    if a < b then a else b
  }

  /** Bits of `data` cleared into the memory from `offset` on. */
  function Overlay(mem: seq<Byte>, offset: nat, data: seq<Byte>): (r: seq<Byte>)
    ensures |r| == |mem|
  {
    seq(|mem|, a requires 0 <= a < |mem| =>
      if offset <= a < offset + |data| then And(mem[a], data[a - offset]) else mem[a])
  }

  /** A run of bytes that ends in its page does not wrap. */
  lemma SamePage(a: nat, addr: nat, n: nat)
    requires n <= PAGE - addr % PAGE
    ensures a / PAGE == addr / PAGE && (a - addr) % PAGE < n <==> addr <= a < addr + n
    ensures addr <= a < addr + n ==> (a - addr) % PAGE == a - addr
  {
    if addr <= a < addr + PAGE {
      assert (a - addr) % PAGE == a - addr;
    } else if a < addr && a / PAGE == addr / PAGE {
      assert (a - addr) % PAGE == a - addr + PAGE;
    }
  }

  lemma OverlayNothing(mem: seq<Byte>, offset: nat)
    ensures Overlay(mem, offset, []) == mem
  {
  }

  lemma OverlayLast(mem: seq<Byte>, offset: nat, data: seq<Byte>, b: Byte)
    requires offset + |data| < |mem|
    ensures var a := offset + |data|;
      Overlay(mem, offset, data + [b]) == Overlay(mem, offset, data)[a := And(Overlay(mem, offset, data)[a], b)]
  {
    hide And;
  }

  lemma OverlayInPage(mem: seq<Byte>, addr: nat, data: seq<Byte>)
    requires |data| <= PAGE - addr % PAGE
    ensures Programmed(mem, addr, data) == Overlay(mem, addr, data)
  {
    hide And;
    forall a | 0 <= a < |mem|
      ensures Programmed(mem, addr, data)[a] == Overlay(mem, addr, data)[a]
    {
      SamePage(a, addr, |data|);
    }
  }

  /** Bits of `data` cleared into the memory byte by byte, at the places that the command offsets from
      `offset` on mean. */
  function Around(mem: seq<Byte>, four: bool, offset: nat, data: seq<Byte>): (r: seq<Byte>)
    requires mem != []
    ensures |r| == |mem|
  {
    if data == [] then mem
    else
      var n := |data| - 1;
      var m, a := Around(mem, four, offset, data[..n]), Place(offset + n, four, |mem|);
      m[a := And(m[a], data[n])]
  }

  /** The number of pages with a byte in the range. */
  function Pages(offset: nat, length: nat): nat {
    if length == 0 then 0 else (offset + length - 1) / PAGE - offset / PAGE + 1
  }

  lemma NothingWritten(mem: seq<Byte>, four: bool, offset: nat)
    requires mem != []
    ensures Around(mem, four, offset, []) == mem && Pages(offset, 0) == 0
  {
  }

  lemma AroundLast(mem: seq<Byte>, four: bool, offset: nat, data: seq<Byte>, b: Byte)
    requires mem != []
    ensures Around(mem, four, offset, data + [b]) ==
      var m, a := Around(mem, four, offset, data), Place(offset + |data|, four, |mem|);
      m[a := And(m[a], b)]
  {
    hide And, Place;
    assert (data + [b])[..|data|] == data;
  }

  /** Pieces one after the other are the whole. */
  lemma {:induction false} AroundSplit(mem: seq<Byte>, four: bool, offset: nat, first: seq<Byte>, second: seq<Byte>)
    requires mem != []
    ensures Around(Around(mem, four, offset, first), four, offset + |first|, second) ==
      Around(mem, four, offset, first + second)
    decreases |second|
  {
    hide And, Place, Around;
    NothingWritten(Around(mem, four, offset, first), four, offset + |first|);
    if second == [] {
      assert first + second == first;
    } else {
      var n := |second| - 1;
      AroundSplit(mem, four, offset, first, second[..n]);
      AroundLast(Around(mem, four, offset, first), four, offset + |first|, second[..n], second[n]);
      AroundLast(mem, four, offset, first + second[..n], second[n]);
      assert second[..n] + [second[n]] == second && first + second[..n] + [second[n]] == first + second;
    }
  }

  /** The place of a byte is as far from the first place as the byte is from the first. */
  predicate InLine(four: bool, size: nat, offset: nat, i: nat)
    requires size > 0
  {
    Place(offset + i, four, size) == Place(offset, four, size) + i
  }

  /** Where the places do not come round to the beginning, the bytes lie side by side. */
  lemma {:induction false} AroundStraight(mem: seq<Byte>, four: bool, offset: nat, data: seq<Byte>)
    requires mem != [] && forall i :: 0 <= i < |data| ==> InLine(four, |mem|, offset, i)
    ensures Around(mem, four, offset, data) == Overlay(mem, Place(offset, four, |mem|), data)
  {
    hide And, Place, Around, Overlay;
    NothingWritten(mem, four, offset);
    if data == [] {
      OverlayNothing(mem, Place(offset, four, |mem|));
    } else {
      var n := |data| - 1;
      AroundStraight(mem, four, offset, data[..n]);
      AroundLast(mem, four, offset, data[..n], data[n]);
      assert InLine(four, |mem|, offset, n) && data[..n] + [data[n]] == data;
      OverlayLast(mem, Place(offset, four, |mem|), data[..n], data[n]);
    }
  }

  lemma {:induction false} WrapInPage(a: nat, i: nat, n: nat)
    requires n > 0 && n % PAGE == 0 && a % PAGE + i < PAGE
    ensures Wrap(a + i, n) == Wrap(a, n) + i && Wrap(a, n) % PAGE == a % PAGE
    decreases a
  {
    if a < n {
      assert a / PAGE < n / PAGE;
    } else {
      WrapInPage(a - n, i, n);
    }
  }

  lemma CutKeepsPage(offset: nat, four: bool)
    ensures offset % Span(four) % PAGE == offset % PAGE
  {
    if four {
    } else {
    }
  }

  lemma CutInPage(offset: nat, i: nat, four: bool)
    requires offset % PAGE + i < PAGE
    ensures (offset + i) % Span(four) == offset % Span(four) + i
  {
    CutKeepsPage(offset, four);
    if four {
    } else {
    }
  }

  lemma PlaceInPage(offset: nat, i: nat, four: bool, size: nat)
    requires size > 0 && size % PAGE == 0 && offset % PAGE + i < PAGE
    ensures InLine(four, size, offset, i)
    ensures Place(offset, four, size) % PAGE == offset % PAGE
  {
    hide Span, Wrap;
    CutKeepsPage(offset, four);
    CutInPage(offset, i, four);
    WrapInPage(offset % Span(four), i, size);
  }

  /** A program that ends in its page does what the bytes one by one would. */
  lemma AroundInPage(mem: seq<Byte>, four: bool, offset: nat, data: seq<Byte>)
    requires mem != [] && |mem| % PAGE == 0 && |data| <= PAGE - offset % PAGE
    ensures Programmed(mem, Place(offset, four, |mem|), data) == Around(mem, four, offset, data)
  {
    hide Programmed, Overlay, Place, Around, InLine;
    PlaceInPage(offset, 0, four, |mem|);
    forall i | 0 <= i < |data|
      ensures InLine(four, |mem|, offset, i)
    {
      PlaceInPage(offset, i, four, |mem|);
    }
    AroundStraight(mem, four, offset, data);
    OverlayInPage(mem, Place(offset, four, |mem|), data);
  }

  /** Inside the device the bytes go where their offsets say. */
  lemma AroundInside(mem: seq<Byte>, four: bool, offset: nat, data: seq<Byte>)
    requires offset + |data| <= |mem| && Reaches(four, |mem|) && offset < |mem|
    ensures Around(mem, four, offset, data) == Overlay(mem, offset, data)
  {
    hide Overlay, Around;
    AroundStraight(mem, four, offset, data);
  }

  /** One round of the page loop, from `offset` with `length` bytes to go: the piece ends in its page,
      and only the last one can end before the page does. */
  lemma NextPage(start: nat, offset: nat, length: nat)
    requires length > 0 && start <= offset && (start == offset || offset % PAGE == 0)
    ensures var next := (offset + PAGE) / PAGE * PAGE;
      && 0 < next - offset <= PAGE - offset % PAGE
      && next % PAGE == 0
      && Pages(start, Min(length, next - offset) + offset - start) == Pages(start, offset - start) + 1
  {
    var next := (offset + PAGE) / PAGE * PAGE;
    assert next == offset - offset % PAGE + PAGE;
    var end := offset + Min(length, next - offset);
    assert (end - 1) / PAGE == offset / PAGE;
    if start < offset {
      assert (offset - 1) / PAGE == offset / PAGE - 1;
    }
  }

  /** The part of the range to write that falls in the block at `base`. */
  function Low(base: nat, offset: nat): nat {
    Max(base, offset)
  }

  function High(size: nat, base: nat, blockSize: nat, offset: nat, length: nat): nat {
    Min(size, Min(base + blockSize, offset + length))
  }

  /** The block at `base` already holds its part of the data. */
  predicate Matches(mem: seq<Byte>, base: nat, blockSize: nat, offset: nat, data: seq<Byte>) {
    var lo, hi := Low(base, offset), High(|mem|, base, blockSize, offset, |data|);
    lo <= hi ==> mem[lo..hi] == data[lo - offset..hi - offset]
  }

  /** The memory after a write, byte by byte: a block whose part of the data is there already is left
      alone, and so is a block the range misses; any other block holds the data and 0xFF around it. */
  function ByteAfter(mem: seq<Byte>, blockSize: nat, offset: nat, data: seq<Byte>, a: nat): Byte
    requires blockSize > 0 && a < |mem|
  {
    var base := BlockBase(a, blockSize);
    var lo, hi := Low(base, offset), High(|mem|, base, blockSize, offset, |data|);
    if lo >= hi || Matches(mem, base, blockSize, offset, data) then mem[a]
    else if lo <= a < hi then data[a - offset]
    else 0xFF
  }

  function MemoryAfter(mem: seq<Byte>, blockSize: nat, offset: nat, data: seq<Byte>): (r: seq<Byte>)
    requires blockSize > 0
    ensures |r| == |mem|
  {
    seq(|mem|, a requires 0 <= a < |mem| => ByteAfter(mem, blockSize, offset, data, a))
  }

  /** Up to `current` the memory is as it should be after the write, from there on as it was before. */
  ghost predicate Written(mem: seq<Byte>, mem': seq<Byte>, blockSize: nat, offset: nat, data: seq<Byte>, current: nat)
    requires blockSize > 0
  {
    && |mem'| == |mem|
    && forall a :: 0 <= a < |mem| ==>
      mem'[a] == if a < current then ByteAfter(mem, blockSize, offset, data, a) else mem[a]
  }

  function BlocksSize(n: nat, blockSize: nat): nat {
    if n == 0 then 0 else blockSize + BlocksSize(n - 1, blockSize)
  }

  lemma BlocksSizeStep(n: nat, blockSize: nat)
    ensures BlocksSize(0, blockSize) == 0
    ensures n > 0 ==> BlocksSize(n, blockSize) == blockSize + BlocksSize(n - 1, blockSize)
  {
  }

  lemma {:induction false} BlocksSizeIsProduct(n: nat, blockSize: nat)
    ensures BlocksSize(n, blockSize) == n * blockSize
  {
    if n > 0 {
      BlocksSizeIsProduct(n - 1, blockSize);
    }
  }

  lemma {:induction false} BlockBaseBeyond(a: nat, base: nat, blockSize: nat)
    requires blockSize > 0 && BlockBase(base, blockSize) == base && a >= base
    ensures BlockBase(a, blockSize) >= base
    decreases base
  {
    if base > 0 {
      BlockBaseBeyond(a - blockSize, base - blockSize, blockSize);
    }
  }

  /** The block at `current`, of which `at` is the first byte in the range to write, and whose part of
      the data is the `n` bytes from there. */
  ghost predicate Covers(size: nat, blockSize: nat, offset: nat, length: nat, current: nat, at: nat, n: nat) {
    && blockSize > 0 && current + blockSize <= size && BlockBase(current, blockSize) == current
    && current <= at < current + blockSize && offset <= at <= offset + length && (at == offset || at == current)
    && n == Min(current + blockSize - at, offset + length - at)
  }

  lemma {:induction false} BlockBaseInside(a: nat, base: nat, blockSize: nat)
    requires blockSize > 0 && BlockBase(base, blockSize) == base && base <= a < base + blockSize
    ensures BlockBase(a, blockSize) == base
    decreases base
  {
    if base > 0 {
      BlockBaseInside(a - blockSize, base - blockSize, blockSize);
    }
  }

  /** What the write leaves in the block at `current`. */
  lemma BlockAfter(mem: seq<Byte>, blockSize: nat, offset: nat, data: seq<Byte>, current: nat, at: nat, n: nat, a: nat)
    requires Covers(|mem|, blockSize, offset, |data|, current, at, n) && current <= a < current + blockSize
    ensures ByteAfter(mem, blockSize, offset, data, a) ==
      if mem[at..at + n] == data[at - offset..at - offset + n] then mem[a]
      else if at <= a < at + n then data[a - offset]
      else 0xFF
  {
    BlockBaseInside(a, current, blockSize);
    assert Low(current, offset) == at && High(|mem|, current, blockSize, offset, |data|) == at + n;
  }

  lemma BlockMatched(mem: seq<Byte>, mem': seq<Byte>, blockSize: nat, offset: nat, data: seq<Byte>, current: nat,
      at: nat, n: nat)
    requires Covers(|mem|, blockSize, offset, |data|, current, at, n)
    requires Written(mem, mem', blockSize, offset, data, current)
    requires mem'[at..at + n] == data[at - offset..at - offset + n]
    ensures Written(mem, mem', blockSize, offset, data, current + blockSize)
  {
    hide ByteAfter;
    assert mem[at..at + n] == mem'[at..at + n];
    forall a | current <= a < current + blockSize
      ensures ByteAfter(mem, blockSize, offset, data, a) == mem[a]
    {
      BlockAfter(mem, blockSize, offset, data, current, at, n, a);
    }
  }

  lemma BlockBaseBelow(a: nat, base: nat, blockSize: nat)
    requires blockSize > 0 && a < base
    ensures BlockBase(a, blockSize) != base
  {
  }

  lemma BlockBaseNext(base: nat, blockSize: nat)
    requires blockSize > 0 && BlockBase(base, blockSize) == base
    ensures BlockBase(base + blockSize, blockSize) == base + blockSize
  {
  }

  lemma RewrittenByte(mem: seq<Byte>, blockSize: nat, current: nat, at: nat, piece: seq<Byte>, a: nat)
    requires a < |mem| && blockSize > 0 && BlockBase(current, blockSize) == current
    requires current <= at && at + |piece| <= current + blockSize
    ensures Overlay(Erased(mem, blockSize, current), at, piece)[a] ==
      if at <= a < at + |piece| then piece[a - at]
      else if current <= a < current + blockSize then 0xFF
      else mem[a]
  {
    if a < current {
      BlockBaseBelow(a, current, blockSize);
    } else if a < current + blockSize {
      BlockBaseInside(a, current, blockSize);
      if at <= a < at + |piece| {
        AndErased(piece[a - at]);
      }
    } else {
      BlockBaseNext(current, blockSize);
      BlockBaseBeyond(a, current + blockSize, blockSize);
    }
  }

  /** Erasing and programming a block that differs, and an address that this changes. */
  lemma BlockRewritten(mem: seq<Byte>, mem': seq<Byte>, blockSize: nat, offset: nat, data: seq<Byte>, current: nat,
      at: nat, n: nat) returns (changed: nat)
    requires Covers(|mem|, blockSize, offset, |data|, current, at, n)
    requires Written(mem, mem', blockSize, offset, data, current)
    requires mem'[at..at + n] != data[at - offset..at - offset + n]
    ensures Written(mem, Overlay(Erased(mem', blockSize, current), at, data[at - offset..at - offset + n]),
      blockSize, offset, data, current + blockSize)
    ensures at <= changed < at + n && ByteAfter(mem, blockSize, offset, data, changed) != mem[changed]
  {
    hide ByteAfter, Overlay, Erased, BlockBase;
    var piece := data[at - offset..at - offset + n];
    var after := Overlay(Erased(mem', blockSize, current), at, piece);
    assert mem[at..at + n] == mem'[at..at + n];
    forall a | 0 <= a < |mem|
      ensures after[a] == if a < current + blockSize then ByteAfter(mem, blockSize, offset, data, a) else mem[a]
    {
      RewrittenByte(mem', blockSize, current, at, piece, a);
      if current <= a < current + blockSize {
        BlockAfter(mem, blockSize, offset, data, current, at, n, a);
      }
    }
    var k :| 0 <= k < n && mem[at..at + n][k] != piece[k];
    changed := at + k;
    BlockAfter(mem, blockSize, offset, data, current, at, n, changed);
  }

  /** Blocks from `current` on that the range does not reach. */
  lemma RestMissed(mem: seq<Byte>, mem': seq<Byte>, blockSize: nat, offset: nat, data: seq<Byte>, current: nat)
    requires blockSize > 0 && Written(mem, mem', blockSize, offset, data, current)
    requires BlockBase(current, blockSize) == current
    requires offset + |data| <= current || offset >= |mem| || current >= |mem|
    ensures mem' == MemoryAfter(mem, blockSize, offset, data)
  {
    forall a | current <= a < |mem|
      ensures ByteAfter(mem, blockSize, offset, data, a) == mem[a]
    {
      BlockBaseBeyond(a, current, blockSize);
    }
  }

  /** The state of the block loop: the blocks before `current` are done, `data` is what is left to
      write and `at` where it goes, and `worked` tells whether any block has been rewritten. */
  ghost predicate Progress(mem: seq<Byte>, mem': seq<Byte>, blockSize: nat, offset: nat, src: seq<Byte>,
      current: nat, at: nat, data: seq<Byte>, worked: bool) {
    && blockSize > 0 && BlockBase(current, blockSize) == current
    && Written(mem, mem', blockSize, offset, src, current)
    && offset <= at <= offset + |src| && data == src[at - offset..]
    && current <= at && (at == offset || at == current)
    && (worked <==> mem' != mem)
  }

  lemma ProgressStart(mem: seq<Byte>, blockSize: nat, offset: nat, src: seq<Byte>)
    requires blockSize > 0
    ensures Progress(mem, mem, blockSize, offset, src, 0, offset, src, false)
  {
  }

  lemma AllBlocksDone(mem: seq<Byte>, mem': seq<Byte>, blockSize: nat, offset: nat, src: seq<Byte>,
      current: nat, at: nat, data: seq<Byte>, worked: bool)
    requires Progress(mem, mem', blockSize, offset, src, current, at, data, worked) && current >= |mem|
    ensures mem' == MemoryAfter(mem, blockSize, offset, src) && (worked <==> mem' != mem)
  {
    RestMissed(mem, mem', blockSize, offset, src, current);
  }

  lemma BlockMissed(mem: seq<Byte>, mem': seq<Byte>, blockSize: nat, offset: nat, src: seq<Byte>,
      current: nat, at: nat, data: seq<Byte>, worked: bool)
    requires Progress(mem, mem', blockSize, offset, src, current, at, data, worked) && at >= current + blockSize
    ensures Progress(mem, mem', blockSize, offset, src, current + blockSize, at, data, worked)
  {
    BlockBaseNext(current, blockSize);
    forall a | current <= a < current + blockSize
      ensures BlockBase(a, blockSize) == current
    {
      BlockBaseInside(a, current, blockSize);
    }
  }

  /** The update of the block at `current` takes the loop to the next block, or to its end. */
  lemma BlockStep(mem: seq<Byte>, mem': seq<Byte>, mem'': seq<Byte>, blockSize: nat, offset: nat, src: seq<Byte>,
      current: nat, at: nat, data: seq<Byte>, n: nat, worked: bool, worked': bool)
    requires Progress(mem, mem', blockSize, offset, src, current, at, data, worked)
    requires at < current + blockSize <= |mem| && n == Min(current + blockSize - at, |data|)
    requires if mem'[at..at + n] == data[..n] then mem'' == mem' && worked' == worked
      else mem'' == Overlay(Erased(mem', blockSize, current), at, data[..n]) && worked'
    ensures worked' <==> mem'' != mem
    ensures if |data| == n then mem'' == MemoryAfter(mem, blockSize, offset, src)
      else Progress(mem, mem'', blockSize, offset, src, current + blockSize, current + blockSize, data[n..], worked')
  {
    hide ByteAfter, MemoryAfter, Overlay, Erased;
    BlockBaseNext(current, blockSize);
    assert data[..n] == src[at - offset..at - offset + n];
    if mem'[at..at + n] == data[..n] {
      BlockMatched(mem, mem', blockSize, offset, src, current, at, n);
    } else {
      var changed := BlockRewritten(mem, mem', blockSize, offset, src, current, at, n);
      assert mem''[changed] != mem[changed];
    }
    if |data| == n {
      RestMissed(mem, mem'', blockSize, offset, src, current + blockSize);
    }
  }

  /** The C library's comparison, used chunk by chunk. */
  function MemcmpChunk(a: seq<Byte>, b: seq<Byte>): (r: int)
    requires |a| == |b|
    ensures r == 0 <==> a == b
  {
    if a == [] then 0
    else if a[0] != b[0] then a[0] - b[0]
    else
      assert a == [a[0]] + a[1..] && b == [b[0]] + b[1..];
      MemcmpChunk(a[1..], b[1..])
  }

  lemma SliceOfPrefix(s: seq<Byte>, n: nat, i: nat, j: nat)
    requires i <= j <= n <= |s|
    ensures s[..n][i..j] == s[i..j]
  {
  }

  lemma SubrangeOfRange(s: seq<Byte>, offset: nat, n: nat, i: nat, j: nat)
    requires i <= j <= n && offset + n <= |s|
    ensures s[offset..offset + n][i..j] == s[offset + i..offset + j]
  {
    var a, b := s[offset..offset + n][i..j], s[offset + i..offset + j];
    forall k | 0 <= k < |a|
      ensures a[k] == b[k]
    {
      assert a[k] == s[offset..offset + n][i + k];
    }
  }

  lemma PrefixGrows(s: seq<Byte>, t: seq<Byte>, i: nat, j: nat)
    requires i <= j <= |s| == |t| && s[..i] == t[..i] && s[i..j] == t[i..j]
    ensures s[..j] == t[..j]
  {
    assert s[..j] == s[..i] + s[i..j] && t[..j] == t[..i] + t[i..j];
  }

  lemma DeviceIdRange(deviceId: seq<Byte>)
    requires |deviceId| == 3
    ensures Decode(deviceId) < 0x100_0000
  {
    assert deviceId == [] + [deviceId[0]] + [deviceId[1]] + [deviceId[2]];
    DecodeAppend([], deviceId[0]);
    DecodeAppend([] + [deviceId[0]], deviceId[1]);
    DecodeAppend([] + [deviceId[0]] + [deviceId[1]], deviceId[2]);
  }

  class Flash {
    const bus: Bus
    var regionSize: nat
    var numberOfBlocks: nat
    var blockSize: nat
    var sizeInBytes: nat
    var siliconId: nat
    var pageSize: nat
    var fourBytesMode: bool

    /** The geometry is sound and is that of the chip on the bus, which is idle. */
    ghost predicate Valid()
      reads this, bus
    {
      Ready(bus) && bus.slave.Idle() &&
      regionSize == bus.slave.part.size && blockSize == bus.slave.part.blockSize &&
      pageSize == PAGE && Reaches(fourBytesMode, regionSize)
    }

    ghost predicate WholeBlocks()
      reads this
    {
      regionSize == BlocksSize(numberOfBlocks, blockSize)
    }

    constructor (bus: Bus)
      ensures this.bus == bus
    {
      this.bus := bus;
      regionSize, numberOfBlocks, blockSize, sizeInBytes, siliconId := 0, 0, 0, 0, 0;
      pageSize, fourBytesMode := 0, false;
    }

    /** Identifies the device; an unknown one leaves the geometry as it was. */
    method Query() returns (retCode: int)
      requires Ready(bus) && bus.slave.Idle()
      modifies this, bus
      ensures Ready(bus) && bus.slave == old(bus.slave)
      ensures var g := Catalogue(bus.slave.part.signature, Decode(bus.slave.part.deviceId));
        retCode == (if g.Some? then 0 else -ENODEV) &&
        Geometry(regionSize, numberOfBlocks, blockSize, fourBytesMode) == (if g.Some? then g.value
          else Geometry(old(regionSize), old(numberOfBlocks), old(blockSize), false))
      ensures sizeInBytes == regionSize && pageSize == PAGE
      ensures retCode == 0 && regionSize == bus.slave.part.size && blockSize == bus.slave.part.blockSize ==>
        Valid() && WholeBlocks()
    {
      hide BlocksSize, Decode, Shift, Release;
      retCode := 0;
      fourBytesMode := false;
      var signature := ReadElectronicSignature(bus);
      siliconId := signature;
      if siliconId == 0x16 {
        regionSize, numberOfBlocks, blockSize := 64 * 1024 * 1024 / 8, 128, 65536;
      } else if siliconId == 0x14 {
        regionSize, numberOfBlocks, blockSize := 16 * 1024 * 1024 / 8, 32, 65536;
      } else if siliconId == 0x13 {
        regionSize, numberOfBlocks, blockSize := 8 * 1024 * 1024 / 8, 16, 65536;
      } else if siliconId == 0x12 {
        regionSize, numberOfBlocks, blockSize := 4 * 1024 * 1024 / 8, 8, 65536;
      } else if siliconId == 0x10 {
        regionSize, numberOfBlocks, blockSize := 1 * 1024 * 1024 / 8, 4, 32768;
      } else {
        siliconId := ReadDeviceId(bus);
        DeviceIdRange(bus.slave.part.deviceId);
        if siliconId % 0x100_0000 == 0x20BA18 {
          regionSize, numberOfBlocks, blockSize := 128 * 1024 * 1024 / 8, 256, 65536;
        } else if siliconId % 0x100 == 0x18 {
          regionSize, numberOfBlocks, blockSize := 128 * 1024 * 1024 / 8, 64, 262144;
        } else if siliconId % 0x100 == 0x19 {
          regionSize, numberOfBlocks, blockSize := 256 * 1024 * 1024 / 8, 512, 65536;
          fourBytesMode := true;
        } else {
          retCode := -ENODEV;
        }
      }
      sizeInBytes := regionSize;
      pageSize := 256;
      BlocksSizeIsProduct(numberOfBlocks, blockSize);
    }

    /** The comparison is unsigned, so that a negative offset is past the end. */
    method TestAddress(offset: int) returns (retCode: int)
      requires Valid()
      ensures retCode == if 0 <= offset < regionSize then 0 else -EIO
    {
      retCode := 0;
      if offset < 0 || offset > regionSize - 1 {
        retCode := -EIO;
      }
    }

    /** Reading past the end wraps around; starting past it is an error. */
    method Read(offset: int, length: nat) returns (retCode: int, dest: seq<Byte>)
      requires Valid()
      modifies bus
      ensures Valid() && bus.slave == old(bus.slave).(wel := bus.slave.wel)
      ensures retCode == if 0 <= offset < regionSize then 0 else -EIO
      ensures dest == if 0 <= offset < regionSize then ReadAround(bus.slave.mem, offset, length) else []
    {
      dest := [];
      retCode := TestAddress(offset);
      if retCode >= 0 {
        dest := ReadBuffer(bus, offset, length, fourBytesMode);
      }
    }

    /** Compares a chunk with what the flash holds in its place. */
    method CompareChunk(chunk: seq<Byte>, offset: nat) returns (r: int)
      requires Valid() && offset + |chunk| <= regionSize && offset < regionSize
      modifies bus
      ensures Valid() && bus.slave == old(bus.slave).(wel := bus.slave.wel)
      ensures r == 0 <==> chunk == bus.slave.mem[offset..offset + |chunk|]
    {
      hide ReadAround, MemcmpChunk, Shift, Release;
      var retCode, held := Read(offset, |chunk|);
      if retCode < 0 {
        return -1;
      }
      ReadInside(bus.slave.mem, offset, |chunk|);
      r := MemcmpChunk(chunk, held);
    }

    /** Compares a chunk of 32 bytes at a time. */
    method Memcmp(src: seq<Byte>, offset: nat, n: nat) returns (r: int)
      requires Valid() && n <= |src| && offset + n <= regionSize
      modifies bus
      ensures Valid() && bus.slave == old(bus.slave).(wel := bus.slave.wel)
      ensures r == 0 <==> src[..n] == bus.slave.mem[offset..offset + n]
    {
      hide Shift, Release, ReadAround, MemcmpChunk;
      var left, currentOffset := n, 0;
      ghost var mem := bus.slave.mem;
      ghost var want, have := src[..n], mem[offset..offset + n];
      while left > 0
        invariant Valid() && bus.slave == old(bus.slave).(wel := bus.slave.wel)
        invariant 0 <= currentOffset && 0 <= left && currentOffset + left == n
        invariant want[..currentOffset] == have[..currentOffset]
      {
        var thisChunkSize := if left > CHUNK then CHUNK else left;
        var next := currentOffset + thisChunkSize;
        SliceOfPrefix(src, n, currentOffset, next);
        SubrangeOfRange(mem, offset, n, currentOffset, next);
        var cmp := CompareChunk(src[currentOffset..next], offset + currentOffset);
        if cmp != 0 {
          return cmp;
        }
        PrefixGrows(want, have, currentOffset, next);
        left := left - thisChunkSize;
        currentOffset := next;
      }
      assert want[..n] == want && have[..n] == have;
      r := 0;
    }

    method EraseBlock(blockOffset: int) returns (retCode: int)
      requires Valid()
      modifies bus
      ensures Valid() && retCode == if 0 <= blockOffset < regionSize then 0 else -EIO
      ensures bus.slave == if 0 <= blockOffset < regionSize
        then old(bus.slave).(wel := false, jobs := old(bus.slave).jobs + 1,
          mem := Erased(old(bus.slave).mem, blockSize, blockOffset))
        else old(bus.slave)
    {
      hide Erased, Shift, Release;
      retCode := TestAddress(blockOffset);
      if retCode >= 0 {
        SectorErase(bus, blockOffset, fourBytesMode);
      }
    }

    /** Programs one page, or what is left of the data. */
    method WritePage(offset: nat, start: nat, data: seq<Byte>, done: nat) returns (next: nat, n: nat)
      requires Valid() && start <= offset && done < |data| && offset == start + done
      requires start == offset || offset % PAGE == 0
      modifies bus
      ensures Valid() && 0 < n <= |data| - done && next % PAGE == 0
      ensures next == offset + n || n == |data| - done
      ensures bus.slave == old(bus.slave).(wel := bus.slave.wel, jobs := old(bus.slave).jobs + 1, mem := bus.slave.mem)
      ensures bus.slave.mem == Around(old(bus.slave.mem), fourBytesMode, offset, data[done..done + n])
      ensures Pages(start, done + n) == Pages(start, done) + 1
    {
      hide Around, Programmed, Shift, Release, Pages, Place, Overlay;
      next := (offset + pageSize) / pageSize * pageSize;
      n := Min(|data| - done, next - offset);
      NextPage(start, offset, |data| - done);
      AroundInPage(bus.slave.mem, fourBytesMode, offset, data[done..done + n]);
      WriteBuffer(bus, offset, data[done..done + n], fourBytesMode);
    }

    /** Programs `data` at `dataOffset`, one page at a time. Data past the end of the device goes to its
        beginning. */
    method WriteBlock(dataOffset: int, data: seq<Byte>) returns (retCode: int)
      requires Valid()
      modifies bus
      ensures Valid() && retCode == if 0 <= dataOffset < regionSize then 0 else -EIO
      ensures bus.slave == if 0 <= dataOffset < regionSize
        then old(bus.slave).(wel := bus.slave.wel, jobs := old(bus.slave).jobs + Pages(dataOffset, |data|),
          mem := Around(old(bus.slave).mem, fourBytesMode, dataOffset, data))
        else old(bus.slave)
    {
      hide Around, Shift, Release, Pages;
      retCode := TestAddress(dataOffset);
      if retCode >= 0 {
        var offset, bufferOffset := dataOffset, 0;
        ghost var mem, jobs := bus.slave.mem, bus.slave.jobs;
        NothingWritten(mem, fourBytesMode, dataOffset);
        while bufferOffset < |data|
          invariant Valid() && 0 <= bufferOffset <= |data|
          invariant bufferOffset < |data| ==> offset == dataOffset + bufferOffset
          invariant bufferOffset == 0 || bufferOffset == |data| || offset % PAGE == 0
          invariant bus.slave == old(bus.slave).(wel := bus.slave.wel, jobs := bus.slave.jobs, mem := bus.slave.mem)
          invariant bus.slave.mem == Around(mem, fourBytesMode, dataOffset, data[..bufferOffset])
          invariant bus.slave.jobs == jobs + Pages(dataOffset, bufferOffset)
        {
          var next, n := WritePage(offset, dataOffset, data, bufferOffset);
          AroundSplit(mem, fourBytesMode, dataOffset, data[..bufferOffset], data[bufferOffset..bufferOffset + n]);
          assert data[..bufferOffset] + data[bufferOffset..bufferOffset + n] == data[..bufferOffset + n];
          bufferOffset := bufferOffset + n;
          offset := next;
        }
        assert data[..bufferOffset] == data;
      }
    }

    /** Brings the part of one block that is to be written up to date: a block that differs there is
        erased and programmed. */
    method UpdateBlock(current: nat, at: nat, data: seq<Byte>) returns (retCode: int)
      requires Valid() && current <= at && at + |data| <= regionSize && current < regionSize
      modifies bus
      ensures Valid() && retCode == 0
      ensures bus.slave == old(bus.slave).(wel := bus.slave.wel, jobs := bus.slave.jobs, mem := bus.slave.mem)
      ensures var mem := old(bus.slave.mem);
        if mem[at..at + |data|] == data then
          bus.slave.mem == mem && bus.slave.jobs == old(bus.slave.jobs)
        else
          bus.slave.mem == Overlay(Erased(mem, blockSize, current), at, data) &&
          bus.slave.jobs == old(bus.slave.jobs) + 1 + Pages(at, |data|)
    {
      hide Erased, Shift, Release, Overlay, Around, Pages;
      retCode := 0;
      assert data[..|data|] == data;
      var cmp := Memcmp(data, at, |data|);
      if cmp != 0 {
        AroundInside(Erased(bus.slave.mem, blockSize, current), fourBytesMode, at, data);
        retCode := EraseBlock(current);
        if retCode == 0 {
          retCode := WriteBlock(at, data);
        }
      }
    }

    /** The block loop of a write that starts inside the device. */
    method WriteBlocks(offset: nat, src: seq<Byte>) returns (retCode: int)
      requires Valid() && WholeBlocks() && offset < regionSize
      modifies bus
      ensures Valid() && retCode == 0
      ensures bus.slave == old(bus.slave).(wel := bus.slave.wel, jobs := bus.slave.jobs, mem := bus.slave.mem)
      ensures bus.slave.mem == MemoryAfter(old(bus.slave.mem), blockSize, offset, src)
      ensures bus.slave.mem == old(bus.slave.mem) <==> bus.slave.jobs == old(bus.slave.jobs)
    {
      hide Progress, Erased, Shift, Release, Overlay, Pages, MemoryAfter, BlockBase, ByteAfter, BlocksSize;
      retCode := 0;
      ghost var mem, jobs := bus.slave.mem, bus.slave.jobs;
      ProgressStart(mem, blockSize, offset, src);
      var data, at, current, j := src, offset, 0, 0;
      while j < numberOfBlocks
        invariant Valid() && 0 <= j <= numberOfBlocks && retCode == 0 && 0 <= current <= at
        invariant bus.slave == old(bus.slave).(wel := bus.slave.wel, jobs := bus.slave.jobs, mem := bus.slave.mem)
        invariant bus.slave.jobs >= jobs && regionSize == current + BlocksSize(numberOfBlocks - j, blockSize)
        invariant Progress(mem, bus.slave.mem, blockSize, offset, src, current, at, data, bus.slave.jobs != jobs)
      {
        BlocksSizeStep(numberOfBlocks - j, blockSize);
        ghost var mem', worked := bus.slave.mem, bus.slave.jobs != jobs;
        if at >= current && at < current + blockSize {
          var n := Min(current + blockSize - at, |data|);
          retCode := UpdateBlock(current, at, data[..n]);
          BlockStep(mem, mem', bus.slave.mem, blockSize, offset, src, current, at, data, n, worked,
            bus.slave.jobs != jobs);
          if |data| == n || retCode != 0 {
            return;
          }
          data := data[n..];
          at := current + blockSize;
        } else {
          BlockMissed(mem, mem', blockSize, offset, src, current, at, data, worked);
        }
        current := current + blockSize;
        j := j + 1;
      }
      BlocksSizeStep(0, blockSize);
      AllBlocksDone(mem, bus.slave.mem, blockSize, offset, src, current, at, data, bus.slave.jobs != jobs);
    }

    /** Erases and programs the blocks that differ. Data that falls past the end of the device is
        dropped without an error, and so is all of it when the offset is outside. */
    method Write(offset: int, src: seq<Byte>) returns (retCode: int)
      requires Valid() && WholeBlocks()
      modifies bus
      ensures Valid() && retCode == 0
      ensures bus.slave == old(bus.slave).(wel := bus.slave.wel, jobs := bus.slave.jobs, mem := bus.slave.mem)
      ensures bus.slave.mem == if offset < 0 then old(bus.slave.mem)
        else MemoryAfter(old(bus.slave.mem), blockSize, offset, src)
      ensures bus.slave.mem == old(bus.slave.mem) <==> bus.slave.jobs == old(bus.slave.jobs)
    {
      hide MemoryAfter, Shift, Release;
      retCode := 0;
      if 0 <= offset < regionSize {
        retCode := WriteBlocks(offset, src);
      } else if offset >= 0 {
        RestMissed(bus.slave.mem, bus.slave.mem, blockSize, offset, src, 0);
      }
    }
  }

  // ---- What a write means ----

  lemma SlicesAgree(s: seq<Byte>, t: seq<Byte>, lo: nat, hi: nat, offset: nat, a: nat)
    requires offset <= lo <= a < hi <= |s| && hi - offset <= |t| && s[lo..hi] == t[lo - offset..hi - offset]
    ensures s[a] == t[a - offset]
  {
    assert s[lo..hi][a - lo] == s[a] && t[lo - offset..hi - offset][a - lo] == t[a - offset];
  }

  lemma MatchedByte(mem: seq<Byte>, base: nat, blockSize: nat, offset: nat, data: seq<Byte>, a: nat)
    requires Matches(mem, base, blockSize, offset, data)
    requires Low(base, offset) <= a < High(|mem|, base, blockSize, offset, |data|)
    ensures mem[a] == data[a - offset]
  {
    SlicesAgree(mem, data, Low(base, offset), High(|mem|, base, blockSize, offset, |data|), offset, a);
  }

  /** The range written reads back as the data, as far as it lies in the device. */
  lemma ReadBack(mem: seq<Byte>, blockSize: nat, offset: nat, data: seq<Byte>, a: nat)
    requires blockSize > 0 && offset <= a < offset + |data| && a < |mem|
    ensures MemoryAfter(mem, blockSize, offset, data)[a] == data[a - offset]
  {
    hide Matches, BlockBase;
    var base := BlockBase(a, blockSize);
    if Matches(mem, base, blockSize, offset, data) {
      MatchedByte(mem, base, blockSize, offset, data, a);
    }
  }

  lemma SliceReads(mem: seq<Byte>, blockSize: nat, offset: nat, data: seq<Byte>, lo: nat, hi: nat)
    requires blockSize > 0 && offset <= lo <= hi <= |mem| && hi <= offset + |data|
    ensures MemoryAfter(mem, blockSize, offset, data)[lo..hi] == data[lo - offset..hi - offset]
  {
    hide MemoryAfter;
    var once := MemoryAfter(mem, blockSize, offset, data);
    forall i | 0 <= i < hi - lo
      ensures once[lo..hi][i] == data[lo - offset..hi - offset][i]
    {
      ReadBack(mem, blockSize, offset, data, lo + i);
    }
  }

  lemma WholeReads(mem: seq<Byte>, blockSize: nat, offset: nat, data: seq<Byte>)
    requires blockSize > 0 && offset + |data| <= |mem|
    ensures MemoryAfter(mem, blockSize, offset, data)[offset..offset + |data|] == data
  {
    hide MemoryAfter;
    SliceReads(mem, blockSize, offset, data, offset, offset + |data|);
    assert data[0..|data|] == data;
  }

  /** How many bytes of a write lie in the device. */
  function Stored(size: nat, offset: nat, length: nat): (k: nat)
    ensures k <= length && (k == length <==> length == 0 || offset + length <= size)
  {
    if offset >= size then 0 else Min(length, size - offset)
  }

  lemma SameBlock(mem: seq<Byte>, base: nat, blockSize: nat, offset: nat, data: seq<Byte>, a: nat)
    requires base < |mem|
    ensures var part := data[..Stored(|mem|, offset, |data|)];
      var lo, hi := Low(base, offset), High(|mem|, base, blockSize, offset, |data|);
      if lo < hi then
        hi == High(|mem|, base, blockSize, offset, |part|) &&
        data[lo - offset..hi - offset] == part[lo - offset..hi - offset]
      else
        lo >= High(|mem|, base, blockSize, offset, |part|)
    ensures Low(base, offset) <= a < High(|mem|, base, blockSize, offset, |data|) ==>
      0 <= a - offset < Stored(|mem|, offset, |data|)
  {
  }

  lemma SameByteAfter(mem: seq<Byte>, blockSize: nat, offset: nat, data: seq<Byte>, a: nat)
    requires blockSize > 0 && a < |mem|
    ensures ByteAfter(mem, blockSize, offset, data, a) ==
      ByteAfter(mem, blockSize, offset, data[..Stored(|mem|, offset, |data|)], a)
  {
    hide BlockBase, Low, High, Stored;
    SameBlock(mem, BlockBase(a, blockSize), blockSize, offset, data, a);
  }

  /** What lies past the end of the device leaves no trace: writing the bytes that lie in it is the
      same. */
  lemma RestIsLost(mem: seq<Byte>, blockSize: nat, offset: nat, data: seq<Byte>)
    requires blockSize > 0
    ensures MemoryAfter(mem, blockSize, offset, data) ==
      MemoryAfter(mem, blockSize, offset, data[..Stored(|mem|, offset, |data|)])
  {
    hide ByteAfter, Stored;
    forall a | 0 <= a < |mem| {
      SameByteAfter(mem, blockSize, offset, data, a);
    }
  }

  /** A write stores everything, so that the data could be told from the memory afterwards, exactly when
      the range lies in the device. The code reports success in every case; a caller that wants more
      than that has to check the range first. */
  lemma StoredInFull(mem: seq<Byte>, blockSize: nat, offset: nat, data: seq<Byte>)
    requires blockSize > 0 && data != []
    ensures offset + |data| <= |mem| <==>
      forall other | |other| == |data| && other != data ::
        MemoryAfter(mem, blockSize, offset, other) != MemoryAfter(mem, blockSize, offset, data)
    ensures offset + |data| <= |mem| ==>
      MemoryAfter(mem, blockSize, offset, data)[offset..offset + |data|] == data
  {
    hide MemoryAfter;
    if offset + |data| <= |mem| {
      forall other | |other| == |data| && other != data
        ensures MemoryAfter(mem, blockSize, offset, other) != MemoryAfter(mem, blockSize, offset, data)
      {
        WholeReads(mem, blockSize, offset, other);
        WholeReads(mem, blockSize, offset, data);
      }
      WholeReads(mem, blockSize, offset, data);
    } else {
      var n := |data| - 1;
      var other := data[..n] + [if data[n] == 0 then 1 else 0];
      var k := Stored(|mem|, offset, |data|);
      RestIsLost(mem, blockSize, offset, data);
      RestIsLost(mem, blockSize, offset, other);
      assert other[..k] == data[..k] && other[n] != data[n];
    }
  }

  /** A byte outside the range survives a write exactly when its block is missed, or already holds its
      part of the data, or the byte is 0xFF anyway. */
  lemma Survives(mem: seq<Byte>, blockSize: nat, offset: nat, data: seq<Byte>, a: nat)
    requires blockSize > 0 && a < |mem| && !(offset <= a < offset + |data|)
    ensures MemoryAfter(mem, blockSize, offset, data)[a] == mem[a] <==>
      var base := BlockBase(a, blockSize);
      offset + |data| <= base || base + blockSize <= offset || |data| == 0 || offset >= |mem| ||
      Matches(mem, base, blockSize, offset, data) || mem[a] == 0xFF
  {
  }

  lemma MatchesAfter(mem: seq<Byte>, blockSize: nat, offset: nat, data: seq<Byte>, base: nat)
    requires blockSize > 0
    ensures Matches(MemoryAfter(mem, blockSize, offset, data), base, blockSize, offset, data)
  {
    hide MemoryAfter;
    var lo, hi := Low(base, offset), High(|mem|, base, blockSize, offset, |data|);
    if lo <= hi {
      SliceReads(mem, blockSize, offset, data, lo, hi);
    }
  }

  /** Writing the same data again changes nothing, and so needs no erase and no program. */
  lemma WriteTwice(mem: seq<Byte>, blockSize: nat, offset: nat, data: seq<Byte>)
    requires blockSize > 0
    ensures var once := MemoryAfter(mem, blockSize, offset, data);
      MemoryAfter(once, blockSize, offset, data) == once
  {
    hide Matches;
    var once := MemoryAfter(mem, blockSize, offset, data);
    forall a | 0 <= a < |mem|
      ensures ByteAfter(once, blockSize, offset, data, a) == once[a]
    {
      MatchesAfter(mem, blockSize, offset, data, BlockBase(a, blockSize));
    }
  }
}
