/** What the driver and the flash say to each other: commands, framing, and the rules every command obeys. */
module FlashProtocol {
  import opened Bytes
  import opened SerialFlash

  const CCAT_DATA_IN_4: nat := 0x038
  const CCAT_DATA_IN_N: nat := 0x7f0
  const CCAT_DATA_OUT_4: nat := 0x030
  const CCAT_DATA_BLOCK_SIZE: nat := (CCAT_DATA_IN_N - CCAT_DATA_IN_4) / 8
  const CCAT_WRITE_BLOCK_SIZE: nat := 128
  const CCAT_FLASH_SIZE: nat := 0xE0000

  const TRIGGER: nat := 0x7f8
  const OUT_BASE: nat := 0x10
  const IN_BASE: nat := 0x18

  /** Out-byte registers between the clock registers and the trigger. */
  const OUT_REGISTERS: nat := 253

  const CMD_BULK_ERASE: byte := 0xE3
  const CMD_READ_FLASH: byte := 0xC0
  const CMD_READ_STATUS: byte := 0xA0
  const CMD_WRITE_ENABLE: byte := 0x60
  const CMD_WRITE_FLASH: byte := 0x40

  /** The driver's command bytes are the flash's opcodes, bit-reversed like everything else. */
  lemma Opcodes()
    ensures Reverse(CMD_BULK_ERASE) == OP_BULK_ERASE
    ensures Reverse(CMD_READ_FLASH) == OP_READ
    ensures Reverse(CMD_READ_STATUS) == OP_READ_STATUS
    ensures Reverse(CMD_WRITE_ENABLE) == OP_WRITE_ENABLE
    ensures Reverse(CMD_WRITE_FLASH) == OP_PROGRAM
  {
  }

  /** One transaction as the flash received it, with the flash state it met. */
  datatype Transaction = Transaction(cmd: seq<byte>, before: Flash)

  predicate IsProgram(t: Transaction) {
    |t.cmd| > 4 && t.cmd[0] == OP_PROGRAM
  }

  /**
   * Erase and program meet a write-enabled, idle chip; a program stays inside one 128-byte window and hits only
   * erased bytes; a read meets an idle chip.
   */
  predicate Disciplined(t: Transaction) {
    && (|t.cmd| > 0 && t.cmd[0] != OP_READ_STATUS ==> t.before.busy == 0)
    && (|t.cmd| > 0 && (t.cmd[0] == OP_BULK_ERASE || t.cmd[0] == OP_PROGRAM) ==> t.before.writeEnabled)
    && (IsProgram(t) ==>
         var addr, len := AddressOf(t.cmd), |t.cmd| - 4;
         && addr % CCAT_WRITE_BLOCK_SIZE + len <= CCAT_WRITE_BLOCK_SIZE
         && addr + len <= |t.before.mem|
         && forall i :: addr <= i < addr + len ==> t.before.mem[i] == ERASED)
  }

  /** What changes the flash: a bulk erase, or a program of some bytes at an address. */
  datatype Cycle = Erase | Page(addr: nat, data: seq<byte>)

  function CycleOf(t: Transaction): seq<Cycle> {
    if |t.cmd| == 1 && t.cmd[0] == OP_BULK_ERASE then [Erase]
    else if IsProgram(t) then [Page(AddressOf(t.cmd), ReverseAll(t.cmd[4..]))]
    else []
  }

  /** The erases and programs of a log, in order. */
  function Cycles(log: seq<Transaction>): seq<Cycle> {
    if log == [] then [] else Cycles(log[..|log| - 1]) + CycleOf(log[|log| - 1])
  }

  lemma CyclesAppend(log: seq<Transaction>, t: Transaction)
    ensures Cycles(log + [t]) == Cycles(log) + CycleOf(t)
  {
    assert (log + [t])[..|log|] == log;
  }

  /** The flash address bytes, most significant first. */
  function AddressBytes(addr: nat): (b: seq<byte>)
    requires addr < 0x100_0000
    ensures |b| == 3
  {
    [ToByte(addr / 0x10000), ToByte(addr / 0x100 % 0x100), ToByte(addr % 0x100)]
  }

  /** The most significant address byte goes first. */
  lemma AddressBytesOrder(addr: nat)
    requires addr < 0x100_0000
    ensures var b := AddressBytes(addr);
            && b[0] as nat == addr / 0x10000 && b[1] as nat == addr / 0x100 % 0x100 && b[2] as nat == addr % 0x100
  {
    ToByteIsNat(addr / 0x10000);
    ToByteIsNat(addr / 0x100 % 0x100);
    ToByteIsNat(addr % 0x100);
  }

  lemma SplitAddress(addr: nat)
    ensures addr == addr / 0x10000 * 0x10000 + addr / 0x100 % 0x100 * 0x100 + addr % 0x100
  {
  }

  /** The flash decodes the address the driver encoded. */
  lemma AddressRoundTrip(op: byte, addr: nat, data: seq<byte>)
    requires addr < 0x100_0000
    ensures AddressOf([op] + AddressBytes(addr) + data) == addr
  {
    SplitAddress(addr);
    ByteRoundTrip(addr / 0x10000);
    ByteRoundTrip(addr / 0x100 % 0x100);
    ByteRoundTrip(addr % 0x100);
    var cmd := [op] + AddressBytes(addr) + data;
    assert cmd[1] == AddressBytes(addr)[0] && cmd[2] == AddressBytes(addr)[1] && cmd[3] == AddressBytes(addr)[2];
  }

  lemma SliceJoin(s: seq<byte>, a: nat, b: nat, c: nat)
    requires a <= b <= c <= |s|
    ensures s[a..b] + s[b..c] == s[a..c]
  {
  }

  lemma StatusTransaction(f: Flash, sent: seq<byte>, duration: nat)
    requires |sent| == 2 && sent[0] == OP_READ_STATUS
    ensures Disciplined(Transaction(sent, f)) && CycleOf(Transaction(sent, f)) == []
    ensures Execute(f, sent, duration) == f.(busy := if f.busy == 0 then 0 else f.busy - 1)
    ensures |Reply(f, sent)| == 2 && Reply(f, sent)[1] == Status(f)
  {
    assert Reply(f, sent)[1] == ReplyByte(f, sent, 1);
  }

  /** The transaction the flash sees for a command with address and data. */
  function Framed(cmd: byte, addr: nat, data: seq<byte>): (sent: seq<byte>)
    requires addr < 0x100_0000
    ensures |sent| == 4 + |data|
  {
    [Reverse(cmd)] + AddressBytes(addr) + ReverseAll(data)
  }

  /** Swapping the address bytes in the driver cancels the engine's bit order. */
  lemma FramedRegisters(out: seq<byte>, cmd: byte, addr: nat, n: nat)
    requires addr < 0x100_0000 && 4 <= n <= |out|
    ensures var b := AddressBytes(addr);
            ReverseAll(out[0 := cmd][1 := SwapBits(b[0])][2 := SwapBits(b[1])][3 := SwapBits(b[2])][..n])
            == Framed(cmd, addr, out[4..n])
  {
    var b := AddressBytes(addr);
    SwapBitsReverses(b[0]);
    SwapBitsReverses(b[1]);
    SwapBitsReverses(b[2]);
    var regs := out[0 := cmd][1 := SwapBits(b[0])][2 := SwapBits(b[1])][3 := SwapBits(b[2])][..n];
    var sent := Framed(cmd, addr, out[4..n]);
    forall i | 0 <= i < n
      ensures ReverseAll(regs)[i] == sent[i]
    {
      assert i >= 4 ==> regs[i] == out[4..n][i - 4];
    }
  }

  /** Bit 7 of the status as the driver reads it is the flash's write-in-progress bit. */
  lemma BusyBit(f: Flash)
    ensures Reverse(Status(f)) & 0x80 != 0 <==> f.busy > 0
  {
  }

  /** Erased bytes are erased for the host, too. */
  lemma ErasedReversed(mem: seq<byte>, from: nat, to: nat)
    requires to <= |mem|
    ensures (forall i :: from <= i < to ==> mem[i] == ERASED)
       <==> (forall i :: from <= i < to ==> ReverseAll(mem)[i] == ERASED)
  {
    forall i | from <= i < to
      ensures mem[i] == ERASED <==> ReverseAll(mem)[i] == ERASED
    {
      ReverseErased(mem[i]);
    }
  }

  lemma ReverseErased(b: byte)
    ensures b == ERASED <==> Reverse(b) == ERASED
  {
  }

  lemma BlankReversed(n: nat)
    ensures ReverseAll(Blank(n)) == Blank(n)
  {
    ErasedReversed(Blank(n), 0, n);
  }

  lemma InWindowInPage(addr: nat, len: nat)
    requires addr % CCAT_WRITE_BLOCK_SIZE + len <= CCAT_WRITE_BLOCK_SIZE
    ensures addr % PAGE_SIZE + len <= PAGE_SIZE
  {
  }

  /** The transaction of a block write is a program of exactly that block. */
  lemma BlockFraming(addr: nat, buf: seq<byte>)
    requires addr < 0x100_0000 && 0 < |buf|
    ensures var sent := Framed(CMD_WRITE_FLASH, addr, buf);
            && |sent| == 4 + |buf| && sent[0] == OP_PROGRAM
            && AddressOf(sent) == addr && sent[4..] == ReverseAll(buf) && ReverseAll(sent[4..]) == buf
  {
    Opcodes();
    AddressRoundTrip(Reverse(CMD_WRITE_FLASH), addr, ReverseAll(buf));
    ReverseAllTwice(buf);
    assert Framed(CMD_WRITE_FLASH, addr, buf)[4..] == ReverseAll(buf);
  }

  /** `data` with `bytes` written over it from `off` on. */
  function Overlay(data: seq<byte>, off: nat, bytes: seq<byte>): (r: seq<byte>)
    requires off + |bytes| <= |data|
    ensures |r| == |data|
  {
    data[..off] + bytes + data[off + |bytes|..]
  }

  lemma ReverseOverlay(data: seq<byte>, off: nat, bytes: seq<byte>)
    requires off + |bytes| <= |data|
    ensures ReverseAll(Overlay(data, off, ReverseAll(bytes))) == Overlay(ReverseAll(data), off, bytes)
  {
    ReverseAllTwice(bytes);
    var got, want := ReverseAll(Overlay(data, off, ReverseAll(bytes))), Overlay(ReverseAll(data), off, bytes);
    forall i | 0 <= i < |data|
      ensures got[i] == want[i]
    {
      assert off <= i < off + |bytes| ==> got[i] == ReverseAll(ReverseAll(bytes))[i - off];
    }
  }

  /** The transaction of a block write, on an idle write-enabled chip with erased bytes in its place. */
  lemma ProgramRules(f: Flash, addr: nat, buf: seq<byte>)
    requires f.busy == 0 && f.writeEnabled && 0 < |buf| <= CCAT_WRITE_BLOCK_SIZE && addr < 0x100_0000
    requires addr % CCAT_WRITE_BLOCK_SIZE == 0 && addr + |buf| <= |f.mem|
    requires forall i :: addr <= i < addr + |buf| ==> ReverseAll(f.mem)[i] == ERASED
    ensures var t := Transaction(Framed(CMD_WRITE_FLASH, addr, buf), f);
            Disciplined(t) && CycleOf(t) == [Page(addr, buf)]
  {
    BlockFraming(addr, buf);
    ErasedReversed(f.mem, addr, addr + |buf|);
  }

  lemma ProgramExecutes(f: Flash, addr: nat, buf: seq<byte>, duration: nat)
    requires f.busy == 0 && f.writeEnabled && 0 < |buf| && addr < 0x100_0000 && addr + |buf| <= |f.mem|
    ensures Execute(f, Framed(CMD_WRITE_FLASH, addr, buf), duration)
         == Flash(Program(f.mem, addr, ReverseAll(buf)), false, duration)
  {
    BlockFraming(addr, buf);
  }

  /** After the transaction of a block write the host sees the block in its place, and nothing else changed. */
  lemma ProgramImage(f: Flash, addr: nat, buf: seq<byte>, duration: nat)
    requires f.busy == 0 && f.writeEnabled && 0 < |buf| <= CCAT_WRITE_BLOCK_SIZE && addr < 0x100_0000
    requires addr % CCAT_WRITE_BLOCK_SIZE == 0 && addr + |buf| <= |f.mem|
    requires forall i :: addr <= i < addr + |buf| ==> ReverseAll(f.mem)[i] == ERASED
    ensures ReverseAll(Execute(f, Framed(CMD_WRITE_FLASH, addr, buf), duration).mem)
         == Overlay(ReverseAll(f.mem), addr, buf)
  {
    ProgramExecutes(f, addr, buf, duration);
    ErasedReversed(f.mem, addr, addr + |buf|);
    InWindowInPage(addr, |buf|);
    ProgramErased(f.mem, addr, ReverseAll(buf));
    ReverseOverlay(f.mem, addr, buf);
  }

  /** A read on an idle chip is disciplined and changes nothing. */
  lemma ReadRules(f: Flash, addr: nat, data: seq<byte>, duration: nat)
    requires f.busy == 0 && addr < 0x100_0000
    ensures var sent := Framed(CMD_READ_FLASH, addr, data);
            && Disciplined(Transaction(sent, f)) && CycleOf(Transaction(sent, f)) == []
            && Execute(f, sent, duration) == f
  {
    Opcodes();
  }

  lemma ReadByte(f: Flash, addr: nat, data: seq<byte>, k: nat)
    requires addr < 0x100_0000 && addr + |data| <= |f.mem| && f.busy == 0 && k < |data|
    ensures ReplyByte(f, Framed(CMD_READ_FLASH, addr, data), k + 4) == f.mem[addr + k]
  {
    Opcodes();
    AddressRoundTrip(Reverse(CMD_READ_FLASH), addr, ReverseAll(data));
  }

  /** A read transaction returns the flash contents in the in-byte registers from byte 4 on. */
  lemma ReadReply(f: Flash, addr: nat, data: seq<byte>)
    requires addr < 0x100_0000 && addr + |data| <= |f.mem| && f.busy == 0
    ensures var sent := Framed(CMD_READ_FLASH, addr, data);
            ReverseAll(Reply(f, sent))[4..] == ReverseAll(f.mem)[addr..addr + |data|]
  {
    var reply := ReverseAll(Reply(f, Framed(CMD_READ_FLASH, addr, data)));
    var got, want := reply[4..], ReverseAll(f.mem)[addr..addr + |data|];
    assert |got| == |want|;
    forall k | 0 <= k < |want|
      ensures got[k] == want[k]
    {
      ReadByte(f, addr, data, k);
      assert got[k] == reply[k + 4];
    }
  }

  /** The programs that write `data` from address `off` on, 128 bytes at a time. */
  function Tiles(off: nat, data: seq<byte>): seq<Cycle>
    decreases |data|
  {
    if |data| <= CCAT_WRITE_BLOCK_SIZE then [Page(off, data)]
    else [Page(off, data[..CCAT_WRITE_BLOCK_SIZE])] + Tiles(off + CCAT_WRITE_BLOCK_SIZE, data[CCAT_WRITE_BLOCK_SIZE..])
  }

  function TileCount(size: nat): nat {
    (size + CCAT_WRITE_BLOCK_SIZE - 1) / CCAT_WRITE_BLOCK_SIZE
  }

  /** Writing `size` bytes takes ceil(size / 128) programs. */
  lemma {:induction false} TilesCounted(off: nat, data: seq<byte>)
    requires data != []
    ensures |Tiles(off, data)| == TileCount(|data|)
    decreases |data|
  {
    if |data| > CCAT_WRITE_BLOCK_SIZE {
      TilesCounted(off + CCAT_WRITE_BLOCK_SIZE, data[CCAT_WRITE_BLOCK_SIZE..]);
    }
  }

  /** How many of `size` bytes the first `k` blocks cover. */
  function Covered(size: nat, k: nat): (end: nat)
    ensures end <= size
  {
    if CCAT_WRITE_BLOCK_SIZE * k <= size then CCAT_WRITE_BLOCK_SIZE * k else size
  }

  lemma DropSlice(data: seq<byte>, k: nat, a: nat, b: nat)
    requires a <= b && k + b <= |data|
    ensures data[k..][a..b] == data[k + a..k + b]
  {
  }

  /** The i-th program writes bytes 128 * i to 128 * (i + 1), or to the end of `data`, at their own offset. */
  lemma {:induction false} TilesExact(off: nat, data: seq<byte>, i: nat)
    requires data != [] && i < |Tiles(off, data)|
    ensures Covered(|data|, i) == CCAT_WRITE_BLOCK_SIZE * i < Covered(|data|, i + 1)
    ensures Tiles(off, data)[i]
         == Page(off + CCAT_WRITE_BLOCK_SIZE * i, data[CCAT_WRITE_BLOCK_SIZE * i..Covered(|data|, i + 1)])
    decreases i
  {
    if |data| <= CCAT_WRITE_BLOCK_SIZE {
      assert data[0..|data|] == data;
    } else if i > 0 {
      var rest := data[CCAT_WRITE_BLOCK_SIZE..];
      assert Tiles(off, data)[i] == Tiles(off + CCAT_WRITE_BLOCK_SIZE, rest)[i - 1];
      TilesExact(off + CCAT_WRITE_BLOCK_SIZE, rest, i - 1);
      assert Covered(|rest|, i) + CCAT_WRITE_BLOCK_SIZE == Covered(|data|, i + 1);
      DropSlice(data, CCAT_WRITE_BLOCK_SIZE, CCAT_WRITE_BLOCK_SIZE * (i - 1), Covered(|rest|, i));
    }
  }

  /** The program for the block at `128 * k`; it is the last one if and only if the data ends with it. */
  lemma TileAt(data: seq<byte>, k: nat)
    requires CCAT_WRITE_BLOCK_SIZE * k < |data|
    ensures var off, end := CCAT_WRITE_BLOCK_SIZE * k, Covered(|data|, k + 1);
            && k < |Tiles(0, data)| && off < end
            && Tiles(0, data)[k] == Page(off, data[off..end])
            && (k + 1 == |Tiles(0, data)| <==> end == |data|)
  {
    TilesCounted(0, data);
    TilesExact(0, data, k);
  }

  /** With the block at `128 * k` reaching the end, the first `k + 1` programs are all. */
  lemma LastTile(data: seq<byte>, k: nat)
    requires CCAT_WRITE_BLOCK_SIZE * k < |data| <= CCAT_WRITE_BLOCK_SIZE * k + CCAT_WRITE_BLOCK_SIZE
    ensures k + 1 == |Tiles(0, data)| && Covered(|data|, k + 1) == |data|
    ensures Tiles(0, data)[..k + 1] == Tiles(0, data)
  {
    TileAt(data, k);
  }

  /* ---- What erase and program cycles make of an image, in host bit order ---- */

  /** An erase sets all bits; a program clears the zero bits of its data and touches nothing else. */
  function CycleEffect(image: seq<byte>, c: Cycle): (image': seq<byte>)
    ensures |image'| == |image|
  {
    match c
    case Erase => Blank(|image|)
    case Page(addr, data) =>
      seq(|image|, p requires 0 <= p < |image| =>
        if addr <= p < addr + |data| then image[p] & data[p - addr] else image[p])
  }

  function CyclesEffect(image: seq<byte>, cycles: seq<Cycle>): (image': seq<byte>)
    ensures |image'| == |image|
    decreases |cycles|
  {
    if cycles == [] then image else CyclesEffect(CycleEffect(image, cycles[0]), cycles[1..])
  }

  lemma {:induction false} EffectConcat(image: seq<byte>, a: seq<Cycle>, b: seq<Cycle>)
    ensures CyclesEffect(image, a + b) == CyclesEffect(CyclesEffect(image, a), b)
    decreases |a|
  {
    if a == [] {
      assert a + b == b;
    } else {
      assert (a + b)[0] == a[0] && (a + b)[1..] == a[1..] + b;
      EffectConcat(CycleEffect(image, a[0]), a[1..], b);
    }
  }

  lemma EffectOne(image: seq<byte>, c: Cycle)
    ensures CyclesEffect(image, [c]) == CycleEffect(image, c)
  {
    assert [c][1..] == [];
  }

  lemma EffectAppend(image: seq<byte>, cycles: seq<Cycle>, c: Cycle)
    ensures CyclesEffect(image, cycles + [c]) == CycleEffect(CyclesEffect(image, cycles), c)
  {
    EffectConcat(image, cycles, [c]);
    EffectOne(CyclesEffect(image, cycles), c);
  }

  /** The effect of the first `k` cycles is that of the first `k - 1`, then that of the last. */
  lemma EffectSnoc(image: seq<byte>, cycles: seq<Cycle>, k: nat)
    requires 0 < k <= |cycles|
    ensures CyclesEffect(image, cycles[..k]) == CycleEffect(CyclesEffect(image, cycles[..k - 1]), cycles[k - 1])
  {
    assert cycles[..k] == cycles[..k - 1] + [cycles[k - 1]];
    EffectAppend(image, cycles[..k - 1], cycles[k - 1]);
  }

  /** A program over erased bytes puts its data there. */
  lemma PageOverErased(image: seq<byte>, addr: nat, data: seq<byte>)
    requires addr + |data| <= |image|
    requires forall i :: addr <= i < addr + |data| ==> image[i] == ERASED
    ensures CycleEffect(image, Page(addr, data)) == Overlay(image, addr, data)
  {
    var image', want := CycleEffect(image, Page(addr, data)), Overlay(image, addr, data);
    forall p | 0 <= p < |image|
      ensures image'[p] == want[p]
    {
      if addr <= p < addr + |data| {
        ErasedAnd(data[p - addr]);
      }
    }
  }

  /** The image after the first `end` bytes of `data` went to a blank chip. */
  function Laid(data: seq<byte>, end: nat, capacity: nat): (image: seq<byte>)
    requires end <= |data| && end <= capacity
    ensures |image| == capacity
  {
    data[..end] + Blank(capacity - end)
  }

  lemma LaidNothing(data: seq<byte>, capacity: nat)
    ensures Laid(data, 0, capacity) == Blank(capacity) && data[0..] == data
  {
  }

  lemma LayNext(data: seq<byte>, off: nat, end: nat, capacity: nat)
    requires off <= end <= |data| <= capacity
    ensures Overlay(Laid(data, off, capacity), off, data[off..end]) == Laid(data, end, capacity)
  {
  }

  /** Block `k` finds erased bytes, extends what has been laid down, and is the next program. */
  lemma NextTile(data: seq<byte>, k: nat, block: seq<byte>, capacity: nat, before: seq<Cycle>)
    requires CCAT_WRITE_BLOCK_SIZE * k < |data| <= capacity
    requires block == data[CCAT_WRITE_BLOCK_SIZE * k..Covered(|data|, k + 1)]
    ensures var off, image := CCAT_WRITE_BLOCK_SIZE * k, Laid(data, Covered(|data|, k), capacity);
            && k < |Tiles(0, data)| && 0 < |block| <= CCAT_WRITE_BLOCK_SIZE && off + |block| <= capacity
            && (forall i :: off <= i < off + |block| ==> image[i] == ERASED)
            && Overlay(image, off, block) == Laid(data, Covered(|data|, k + 1), capacity)
            && before + Tiles(0, data)[..k] + [Page(off, block)] == before + Tiles(0, data)[..k + 1]
  {
    var off, end, tiles := CCAT_WRITE_BLOCK_SIZE * k, Covered(|data|, k + 1), Tiles(0, data);
    assert k < |tiles| && tiles[k] == Page(off, block) by { TileAt(data, k); }
    assert tiles[..k + 1] == tiles[..k] + [tiles[k]];
    LayNext(data, off, end, capacity);
  }

  lemma TileLays(data: seq<byte>, i: nat, capacity: nat)
    requires 0 < |data| <= capacity && i < |Tiles(0, data)|
    ensures CycleEffect(Laid(data, Covered(|data|, i), capacity), Tiles(0, data)[i])
         == Laid(data, Covered(|data|, i + 1), capacity)
  {
    var off, end := Covered(|data|, i), Covered(|data|, i + 1);
    assert Tiles(0, data)[i] == Page(off, data[off..end]) && off <= end by { TilesExact(0, data, i); }
    PageOverErased(Laid(data, off, capacity), off, data[off..end]);
    LayNext(data, off, end, capacity);
  }

  /** The first `k` programs of a write lay down the first `k` blocks. */
  lemma {:induction false} TilesLay(data: seq<byte>, k: nat, capacity: nat)
    requires 0 < |data| <= capacity && k <= |Tiles(0, data)|
    ensures CyclesEffect(Blank(capacity), Tiles(0, data)[..k]) == Laid(data, Covered(|data|, k), capacity)
  {
    if k == 0 {
      LaidNothing(data, capacity);
    } else {
      TilesLay(data, k - 1, capacity);
      EffectSnoc(Blank(capacity), Tiles(0, data), k);
      TileLays(data, k - 1, capacity);
    }
  }
}
