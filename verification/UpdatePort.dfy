/** The register-mapped shift engine in front of the flash, and the driver's command helpers and block loops. */
module UpdatePort {
  import opened Bytes
  import opened SerialFlash
  import opened FlashProtocol

  class Port {
    // Registers of the shift engine.
    var clocksHigh: nat
    var clocksLow: nat
    var out: seq<byte>
    var inp: seq<byte>
    var shifting: nat

    // The flash, and what it has been asked to do.
    var flash: Flash
    ghost var log: seq<Transaction>

    /** Every transaction so far obeyed the command rules. */
    ghost predicate Valid()
      reads this
    {
      && |out| == OUT_REGISTERS && |inp| == OUT_REGISTERS
      && CCAT_FLASH_SIZE <= |flash.mem| <= 0x100_0000
      && forall t :: t in log ==> Disciplined(t)
    }

    /** Between two commands: the engine is not shifting. */
    ghost predicate Still()
      reads this
    {
      Valid() && shifting == 0
    }

    /** Between two file operations: also the flash is not busy. */
    ghost predicate Quiet()
      reads this
    {
      Still() && flash.busy == 0
    }

    /** The flash contents as the host sees them. */
    ghost function Image(): seq<byte>
      reads this`flash
    {
      ReverseAll(flash.mem)
    }

    ghost function Clocks(): nat
      reads this`clocksHigh, this`clocksLow
    {
      clocksHigh * 256 + clocksLow
    }

    /** What the engine shifts out for the present register contents. */
    ghost function Shifted(): seq<byte>
      requires Clocks() / 8 <= |out|
      reads this`clocksHigh, this`clocksLow, this`out
    {
      ReverseAll(out[..Clocks() / 8])
    }

    /** A port before the first command, in front of a flash with any contents. */
    constructor (contents: seq<byte>)
      requires CCAT_FLASH_SIZE <= |contents| <= 0x100_0000
      ensures Quiet() && flash.mem == contents && log == []
    {
      clocksHigh, clocksLow, shifting := 0, 0, 0;
      out, inp := seq(OUT_REGISTERS, i => 0), seq(OUT_REGISTERS, i => 0);
      flash := Flash(contents, false, 0);
      log := [];
    }

    /** iowrite8 to the two clock registers. */
    method WriteClocks(high: nat, low: nat)
      requires Still() && high < 256 && low < 256
      modifies this`clocksHigh, this`clocksLow
      ensures Still() && Clocks() == high * 256 + low && clocksHigh == high && clocksLow == low
    {
      clocksHigh := high;
      clocksLow := low;
    }

    /** iowrite8 to an out-byte register. */
    method WriteRegister(v: byte, off: nat)
      requires Still() && OUT_BASE <= off < TRIGGER && off % 8 == 0
      modifies this`out
      ensures Still() && out == old(out)[(off - OUT_BASE) / 8 := v]
    {
      out := out[(off - OUT_BASE) / 8 := v];
    }

    /** iowrite8 to the trigger register: the engine runs one transaction. */
    method WriteTrigger(ghost sent: seq<byte>) returns (ghost duration: nat)
      requires Still() && 8 <= Clocks() && Clocks() / 8 <= OUT_REGISTERS
      requires sent == Shifted() && Disciplined(Transaction(sent, flash))
      modifies this`inp, this`shifting, this`flash, this`log
      ensures Valid() && log == old(log) + [Transaction(sent, old(flash))]
      ensures flash == Execute(old(flash), sent, duration)
      ensures inp == ReverseAll(Reply(old(flash), sent)) + old(inp)[|sent|..]
    {
      var cmd := ReverseAll(out[..(clocksHigh * 256 + clocksLow) / 8]);
      assert cmd == sent;
      var cycle: nat := *;
      duration := cycle;
      log := log + [Transaction(sent, flash)];
      inp := ReverseAll(Reply(flash, cmd)) + inp[|cmd|..];
      flash := Execute(flash, cmd, cycle);
      shifting := *;
    }

    /** ioread8 of an in-byte register. */
    method ReadRegister(off: nat) returns (v: byte)
      requires Still() && IN_BASE <= off < TRIGGER && off % 8 == 0
      ensures v == inp[(off - IN_BASE) / 8]
    {
      v := inp[(off - IN_BASE) / 8];
    }

    /** wait_until_busy_reset */
    method WaitUntilBusyReset()
      requires Valid()
      modifies this`shifting
      ensures Still()
    {
      while shifting > 0
        invariant Valid()
      {
        shifting := shifting - 1;
      }
    }

    /** __ccat_update_cmd */
    method SetCommand(cmd: byte, clocks: nat)
      requires Still() && clocks < 0x10000
      modifies this`clocksHigh, this`clocksLow, this`out
      ensures Still() && Clocks() == clocks && out == old(out)[0 := cmd]
      ensures clocksHigh == clocks / 256 && clocksLow == clocks % 256
    {
      WriteClocks(clocks / 0x100 % 0x100, clocks % 0x100);
      WriteRegister(cmd, 0x10);
    }

    /** ccat_update_cmd; `sent` is what the flash receives. */
    method Command(cmd: byte, clocks: nat, ghost sent: seq<byte>) returns (ghost duration: nat)
      requires Still() && 8 <= clocks && clocks / 8 <= OUT_REGISTERS
      requires sent == ReverseAll(out[0 := cmd][..clocks / 8]) && Disciplined(Transaction(sent, flash))
      modifies this
      ensures Still() && log == old(log) + [Transaction(sent, old(flash))]
      ensures flash == Execute(old(flash), sent, duration)
      ensures inp == ReverseAll(Reply(old(flash), sent)) + old(inp)[|sent|..]
    {
      SetCommand(cmd, clocks);
      duration := WriteTrigger(sent);
      WaitUntilBusyReset();
    }

    /** The register writes of ccat_update_cmd_addr. */
    method LoadAddress(cmd: byte, clocks: nat, addr: nat)
      requires Still() && 32 <= clocks && clocks / 8 <= OUT_REGISTERS && addr < 0x100_0000
      modifies this`clocksHigh, this`clocksLow, this`out
      ensures Still() && Clocks() == clocks
      ensures Shifted() == Framed(cmd, addr, old(out)[4..clocks / 8])
    {
      var bytes := AddressBytes(addr);
      FramedRegisters(out, cmd, addr, clocks / 8);
      SetCommand(cmd, clocks);
      WriteRegister(SwapBits(bytes[0]), 0x18);
      WriteRegister(SwapBits(bytes[1]), 0x20);
      WriteRegister(SwapBits(bytes[2]), 0x28);
      assert out == old(out)[0 := cmd][1 := SwapBits(bytes[0])][2 := SwapBits(bytes[1])][3 := SwapBits(bytes[2])];
    }

    /** ccat_update_cmd_addr: command, address most significant byte first, then the data registers. */
    method CommandAddr(cmd: byte, clocks: nat, addr: nat, ghost sent: seq<byte>) returns (ghost duration: nat)
      requires Still() && 32 <= clocks && clocks / 8 <= OUT_REGISTERS && addr < 0x100_0000
      requires sent == Framed(cmd, addr, out[4..clocks / 8]) && Disciplined(Transaction(sent, flash))
      modifies this
      ensures Still() && log == old(log) + [Transaction(sent, old(flash))]
      ensures flash == Execute(old(flash), sent, duration)
      ensures inp == ReverseAll(Reply(old(flash), sent)) + old(inp)[|sent|..]
    {
      LoadAddress(cmd, clocks, addr);
      duration := WriteTrigger(sent);
      WaitUntilBusyReset();
    }

    /** ccat_get_status */
    method GetStatus() returns (status: byte)
      requires Still()
      modifies this
      ensures Still()
      ensures status == Reverse(Status(old(flash)))
      ensures flash == old(flash).(busy := if old(flash).busy == 0 then 0 else old(flash).busy - 1)
      ensures Cycles(log) == Cycles(old(log)) && old(log) <= log
    {
      Opcodes();
      ghost var sent, f := ReverseAll(out[0 := CMD_READ_STATUS][..2]), flash;
      CyclesAppend(log, Transaction(sent, f));
      StatusTransaction(f, sent, 0);
      ghost var duration := Command(CMD_READ_STATUS, 16, sent);
      StatusTransaction(f, sent, duration);
      assert inp[1] == ReverseAll(Reply(f, sent))[1];
      status := ReadRegister(0x20);
    }

    /** ccat_wait_status_cleared */
    method WaitStatusCleared()
      requires Still()
      modifies this
      ensures Quiet() && flash == old(flash).(busy := 0)
      ensures Cycles(log) == Cycles(old(log)) && old(log) <= log
    {
      BusyBit(flash);
      var status := GetStatus();
      while status & 0x80 != 0
        invariant Still() && flash == old(flash).(busy := flash.busy)
        invariant status & 0x80 == 0 ==> flash.busy == 0
        invariant Cycles(log) == Cycles(old(log)) && old(log) <= log
        decreases flash.busy + if status & 0x80 != 0 then 1 else 0
      {
        BusyBit(flash);
        status := GetStatus();
      }
    }

    /** The put_user loop of ccat_read_flash_block. */
    method CopyBlock(len: nat) returns (buf: seq<byte>)
      requires Still() && len <= CCAT_DATA_BLOCK_SIZE
      ensures buf == inp[4..4 + len]
    {
      buf := [];
      for i := 0 to len
        invariant |buf| == i && buf == inp[4..4 + i]
      {
        var v := ReadRegister(CCAT_DATA_IN_4 + 8 * i);
        buf := buf + [v];
      }
    }

    /** The read command of ccat_read_flash_block. */
    method FetchBlock(addr: nat, len: nat)
      requires Quiet() && len <= CCAT_DATA_BLOCK_SIZE && addr + len <= |flash.mem| && addr < 0x100_0000
      modifies this
      ensures Quiet() && flash == old(flash) && Cycles(log) == Cycles(old(log))
      ensures inp[4..4 + len] == Image()[addr..addr + len]
    {
      ghost var data, sent := out[4..4 + len], Framed(CMD_READ_FLASH, addr, out[4..4 + len]);
      ghost var reply := ReverseAll(Reply(flash, sent));
      CyclesAppend(log, Transaction(sent, flash));
      ReadRules(flash, addr, data, 0);
      ReadReply(flash, addr, data);
      ghost var duration := CommandAddr(CMD_READ_FLASH, 32 + 8 * len, addr, sent);
      ReadRules(old(flash), addr, data, duration);
      assert inp[4..4 + len] == reply[4..];
    }

    /** ccat_read_flash_block */
    method ReadFlashBlock(addr: nat, len: nat) returns (buf: seq<byte>)
      requires Quiet() && len <= CCAT_DATA_BLOCK_SIZE && addr + len <= |flash.mem| && addr < 0x100_0000
      modifies this
      ensures Quiet() && flash == old(flash) && Cycles(log) == Cycles(old(log))
      ensures buf == Image()[addr..addr + len]
    {
      FetchBlock(addr, len);
      buf := CopyBlock(len);
    }

    /**
     * ccat_read_flash: the block loop returns the same bytes as one direct read, and `off` advances by their
     * number.
     */
    method ReadFlash(len: nat, off: nat) returns (buf: seq<byte>, off': nat)
      requires Quiet() && off + len <= |flash.mem| && off < 0x100_0000
      modifies this
      ensures Quiet() && flash == old(flash) && Cycles(log) == Cycles(old(log))
      ensures buf == Image()[off..off + len] && off' == off + len
    {
      ghost var image := Image();
      var left := len;
      buf, off' := [], off;
      while left > CCAT_DATA_BLOCK_SIZE
        invariant Quiet() && flash == old(flash) && Cycles(log) == Cycles(old(log))
        invariant 0 <= left <= len && off' + left == off + len && off' < 0x100_0000
        invariant buf == image[off..off']
      {
        var block := ReadFlashBlock(off', CCAT_DATA_BLOCK_SIZE);
        SliceJoin(image, off, off', off' + CCAT_DATA_BLOCK_SIZE);
        buf := buf + block;
        off' := off' + CCAT_DATA_BLOCK_SIZE;
        left := left - CCAT_DATA_BLOCK_SIZE;
      }
      var block := ReadFlashBlock(off', left);
      SliceJoin(image, off, off', off' + left);
      buf := buf + block;
      off' := off' + left;
    }

    method WriteEnable()
      requires Quiet()
      modifies this
      ensures Quiet() && flash == old(flash).(writeEnabled := true)
      ensures Cycles(log) == Cycles(old(log))
    {
      Opcodes();
      ghost var sent := ReverseAll(out[0 := CMD_WRITE_ENABLE][..1]);
      CyclesAppend(log, Transaction(sent, flash));
      ghost var duration := Command(CMD_WRITE_ENABLE, 8, sent);
    }

    /** The loop of ccat_write_flash_block that puts the data into the out-byte registers. */
    method LoadBlock(buf: seq<byte>)
      requires Quiet() && |buf| <= CCAT_WRITE_BLOCK_SIZE
      modifies this`out
      ensures Quiet() && out[4..4 + |buf|] == buf
    {
      for i := 0 to |buf|
        invariant Quiet() && out[4..4 + i] == buf[..i]
      {
        ghost var loaded := out[4..4 + i];
        WriteRegister(buf[i], CCAT_DATA_OUT_4 + 8 * i);
        assert out[4..4 + i + 1] == loaded + [buf[i]];
      }
    }

    /** The program command of ccat_write_flash_block. */
    method ProgramLoaded(addr: nat, buf: seq<byte>)
      requires Quiet() && flash.writeEnabled && 0 < |buf| <= CCAT_WRITE_BLOCK_SIZE && out[4..4 + |buf|] == buf
      requires addr % CCAT_WRITE_BLOCK_SIZE == 0 && addr + |buf| <= |flash.mem|
      requires forall i :: addr <= i < addr + |buf| ==> Image()[i] == ERASED
      modifies this
      ensures Still() && Image() == Overlay(old(Image()), addr, buf)
      ensures Cycles(log) == Cycles(old(log)) + [Page(addr, buf)]
    {
      ghost var f, sent := flash, Framed(CMD_WRITE_FLASH, addr, buf);
      assert Image() == ReverseAll(f.mem);
      CyclesAppend(log, Transaction(sent, f));
      ProgramRules(f, addr, buf);
      ghost var duration := CommandAddr(CMD_WRITE_FLASH, 32 + 8 * |buf|, addr, sent);
      ProgramImage(f, addr, buf, duration);
    }

    /** ccat_write_flash_block */
    method WriteFlashBlock(addr: nat, buf: seq<byte>)
      requires Quiet() && 0 < |buf| <= CCAT_WRITE_BLOCK_SIZE
      requires addr % CCAT_WRITE_BLOCK_SIZE == 0 && addr + |buf| <= |flash.mem|
      requires forall i :: addr <= i < addr + |buf| ==> Image()[i] == ERASED
      modifies this
      ensures Quiet() && Image() == Overlay(old(Image()), addr, buf)
      ensures Cycles(log) == Cycles(old(log)) + [Page(addr, buf)]
    {
      WriteEnable();
      LoadBlock(buf);
      assert Image() == old(Image()) && |Image()| == |flash.mem|;
      ProgramLoaded(addr, buf);
      WaitStatusCleared();
    }

    /** The erase of ccat_update_release. */
    method BulkErase()
      requires Quiet()
      modifies this
      ensures Quiet() && Image() == Blank(|old(flash.mem)|)
      ensures Cycles(log) == Cycles(old(log)) + [Erase]
    {
      Opcodes();
      WriteEnable();
      ghost var sent := ReverseAll(out[0 := CMD_BULK_ERASE][..1]);
      CyclesAppend(log, Transaction(sent, flash));
      BlankReversed(|flash.mem|);
      ghost var duration := Command(CMD_BULK_ERASE, 8, sent);
      WaitStatusCleared();
    }

    /** The first `k` blocks of `all` are in the flash, which is erased from there on; each was programmed once. */
    ghost predicate Stored(all: seq<byte>, k: nat, capacity: nat, before: seq<Cycle>)
      reads this`flash, this`log
    {
      && |all| <= capacity && k <= |Tiles(0, all)|
      && Image() == Laid(all, Covered(|all|, k), capacity)
      && Cycles(log) == before + Tiles(0, all)[..k]
    }

    /** One block of ccat_write_flash. */
    method WriteNext(all: seq<byte>, off: nat, len: nat, ghost k: nat, ghost capacity: nat, ghost before: seq<Cycle>)
      requires Quiet() && 0 < len && off == CCAT_WRITE_BLOCK_SIZE * k && off + len == Covered(|all|, k + 1)
      requires Stored(all, k, capacity, before)
      modifies this
      ensures Quiet() && Stored(all, k + 1, capacity, before)
    {
      var block := all[off..off + len];
      NextTile(all, k, block, capacity, before);
      WriteFlashBlock(off, block);
    }

    /** ccat_write_flash: the blocks of `all`, the first `size` bytes of the buffer, go out in order, each once. */
    method WriteFlash(all: seq<byte>)
      requires Quiet() && 0 < |all| <= |flash.mem|
      requires Image() == Blank(|flash.mem|)
      modifies this
      ensures Quiet() && Image() == Laid(all, |all|, |old(flash.mem)|)
      ensures Cycles(log) == Cycles(old(log)) + Tiles(0, all)
    {
      ghost var capacity, before, k := |flash.mem|, Cycles(log), 0;
      var off, len := 0, |all|;
      LaidNothing(all, capacity);
      while len > CCAT_WRITE_BLOCK_SIZE
        invariant Quiet() && Stored(all, k, capacity, before)
        invariant off + len == |all| && off == CCAT_WRITE_BLOCK_SIZE * k && len > 0
      {
        WriteNext(all, off, CCAT_WRITE_BLOCK_SIZE, k, capacity, before);
        off := off + CCAT_WRITE_BLOCK_SIZE;
        len := len - CCAT_WRITE_BLOCK_SIZE;
        k := k + 1;
      }
      LastTile(all, k);
      WriteNext(all, off, len, k, capacity, before);
    }
  }
}
