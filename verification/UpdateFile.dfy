/** The update device file as code over the port, and the update script on top of it. */
module UpdateFile {
  import opened Bytes
  import opened SerialFlash
  import opened FlashProtocol
  import opened UpdatePort
  import opened UpdateSession

  const EFAULT: int := 14

  /** The commands of ccat_update_release: write-enable, erase, wait, then the buffer. */
  method EraseAndWrite(port: Port, all: seq<byte>)
    requires port.Quiet() && 0 < |all| <= CCAT_FLASH_SIZE
    modifies port
    ensures port.Quiet() && port.Image() == Laid(all, |all|, |old(port.Image())|)
    ensures Cycles(port.log) == Cycles(old(port.log)) + ([Erase] + Tiles(0, all))
  {
    ghost var before, tiles := Cycles(port.log), Tiles(0, all);
    port.BulkErase();
    port.WriteFlash(all);
    assert before + [Erase] + tiles == before + ([Erase] + tiles);
  }

  lemma ReleaseFlashes(s: Session, image: seq<byte>)
    requires WellFormed(s) && s.size > 0 && CCAT_FLASH_SIZE <= |image|
    ensures SessionCycles(s) == [Erase] + Tiles(0, s.data[..s.size])
    ensures ImageAfter(image, s) == Laid(s.data[..s.size], s.size, |image|)
  {
    LaidCut(s.data, s.size, s.size, |image|);
  }

  class Handle {
    const port: Port
    const data: array<byte>
    var off: nat
    var size: nat

    ghost function View(): Session
      reads this, data
    {
      Session(off, data[..], size)
    }

    ghost predicate Valid()
      reads this, data, port
    {
      WellFormed(View()) && port.Quiet()
    }

    /** ccat_cdev_open once the device is won: kzalloc gives a zeroed buffer. */
    constructor (port: Port)
      requires port.Quiet()
      ensures Valid() && this.port == port && fresh(data) && View() == Opened()
    {
      this.port := port;
      data := new byte[CCAT_FLASH_SIZE](i => 0);
      off, size := 0, 0;
    }

    /** ccat_update_read */
    method ReadFile(len: nat) returns (buf: seq<byte>)
      requires Valid()
      modifies this`off, port
      ensures Valid() && View() == Apply(old(View()), Read(len))
      ensures port.flash == old(port.flash) && Cycles(port.log) == Cycles(old(port.log))
      ensures |buf| <= len && off == old(off) + |buf| && (|buf| == len || off == CCAT_FLASH_SIZE)
      ensures off <= |port.Image()| && buf == port.Image()[old(off)..off]
    {
      if off >= CCAT_FLASH_SIZE {
        return [];
      }
      var n := if len <= CCAT_FLASH_SIZE - off then len else CCAT_FLASH_SIZE - off;
      buf, off := port.ReadFlash(n, off);
    }

    /** ccat_update_write; `copied` is the outcome of the user copy and `buf` what it puts into the buffer. */
    method WriteFile(buf: seq<byte>, copied: bool) returns (n: int)
      requires Valid()
      modifies this`off, this`size, data
      ensures Valid() && View() == Apply(old(View()), if copied then Write(buf) else Fault(buf))
      ensures n == if old(off) + |buf| > CCAT_FLASH_SIZE then 0 else if copied then |buf| else -EFAULT
      ensures n >= 0 && old(off) + |buf| <= CCAT_FLASH_SIZE ==>
                off == size == old(off) + |buf| && data[old(off)..off] == buf
      ensures n < 0 || old(off) + |buf| > CCAT_FLASH_SIZE ==> off == old(off) && size == old(size)
      ensures forall i :: 0 <= i < data.Length && !(old(off) <= i < old(off) + |buf| <= CCAT_FLASH_SIZE) ==>
                data[i] == old(data[i])
    {
      if off + |buf| > CCAT_FLASH_SIZE {
        return 0;
      }
      CopyFromUser(buf);
      if !copied {
        return -EFAULT;
      }
      off := off + |buf|;
      size := off;
      return |buf|;
    }

    /** One file operation. */
    method Perform(op: Op)
      requires Valid()
      modifies this`off, this`size, data, port
      ensures Valid() && View() == Apply(old(View()), op)
      ensures port.flash == old(port.flash) && Cycles(port.log) == Cycles(old(port.log))
    {
      match op
      case Read(len) =>
        var buf := ReadFile(len);
      case Write(bytes) =>
        var n := WriteFile(bytes, true);
      case Fault(left) =>
        var n := WriteFile(left, false);
    }

    method CopyFromUser(buf: seq<byte>)
      requires Valid() && off + |buf| <= data.Length
      modifies data
      ensures data[..] == Overlay(old(data[..]), off, buf)
    {
      for i := 0 to |buf|
        invariant data[..off + i] == old(data[..off]) + buf[..i]
        invariant data[off + i..] == old(data[..])[off + i..]
      {
        data[off + i] := buf[i];
      }
    }

    /** ccat_update_release up to the return of the device: erase, then write the buffer, if anything was written. */
    method Release()
      requires Valid()
      modifies port
      ensures port.Quiet() && port.Image() == ImageAfter(old(port.Image()), View())
      ensures Cycles(port.log) == Cycles(old(port.log)) + SessionCycles(View())
      ensures size == 0 ==> port.flash == old(port.flash) && port.log == old(port.log)
    {
      if size > 0 {
        ReleaseFlashes(View(), port.Image());
        var all := data[..size];
        assert all == View().data[..size];
        EraseAndWrite(port, all);
      } else {
        assert Cycles(port.log) + [] == Cycles(port.log);
      }
    }
  }

  /**
   * A whole session: after open, any reads and writes, and release, the flash has been through exactly the cycles
   * of the replayed session and holds its image. It is erased if and only if an accepted write ended above zero.
   */
  method RunSession(port: Port, ops: seq<Op>)
    requires port.Quiet()
    modifies port
    ensures port.Quiet() && port.Image() == ImageAfter(old(port.Image()), Replay(ops))
    ensures Cycles(port.log) == Cycles(old(port.log)) + SessionCycles(Replay(ops))
    ensures Erase in SessionCycles(Replay(ops)) <==> EndOf(Accepted(ops)) > 0
    ensures EndOf(Accepted(ops)) == 0 ==> port.flash == old(port.flash)
  {
    var file := new Handle(port);
    assert ops[..0] == [];
    for i := 0 to |ops|
      invariant file.port == port && file.Valid() && fresh(file) && fresh(file.data)
      invariant file.View() == Replay(ops[..i])
      invariant port.flash == old(port.flash) && Cycles(port.log) == Cycles(old(port.log))
    {
      assert ops[..i + 1][..i] == ops[..i];
      file.Perform(ops[i]);
    }
    assert ops[..|ops|] == ops;
    SessionSize(ops);
    file.Release();
  }

  /** `cat device > backup`: reads of any positive sizes until end of file return the first 0xE0000 bytes. */
  method Backup(port: Port) returns (backup: seq<byte>)
    requires port.Quiet()
    modifies port
    ensures port.Quiet() && port.flash == old(port.flash) && Cycles(port.log) == Cycles(old(port.log))
    ensures backup == port.Image()[..CCAT_FLASH_SIZE]
  {
    var file := new Handle(port);
    backup := [];
    while file.off < CCAT_FLASH_SIZE
      invariant file.port == port && file.Valid() && fresh(file) && fresh(file.data) && file.size == 0
      invariant port.flash == old(port.flash) && Cycles(port.log) == Cycles(old(port.log))
      invariant file.off <= CCAT_FLASH_SIZE && backup == port.Image()[..file.off]
      decreases CCAT_FLASH_SIZE - file.off
    {
      var len: nat :| len > 0;
      var chunk := file.ReadFile(len);
      backup := backup + chunk;
    }
    file.Release();
  }

  /**
   * `cat image > device` in chunks of any positive sizes. It fails, with the chunks before the first one that does
   * not fit stored and flashed, if and only if the image has more than 0xE0000 bytes; `refused` is the size of that
   * chunk.
   */
  method Store(port: Port, image: seq<byte>) returns (ok: bool, stored: nat, refused: nat)
    requires port.Quiet()
    modifies port
    ensures port.Quiet() && stored <= |image|
    ensures ok <==> |image| <= CCAT_FLASH_SIZE
    ensures ok <==> stored == |image|
    ensures !ok ==> 0 < refused <= |image| - stored && stored + refused > CCAT_FLASH_SIZE
    ensures stored <= CCAT_FLASH_SIZE
    ensures port.Image() ==
            if stored == 0 then old(port.Image()) else Laid(image, stored, |old(port.flash.mem)|)
  {
    var file := new Handle(port);
    ok, refused := true, 0;
    while ok && file.off < |image|
      invariant file.port == port && file.Valid() && fresh(file) && fresh(file.data)
      invariant file.off == file.size <= |image| && file.data[..file.off] == image[..file.off]
      invariant port.flash == old(port.flash)
      invariant !ok ==> 0 < refused <= |image| - file.off && file.off + refused > CCAT_FLASH_SIZE
      decreases ok, |image| - file.off
    {
      var len: nat :| 0 < len <= |image| - file.off;
      var n := file.WriteFile(image[file.off..file.off + len], true);
      if n == 0 {
        ok, refused := false, len;
      }
    }
    stored := file.off;
    file.Release();
  }

  /** `now` is the first `stored` bytes of `image`, flashed over `before`. */
  predicate FlashedPart(before: seq<byte>, image: seq<byte>, stored: nat, now: seq<byte>) {
    && stored <= |image| && stored <= |before|
    && now == if stored == 0 then before else Laid(image, stored, |before|)
  }

  /**
   * The update script up to its verdict: back up, write the new image, read it back, compare. An image that does
   * not fit makes it stop after the write, with a part of the image in the flash and the backup not restored.
   */
  method UpdateFirmware(port: Port, image: seq<byte>)
    returns (written: bool, verified: bool, stored: nat, backup: seq<byte>)
    requires port.Quiet()
    modifies port
    ensures port.Quiet() && backup == old(port.Image())[..CCAT_FLASH_SIZE]
    ensures written <==> |image| <= CCAT_FLASH_SIZE
    ensures verified <==> written
    ensures written <==> stored == |image|
    ensures FlashedPart(old(port.Image()), image, stored, port.Image())
  {
    backup := Backup(port);
    var refused;
    written, stored, refused := Store(port, image);
    if !written {
      return false, false, stored, backup;
    }
    var back := Backup(port);
    verified := back[..|image|] == image;
  }

  /**
   * Backup and restore, whatever the flash held and whatever happened to it in between: the first 0xE0000 bytes
   * are as before. The bytes behind them survive exactly if they were erased already.
   */
  method BackupAndRestore(port: Port, between: seq<seq<Op>>)
    requires port.Quiet()
    modifies port
    ensures port.Quiet()
    ensures port.Image()[..CCAT_FLASH_SIZE] == old(port.Image())[..CCAT_FLASH_SIZE]
    ensures port.Image() == old(port.Image())
            <==> forall i :: CCAT_FLASH_SIZE <= i < |old(port.Image())| ==> old(port.Image())[i] == ERASED
  {
    ghost var image := port.Image();
    var backup := Backup(port);
    for i := 0 to |between|
      invariant port.Quiet() && |port.flash.mem| == |image|
    {
      RunSession(port, between[i]);
    }
    var ok, stored, refused := Store(port, backup);
    assert port.Image() == backup + Blank(|image| - CCAT_FLASH_SIZE);
    assert image == backup + image[CCAT_FLASH_SIZE..];
  }
}
