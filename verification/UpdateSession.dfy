/**
 * A session of the update device file: reads and writes on one cursor over a zero-initialised buffer, what they
 * leave in it, and the erase and program cycles that closing the file makes of it.
 */
module UpdateSession {
  import opened Bytes
  import opened SerialFlash
  import opened FlashProtocol

  /** A file operation; `Fault(left)` is a write of `|left|` bytes whose user copy fails and leaves `left` behind. */
  datatype Op = Read(len: nat) | Write(bytes: seq<byte>) | Fault(left: seq<byte>)

  /** The file cursor, the staging buffer and `size`, the cursor after the last write. */
  datatype Session = Session(off: nat, data: seq<byte>, size: nat)

  function Opened(): Session {
    Session(0, seq(CCAT_FLASH_SIZE, i => 0), 0)
  }

  predicate WellFormed(s: Session) {
    |s.data| == CCAT_FLASH_SIZE && s.off <= CCAT_FLASH_SIZE && s.size <= CCAT_FLASH_SIZE
  }

  predicate Accepts(off: nat, bytes: seq<byte>) {
    off + |bytes| <= CCAT_FLASH_SIZE
  }

  /** How far a read of `len` bytes moves the cursor. */
  function Clip(off: nat, len: nat): nat {
    if off >= CCAT_FLASH_SIZE then 0
    else if len <= CCAT_FLASH_SIZE - off then len
    else CCAT_FLASH_SIZE - off
  }

  function Apply(s: Session, op: Op): (s': Session)
    requires WellFormed(s)
    ensures WellFormed(s')
  {
    match op
    case Read(len) => s.(off := s.off + Clip(s.off, len))
    case Write(bytes) =>
      if Accepts(s.off, bytes)
      then Session(s.off + |bytes|, Overlay(s.data, s.off, bytes), s.off + |bytes|)
      else s
    case Fault(left) =>
      if Accepts(s.off, left) then s.(data := Overlay(s.data, s.off, left)) else s
  }

  function Replay(ops: seq<Op>): (s: Session)
    ensures WellFormed(s)
  {
    if ops == [] then Opened() else Apply(Replay(ops[..|ops| - 1]), ops[|ops| - 1])
  }

  /* ---- What a session leaves in the buffer, said without the buffer ---- */

  /** Some bytes and the position they go to. */
  type Store = (nat, seq<byte>)

  predicate Covers(st: Store, i: nat) {
    st.0 <= i < st.0 + |st.1|
  }

  /** Where an operation moves a cursor at `off`. */
  function Move(off: nat, op: Op): (off': nat)
    ensures off <= off'
  {
    match op
    case Read(len) => off + Clip(off, len)
    case Write(bytes) => if Accepts(off, bytes) then off + |bytes| else off
    case Fault(_) => off
  }

  /** What an operation at `off` writes, if it is accepted; a failed copy leaves its bytes without moving on. */
  function WriteOf(off: nat, op: Op): seq<Store> {
    if op.Write? && Accepts(off, op.bytes) then [(off, op.bytes)] else []
  }

  function StoreOf(off: nat, op: Op): seq<Store> {
    if op.Fault? && Accepts(off, op.left) then [(off, op.left)] else WriteOf(off, op)
  }

  /** Where the file cursor stands after `ops`. */
  function Cursor(ops: seq<Op>): nat {
    if ops == [] then 0 else Move(Cursor(ops[..|ops| - 1]), ops[|ops| - 1])
  }

  /** The accepted writes of a session. */
  function Accepted(ops: seq<Op>): seq<Store> {
    if ops == [] then []
    else Accepted(ops[..|ops| - 1]) + WriteOf(Cursor(ops[..|ops| - 1]), ops[|ops| - 1])
  }

  /** The same with the leftovers of failed user copies. */
  function Stores(ops: seq<Op>): seq<Store> {
    if ops == [] then []
    else Stores(ops[..|ops| - 1]) + StoreOf(Cursor(ops[..|ops| - 1]), ops[|ops| - 1])
  }

  /** The byte the last store covering position `i` put there; zero if none does. */
  function ByteAt(stores: seq<Store>, i: nat): byte {
    if stores == [] then 0
    else
      var last := stores[|stores| - 1];
      if Covers(last, i) then last.1[i - last.0] else ByteAt(stores[..|stores| - 1], i)
  }

  /** Where the last accepted write ended. */
  function EndOf(writes: seq<Store>): nat {
    if writes == [] then 0 else writes[|writes| - 1].0 + |writes[|writes| - 1].1|
  }

  function Concat(writes: seq<Store>): seq<byte> {
    if writes == [] then [] else Concat(writes[..|writes| - 1]) + writes[|writes| - 1].1
  }

  /** An accepted write carried the cursor over position `i`. */
  predicate WrittenBy(ops: seq<Op>, i: nat) {
    ops != [] &&
    var before := ops[..|ops| - 1];
    WrittenBy(before, i) || (ops[|ops| - 1].Write? && Cursor(before) <= i < Cursor(ops))
  }

  /** A read carried the cursor over position `i`. */
  predicate SkippedBy(ops: seq<Op>, i: nat) {
    ops != [] &&
    var before := ops[..|ops| - 1];
    SkippedBy(before, i) || (ops[|ops| - 1].Read? && Cursor(before) <= i < Cursor(ops))
  }

  lemma ByteAtAppend(stores: seq<Store>, st: Store, i: nat)
    ensures ByteAt(stores + [st], i) == if Covers(st, i) then st.1[i - st.0] else ByteAt(stores, i)
  {
    assert (stores + [st])[..|stores|] == stores;
  }

  /** What position `i` holds after at most one more store. */
  lemma ByteAtMore(stores: seq<Store>, more: seq<Store>, i: nat)
    requires |more| <= 1
    ensures ByteAt(stores + more, i)
         == if more != [] && Covers(more[0], i) then more[0].1[i - more[0].0] else ByteAt(stores, i)
  {
    if more == [] {
      assert stores + more == stores;
    } else {
      assert more == [more[0]];
      ByteAtAppend(stores, more[0], i);
    }
  }

  lemma {:induction false} ReplayCursor(ops: seq<Op>)
    ensures Replay(ops).off == Cursor(ops) <= CCAT_FLASH_SIZE
  {
    if ops != [] {
      ReplayCursor(ops[..|ops| - 1]);
    }
  }

  /** A read moves the cursor alone, by `len` or up to the end. */
  lemma ReadMoves(s: Session, len: nat)
    requires WellFormed(s)
    ensures var s' := Apply(s, Read(len));
            && s'.data == s.data && s'.size == s.size
            && s.off <= s'.off <= s.off + len && (s'.off == s.off + len || s'.off == CCAT_FLASH_SIZE)
  {
  }

  lemma AppendReplay(ops: seq<Op>, op: Op)
    ensures Replay(ops + [op]) == Apply(Replay(ops), op)
  {
    assert (ops + [op])[..|ops|] == ops;
  }

  lemma ReadCursor(ops: seq<Op>, len: nat)
    ensures var off, off' := Replay(ops).off, Replay(ops + [Read(len)]).off;
            && off' == off + Clip(off, len) <= CCAT_FLASH_SIZE
            && off' <= off + len && (off' == off + len || off' == CCAT_FLASH_SIZE)
  {
    AppendReplay(ops, Read(len));
    ReadMoves(Replay(ops), len);
  }

  lemma ApplyByte(s: Session, op: Op, i: nat)
    requires WellFormed(s) && i < CCAT_FLASH_SIZE
    ensures Apply(s, op).data[i]
         == if StoreOf(s.off, op) != [] && Covers(StoreOf(s.off, op)[0], i)
            then StoreOf(s.off, op)[0].1[i - s.off] else s.data[i]
  {
  }

  lemma ByteAfter(s: Session, stores: seq<Store>, op: Op, i: nat)
    requires WellFormed(s) && i < CCAT_FLASH_SIZE && s.data[i] == ByteAt(stores, i)
    ensures Apply(s, op).data[i] == ByteAt(stores + StoreOf(s.off, op), i)
  {
    ApplyByte(s, op, i);
    ByteAtMore(stores, StoreOf(s.off, op), i);
  }

  lemma {:induction false} SessionByte(ops: seq<Op>, i: nat)
    requires i < CCAT_FLASH_SIZE
    ensures Replay(ops).data[i] == ByteAt(Stores(ops), i)
  {
    if ops != [] {
      var before, op := ops[..|ops| - 1], ops[|ops| - 1];
      SessionByte(before, i);
      ByteAfter(Replay(before), Stores(before), op, i);
      ReplayCursor(before);
    }
  }

  lemma {:induction false} SessionSize(ops: seq<Op>)
    ensures Replay(ops).size == EndOf(Accepted(ops)) <= Cursor(ops)
  {
    if ops != [] {
      var before, op := ops[..|ops| - 1], ops[|ops| - 1];
      ReplayCursor(before);
      SessionSize(before);
      assert WriteOf(Cursor(before), op) == [] ==> Accepted(ops) == Accepted(before);
    }
  }

  /* ---- Accepted writes and skipping reads tile what lies below the cursor ---- */

  lemma {:induction false} AcceptedBelowCursor(ops: seq<Op>, i: nat)
    requires i < |Accepted(ops)|
    ensures Accepted(ops)[i].0 + |Accepted(ops)[i].1| <= Cursor(ops)
  {
    if ops != [] && i < |Accepted(ops[..|ops| - 1])| {
      AcceptedBelowCursor(ops[..|ops| - 1], i);
    }
  }

  /** The accepted writes are disjoint and go upwards: one ends before the next begins. */
  lemma {:induction false} AcceptedUpwards(ops: seq<Op>, i: nat, j: nat)
    requires i < j < |Accepted(ops)|
    ensures Accepted(ops)[i].0 + |Accepted(ops)[i].1| <= Accepted(ops)[j].0
  {
    var before := ops[..|ops| - 1];
    if j < |Accepted(before)| {
      AcceptedUpwards(before, i, j);
    } else {
      AcceptedBelowCursor(before, i);
    }
  }

  /** Every position below the cursor was passed by an accepted write or skipped by a read, and not both. */
  lemma {:induction false} WrittenOrSkipped(ops: seq<Op>, i: nat)
    ensures WrittenBy(ops, i) || SkippedBy(ops, i) <==> i < Cursor(ops)
    ensures !(WrittenBy(ops, i) && SkippedBy(ops, i))
  {
    if ops != [] {
      WrittenOrSkipped(ops[..|ops| - 1], i);
    }
  }

  /** Where a write has passed, what failed copies left behind does not show. */
  lemma {:induction false} WrittenShowsWrite(ops: seq<Op>, i: nat)
    requires WrittenBy(ops, i)
    ensures ByteAt(Stores(ops), i) == ByteAt(Accepted(ops), i)
  {
    var before, op := ops[..|ops| - 1], ops[|ops| - 1];
    ByteAtMore(Stores(before), StoreOf(Cursor(before), op), i);
    ByteAtMore(Accepted(before), WriteOf(Cursor(before), op), i);
    if WrittenBy(before, i) {
      WrittenOrSkipped(before, i);
      WrittenShowsWrite(before, i);
    }
  }

  /** Elsewhere no accepted write put a byte. */
  lemma {:induction false} UnwrittenIsZero(ops: seq<Op>, i: nat)
    requires !WrittenBy(ops, i)
    ensures ByteAt(Accepted(ops), i) == 0
  {
    if ops != [] {
      var before, op := ops[..|ops| - 1], ops[|ops| - 1];
      ByteAtMore(Accepted(before), WriteOf(Cursor(before), op), i);
      UnwrittenIsZero(before, i);
    }
  }

  /* ---- The image a session leaves ---- */

  /** What the host sees in the flash after a session with `size > 0` is closed. */
  function Flashed(s: Session, capacity: nat): (image: seq<byte>)
    requires WellFormed(s) && CCAT_FLASH_SIZE <= capacity
    ensures |image| == capacity
  {
    Laid(s.data, s.size, capacity)
  }

  lemma FlashedByte(ops: seq<Op>, capacity: nat, i: nat)
    requires CCAT_FLASH_SIZE <= capacity && i < EndOf(Accepted(ops))
    ensures EndOf(Accepted(ops)) <= CCAT_FLASH_SIZE
    ensures Flashed(Replay(ops), capacity)[i] == ByteAt(Stores(ops), i)
    ensures WrittenBy(ops, i) ==> ByteAt(Stores(ops), i) == ByteAt(Accepted(ops), i)
  {
    SessionSize(ops);
    ReplayCursor(ops);
    SessionByte(ops, i);
    if WrittenBy(ops, i) {
      WrittenShowsWrite(ops, i);
    }
  }

  /**
   * The flash image after any session of reads and writes on one cursor: where a write passed, the bytes of that
   * write; where a read skipped, zero or what a failed copy had left there; cut where the last accepted write
   * ended, then erased bytes.
   */
  lemma SessionImage(ops: seq<Op>, capacity: nat)
    requires CCAT_FLASH_SIZE <= capacity
    ensures var image, end := Flashed(Replay(ops), capacity), EndOf(Accepted(ops));
            && end <= CCAT_FLASH_SIZE
            && (forall i :: 0 <= i < end ==>
                  image[i] == if WrittenBy(ops, i) then ByteAt(Accepted(ops), i) else ByteAt(Stores(ops), i))
            && (forall i :: end <= i < capacity ==> image[i] == ERASED)
  {
    SessionSize(ops);
    ReplayCursor(ops);
    var image := Flashed(Replay(ops), capacity);
    forall i | 0 <= i < EndOf(Accepted(ops))
      ensures image[i] == if WrittenBy(ops, i) then ByteAt(Accepted(ops), i) else ByteAt(Stores(ops), i)
    {
      FlashedByte(ops, capacity, i);
    }
  }

  predicate FaultFree(ops: seq<Op>) {
    forall i :: 0 <= i < |ops| ==> !ops[i].Fault?
  }

  lemma {:induction false} FaultFreeStores(ops: seq<Op>)
    requires FaultFree(ops)
    ensures Stores(ops) == Accepted(ops)
  {
    if ops != [] {
      FaultFreeStores(ops[..|ops| - 1]);
    }
  }

  /** Without failing copies every byte below the end is that of the one write that passed there, or zero. */
  lemma FaultFreeImage(ops: seq<Op>, capacity: nat, i: nat)
    requires FaultFree(ops) && CCAT_FLASH_SIZE <= capacity && i < EndOf(Accepted(ops))
    ensures i < capacity
    ensures Flashed(Replay(ops), capacity)[i] == ByteAt(Accepted(ops), i)
    ensures SkippedBy(ops, i) ==> Flashed(Replay(ops), capacity)[i] == 0
  {
    FlashedByte(ops, capacity, i);
    FaultFreeStores(ops);
    if SkippedBy(ops, i) {
      WrittenOrSkipped(ops, i);
      UnwrittenIsZero(ops, i);
    }
  }

  predicate ReadFree(ops: seq<Op>) {
    forall i :: 0 <= i < |ops| ==> !ops[i].Read?
  }

  lemma ConcatAppend(writes: seq<Store>, st: Store)
    ensures Concat(writes + [st]) == Concat(writes) + st.1
  {
    assert (writes + [st])[..|writes|] == writes;
  }

  /** Without reads, the bytes to be flashed are the accepted writes one after the other, whatever copies failed. */
  lemma {:induction false} ReadFreeContents(ops: seq<Op>)
    requires ReadFree(ops)
    ensures var s := Replay(ops);
            s.off == s.size && s.data[..s.size] == Concat(Accepted(ops))
  {
    if ops != [] {
      var before, op := ops[..|ops| - 1], ops[|ops| - 1];
      ReadFreeContents(before);
      ReplayCursor(before);
      if WriteOf(Cursor(before), op) == [] {
        assert Accepted(ops) == Accepted(before);
      } else {
        ConcatAppend(Accepted(before), (Cursor(before), op.bytes));
      }
    }
  }

  /* ---- Failed copies ---- */

  function WithoutFaults(ops: seq<Op>): (kept: seq<Op>)
    ensures FaultFree(kept)
  {
    if ops == [] then []
    else WithoutFaults(ops[..|ops| - 1]) + if ops[|ops| - 1].Fault? then [] else [ops[|ops| - 1]]
  }

  lemma AppendOp(ops: seq<Op>, op: Op)
    ensures Cursor(ops + [op]) == Move(Cursor(ops), op)
    ensures Accepted(ops + [op]) == Accepted(ops) + WriteOf(Cursor(ops), op)
  {
    assert (ops + [op])[..|ops|] == ops;
  }

  lemma {:induction false} WithoutFaultsSame(ops: seq<Op>)
    ensures Cursor(WithoutFaults(ops)) == Cursor(ops)
    ensures Accepted(WithoutFaults(ops)) == Accepted(ops)
  {
    if ops != [] {
      var before, op := ops[..|ops| - 1], ops[|ops| - 1];
      WithoutFaultsSame(before);
      if op.Fault? {
        assert WithoutFaults(ops) == WithoutFaults(before) && Accepted(ops) == Accepted(before);
      } else {
        AppendOp(WithoutFaults(before), op);
      }
    }
  }

  lemma WithoutFaultsByte(ops: seq<Op>, i: nat)
    requires i < Cursor(ops)
    ensures i < CCAT_FLASH_SIZE
    ensures Replay(ops).data[i] == ByteAt(Stores(ops), i)
    ensures Replay(WithoutFaults(ops)).data[i] == if SkippedBy(ops, i) then 0 else ByteAt(Stores(ops), i)
  {
    ReplayCursor(ops);
    WithoutFaultsSame(ops);
    FaultFreeStores(WithoutFaults(ops));
    SessionByte(ops, i);
    SessionByte(WithoutFaults(ops), i);
    WrittenOrSkipped(ops, i);
    if WrittenBy(ops, i) {
      WrittenShowsWrite(ops, i);
    } else {
      UnwrittenIsZero(ops, i);
    }
  }

  /** Position `i` shows what a failed copy left there. */
  predicate ShowsLeftover(ops: seq<Op>, i: nat) {
    SkippedBy(ops, i) && ByteAt(Stores(ops), i) != 0
  }

  lemma LaidEqual(a: seq<byte>, b: seq<byte>, end: nat, capacity: nat)
    requires end <= |a| && end <= |b| && end <= capacity
    ensures Laid(a, end, capacity) == Laid(b, end, capacity) <==> forall i :: 0 <= i < end ==> a[i] == b[i]
  {
    if Laid(a, end, capacity) == Laid(b, end, capacity) {
      forall i | 0 <= i < end
        ensures a[i] == b[i]
      {
        assert Laid(a, end, capacity)[i] == a[i] && Laid(b, end, capacity)[i] == b[i];
      }
    }
  }

  /**
   * Failed writes leave the flash as if they had never been made if and only if no read carries the cursor over
   * nonzero bytes their copies left behind.
   */
  lemma FaultsLeaveNoTrace(ops: seq<Op>, capacity: nat)
    requires CCAT_FLASH_SIZE <= capacity
    ensures Flashed(Replay(ops), capacity) == Flashed(Replay(WithoutFaults(ops)), capacity)
       <==> forall i :: 0 <= i < EndOf(Accepted(ops)) ==> !ShowsLeftover(ops, i)
  {
    var clean, end := WithoutFaults(ops), EndOf(Accepted(ops));
    WithoutFaultsSame(ops);
    SessionSize(ops);
    SessionSize(clean);
    var a, b := Replay(ops).data, Replay(clean).data;
    forall i | 0 <= i < end
      ensures a[i] == b[i] <==> !ShowsLeftover(ops, i)
    {
      WithoutFaultsByte(ops, i);
    }
    LaidEqual(a, b, end, capacity);
  }

  /** A trace: a failed write, a read over it and a write of no bytes flash exactly the bytes the write left. */
  lemma FaultThenRead(left: seq<byte>)
    requires |left| <= CCAT_FLASH_SIZE
    ensures Replay([Fault(left), Read(|left|), Write([])]) == Session(|left|, Overlay(Opened().data, 0, left), |left|)
  {
    var data := Overlay(Opened().data, 0, left);
    AppendReplay([], Fault(left));
    assert [] + [Fault(left)] == [Fault(left)];
    assert Replay([Fault(left)]) == Session(0, data, 0);
    AppendReplay([Fault(left)], Read(|left|));
    assert [Fault(left)] + [Read(|left|)] == [Fault(left), Read(|left|)];
    assert Replay([Fault(left), Read(|left|)]) == Session(|left|, data, 0);
    AppendReplay([Fault(left), Read(|left|)], Write([]));
    assert [Fault(left), Read(|left|)] + [Write([])] == [Fault(left), Read(|left|), Write([])];
    assert Overlay(data, |left|, []) == data;
  }

  /**
   * Reading moves the same cursor a write then takes for the size: a read followed by a write of no bytes makes
   * release erase the flash and store as many zero bytes as were read.
   */
  lemma EmptyWriteAfterRead(len: nat)
    ensures Replay([Read(len), Write([])]) == Session(Clip(0, len), Opened().data, Clip(0, len))
  {
    var ops := [Read(len), Write([])];
    assert ops[..1] == [Read(len)] && ops[..1][..0] == [];
    assert Replay(ops[..1]) == Opened().(off := Clip(0, len));
  }

  /* ---- What closing the file does to the flash ---- */

  /** The erase and program cycles closing the file issues. */
  function SessionCycles(s: Session): seq<Cycle>
    requires WellFormed(s)
  {
    if s.size == 0 then [] else [Erase] + Tiles(0, s.data[..s.size])
  }

  /** The host's image with `s` flashed into it, if it has anything to flash. */
  function ImageAfter(image: seq<byte>, s: Session): (image': seq<byte>)
    requires WellFormed(s) && CCAT_FLASH_SIZE <= |image|
    ensures |image'| == |image|
  {
    if s.size == 0 then image else Flashed(s, |image|)
  }

  /** After the erase, what the chip held before does not matter. */
  lemma FirstErase(image: seq<byte>, tiles: seq<Cycle>)
    ensures CyclesEffect(image, [Erase] + tiles) == CyclesEffect(Blank(|image|), tiles)
  {
    EffectConcat(image, [Erase], tiles);
    EffectOne(image, Erase);
  }

  lemma LaidCut(data: seq<byte>, size: nat, end: nat, capacity: nat)
    requires end <= size <= |data| && size <= capacity
    ensures Laid(data[..size], end, capacity) == Laid(data, end, capacity)
  {
    assert data[..size][..end] == data[..end];
  }

  /** All programs of a write lay down all of it. */
  lemma AllTilesLay(data: seq<byte>, capacity: nat)
    requires 0 < |data| <= capacity
    ensures CyclesEffect(Blank(capacity), Tiles(0, data)) == Laid(data, |data|, capacity)
  {
    var tiles := Tiles(0, data);
    TilesCounted(0, data);
    assert tiles[..|tiles|] == tiles;
    TilesLay(data, |tiles|, capacity);
  }

  /** The cycles of a session leave the image of the session, whatever the flash held before. */
  lemma SessionEffect(image: seq<byte>, s: Session)
    requires WellFormed(s) && CCAT_FLASH_SIZE <= |image|
    ensures CyclesEffect(image, SessionCycles(s)) == ImageAfter(image, s)
  {
    if s.size > 0 {
      var data := s.data[..s.size];
      FirstErase(image, Tiles(0, data));
      AllTilesLay(data, |image|);
      LaidCut(s.data, s.size, s.size, |image|);
    }
  }

  /** A block of a write finds the chip erased in its place. */
  lemma TileFits(data: seq<byte>, i: nat, capacity: nat)
    requires 0 < |data| <= capacity && i < |Tiles(0, data)|
    ensures Tiles(0, data)[i].Page?
    ensures var Page(addr, block) := Tiles(0, data)[i];
            && 0 < |block| <= CCAT_WRITE_BLOCK_SIZE && addr % CCAT_WRITE_BLOCK_SIZE == 0 && addr + |block| <= capacity
            && forall p :: addr <= p < addr + |block| ==>
                 CyclesEffect(Blank(capacity), Tiles(0, data)[..i])[p] == ERASED
  {
    TilesExact(0, data, i);
    var image, start := CyclesEffect(Blank(capacity), Tiles(0, data)[..i]), Covered(|data|, i);
    assert image == Laid(data, start, capacity) by { TilesLay(data, i, capacity); }
    assert forall p :: start <= p < capacity ==> image[p] == ERASED;
  }

  /** Each program of a session finds the chip erased in its place, and stays inside one aligned block. */
  lemma SessionPageFits(image: seq<byte>, s: Session, k: nat)
    requires WellFormed(s) && CCAT_FLASH_SIZE <= |image| && k < |SessionCycles(s)| && SessionCycles(s)[k].Page?
    ensures var Page(addr, block) := SessionCycles(s)[k];
            && 0 < |block| <= CCAT_WRITE_BLOCK_SIZE && addr % CCAT_WRITE_BLOCK_SIZE == 0 && addr + |block| <= |image|
            && forall p :: addr <= p < addr + |block| ==> CyclesEffect(image, SessionCycles(s)[..k])[p] == ERASED
  {
    var data := s.data[..s.size];
    var tiles := Tiles(0, data);
    assert k > 0 && SessionCycles(s)[k] == tiles[k - 1] && SessionCycles(s)[..k] == [Erase] + tiles[..k - 1];
    FirstErase(image, tiles[..k - 1]);
    TileFits(data, k - 1, |image|);
  }
}
