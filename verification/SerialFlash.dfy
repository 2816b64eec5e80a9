/**
 * The serial NOR flash behind the update function. It sees each byte most significant bit first, while the shift
 * engine sends and stores bytes least significant bit first, so every byte crosses the wire bit-reversed.
 */
module SerialFlash {
  import opened Bytes

  const PAGE_SIZE: nat := 256
  const ERASED: byte := 0xff

  const OP_PROGRAM: byte := 0x02
  const OP_READ: byte := 0x03
  const OP_READ_STATUS: byte := 0x05
  const OP_WRITE_ENABLE: byte := 0x06
  const OP_BULK_ERASE: byte := 0xc7

  function Reverse(b: byte): byte {
    ((b & 0x01) << 7) | ((b & 0x02) << 5) | ((b & 0x04) << 3) | ((b & 0x08) << 1)
    | ((b & 0x10) >> 1) | ((b & 0x20) >> 3) | ((b & 0x40) >> 5) | ((b & 0x80) >> 7)
  }

  /** The SWAP_BITS macro: a multiply-and-mask bit reversal in unsigned long arithmetic, cut to a byte. */
  function SwapBits(b: byte): byte {
    var x := b as bv64;
    var spread := ((x * 0x0802) & 0x22110) | ((x * 0x8020) & 0x88440);
    (((spread * 0x10101) >> 16) & 0xff) as bv8
  }

  /** The same macro where unsigned long has 32 bits and the last product wraps. */
  function SwapBits32(b: byte): byte {
    var x := b as bv32;
    var spread := ((x * 0x0802) & 0x22110) | ((x * 0x8020) & 0x88440);
    (((spread * 0x10101) >> 16) & 0xff) as bv8
  }

  lemma SwapBitsReverses(b: byte)
    ensures SwapBits(b) == Reverse(b) == SwapBits32(b)
    ensures Reverse(Reverse(b)) == b
  {
  }

  lemma ReverseTwice(b: byte)
    ensures Reverse(Reverse(b)) == b
  {
  }

  lemma ErasedAnd(b: byte)
    ensures ERASED & b == b
  {
  }

  function ReverseAll(s: seq<byte>): (r: seq<byte>)
    ensures |r| == |s|
    ensures forall i :: 0 <= i < |s| ==> r[i] == Reverse(s[i])
  {
    seq(|s|, i requires 0 <= i < |s| => Reverse(s[i]))
  }

  lemma ReverseAllTwice(s: seq<byte>)
    ensures ReverseAll(ReverseAll(s)) == s
  {
    forall i | 0 <= i < |s|
      ensures ReverseAll(ReverseAll(s))[i] == s[i]
    {
      ReverseTwice(s[i]);
    }
  }

  /**
   * The number a byte stands for, and the byte for a number. Both count, because the built-in conversions between
   * integers and bit-vectors cost the verifier more than the induction; ValueIsNat and ToByteIsNat say that the
   * results are those of `as nat` and `as bv8`.
   */
  function Value(b: byte): (x: nat)
    decreases b as nat
  {
    if b == 0 then 0 else Value(b - 1) + 1
  }

  function ToByte(x: nat): (b: byte)
    requires x < 256
  {
    if x == 0 then 0 else ToByte(x - 1) + 1
  }

  lemma {:induction false} ValueIsNat(b: byte)
    ensures Value(b) == b as nat
    decreases b as nat
  {
    if b != 0 {
      ValueIsNat(b - 1);
    }
  }

  lemma {:induction false} ToByteIsNat(x: nat)
    requires x < 256
    ensures ToByte(x) as nat == x
  {
    if x != 0 {
      ToByteIsNat(x - 1);
    }
  }

  lemma ByteRoundTrip(x: nat)
    requires x < 256
    ensures Value(ToByte(x)) == x
  {
    ToByteIsNat(x);
    ValueIsNat(ToByte(x));
  }

  /** `busy` counts the status reads that will still find an erase or program cycle in progress. */
  datatype Flash = Flash(mem: seq<byte>, writeEnabled: bool, busy: nat)

  function AddressOf(cmd: seq<byte>): nat
    requires |cmd| >= 4
  {
    Value(cmd[1]) * 0x10000 + Value(cmd[2]) * 0x100 + Value(cmd[3])
  }

  /** Addresses beyond the capacity start over. */
  function Wrap(addr: nat, capacity: nat): nat
    requires capacity > 0
  {
    if addr < capacity then addr else addr % capacity
  }

  /** Page program: bits can only be cleared, and addresses wrap inside the 256-byte page. */
  function Program(mem: seq<byte>, addr: nat, data: seq<byte>): (mem': seq<byte>)
    ensures |mem'| == |mem|
  {
    seq(|mem|, p requires 0 <= p < |mem| =>
      var k := (p - addr) % PAGE_SIZE;
      if p / PAGE_SIZE == addr / PAGE_SIZE && k < |data| then mem[p] & data[k] else mem[p])
  }

  function Blank(n: nat): (mem: seq<byte>)
    ensures |mem| == n && forall i :: 0 <= i < n ==> mem[i] == ERASED
  {
    seq(n, i => ERASED)
  }

  /** One transaction; `duration` is how long an erase or program cycle will take. */
  function Execute(f: Flash, cmd: seq<byte>, duration: nat): (f': Flash)
    ensures |f'.mem| == |f.mem|
  {
    if cmd == [] then f
    else if cmd[0] == OP_READ_STATUS then (if f.busy == 0 then f else f.(busy := f.busy - 1))
    else if f.busy > 0 then f
    else if cmd[0] == OP_WRITE_ENABLE && |cmd| == 1 then f.(writeEnabled := true)
    else if !f.writeEnabled then f
    else if cmd[0] == OP_BULK_ERASE && |cmd| == 1 then Flash(Blank(|f.mem|), false, duration)
    else if cmd[0] == OP_PROGRAM && |cmd| > 4 && |f.mem| > 0 then
      Flash(Program(f.mem, Wrap(AddressOf(cmd), |f.mem|), cmd[4..]), false, duration)
    else f
  }

  function Status(f: Flash): byte {
    (if f.busy > 0 then 0x01 else 0x00) | (if f.writeEnabled then 0x02 else 0x00)
  }

  function ReplyByte(f: Flash, cmd: seq<byte>, k: nat): byte
    requires k < |cmd|
  {
    if cmd[0] == OP_READ_STATUS then (if k == 0 then 0 else Status(f))
    else if cmd[0] == OP_READ && k >= 4 && f.busy == 0 && |f.mem| > 0 then
      f.mem[Wrap(AddressOf(cmd) + (k - 4), |f.mem|)]
    else 0
  }

  /** What the flash shifts out while it receives `cmd`. */
  function Reply(f: Flash, cmd: seq<byte>): (r: seq<byte>)
    ensures |r| == |cmd|
  {
    seq(|cmd|, k requires 0 <= k < |cmd| => ReplyByte(f, cmd, k))
  }

  /** A program that stays inside one page and hits erased bytes only stores its data as given. */
  lemma ProgramErased(mem: seq<byte>, addr: nat, data: seq<byte>)
    requires addr + |data| <= |mem| && addr % PAGE_SIZE + |data| <= PAGE_SIZE
    requires forall i :: addr <= i < addr + |data| ==> mem[i] == ERASED
    ensures Program(mem, addr, data) == mem[..addr] + data + mem[addr + |data|..]
  {
    var mem', want := Program(mem, addr, data), mem[..addr] + data + mem[addr + |data|..];
    forall p | 0 <= p < |mem|
      ensures mem'[p] == want[p]
    {
      var k := (p - addr) % PAGE_SIZE;
      if addr <= p < addr + |data| {
        assert p / PAGE_SIZE == addr / PAGE_SIZE && k == p - addr;
        ErasedAnd(data[k]);
      } else if p / PAGE_SIZE == addr / PAGE_SIZE {
        assert k >= |data|;
      }
    }
  }
}
