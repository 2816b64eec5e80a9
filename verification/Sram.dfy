/** The SRAM device file: file operations through a shared staging buffer behave like a byte array and a cursor. */
module Sram {
  import opened Bytes

  datatype Whence = FromStart | FromCursor | FromEnd | Other

  /** A file operation; `fault` says that its user copy fails. */
  datatype Op =
    | Seek(offset: int, whence: Whence)
    | Read(len: nat, fault: bool)
    | Write(bytes: seq<byte>, fault: bool)

  /** What a file operation returns; Invalid is EINVAL and Faulted EFAULT. */
  datatype Answer = Moved(pos: nat) | Contents(bytes: seq<byte>) | Count(n: nat) | Invalid | Faulted

  /** A byte array with a cursor. */
  datatype Plain = Plain(mem: seq<byte>, off: nat)

  predicate InRange(p: Plain) {
    p.off <= |p.mem|
  }

  function Clip(p: Plain, len: nat): (n: nat)
    requires InRange(p)
    ensures p.off + n <= |p.mem|
  {
    if len <= |p.mem| - p.off then len else |p.mem| - p.off
  }

  /** Where a seek wants to go; nowhere inside the device for an unknown `whence`. */
  function Target(p: Plain, offset: int, whence: Whence): int {
    match whence
    case FromStart => offset
    case FromCursor => p.off + offset
    case FromEnd => |p.mem| + offset
    case Other => -1
  }

  /**
   * Reads are cut at the end; writes happen completely or not at all; a seek outside the device is refused; a
   * failing user copy leaves everything as it was.
   */
  function Perform(p: Plain, op: Op): (r: (Plain, Answer))
    requires InRange(p)
    ensures InRange(r.0) && |r.0.mem| == |p.mem|
  {
    match op
    case Seek(offset, whence) =>
      var pos := Target(p, offset, whence);
      if 0 <= pos <= |p.mem| then (p.(off := pos), Moved(pos)) else (p, Invalid)
    case Read(len, fault) =>
      if p.off == |p.mem| then (p, Contents([]))
      else if fault then (p, Faulted)
      else (p.(off := p.off + Clip(p, len)), Contents(p.mem[p.off..p.off + Clip(p, len)]))
    case Write(bytes, fault) =>
      if p.off + |bytes| > |p.mem| then (p, Count(0))
      else if fault then (p, Faulted)
      else (Plain(p.mem[..p.off] + bytes + p.mem[p.off + |bytes|..], p.off + |bytes|), Count(|bytes|))
  }

  function PerformAll(p: Plain, ops: seq<Op>): (r: (Plain, seq<Answer>))
    requires InRange(p)
    ensures InRange(r.0) && |r.0.mem| == |p.mem|
  {
    if ops == [] then (p, [])
    else
      var (q, answers) := PerformAll(p, ops[..|ops| - 1]);
      var (q', answer) := Perform(q, ops[|ops| - 1]);
      (q', answers + [answer])
  }

  class SramFile {
    const io: array<byte>
    const data: array<byte>
    var off: nat

    /** The staging buffer is not part of what a caller can see. */
    ghost function View(): Plain
      reads this, io
    {
      Plain(io[..], off)
    }

    ghost predicate Valid()
      reads this, io
    {
      data.Length == io.Length && data != io && InRange(View())
    }

    constructor (io: array<byte>)
      ensures Valid() && this.io == io && fresh(data) && off == 0
    {
      this.io := io;
      data := new byte[io.Length](i => 0);
      off := 0;
    }

    /** memcpy_fromio and memcpy_toio */
    static method Copy(dst: array<byte>, to: nat, src: array<byte>, from: nat, len: nat)
      requires dst != src && to + len <= dst.Length && from + len <= src.Length
      modifies dst
      ensures dst[..] == old(dst[..])[..to] + src[from..from + len] + old(dst[..])[to + len..]
    {
      for i := 0 to len
        invariant dst[..to + i] == old(dst[..])[..to] + src[from..from + i]
        invariant dst[to + i..] == old(dst[..])[to + i..]
      {
        dst[to + i] := src[from + i];
      }
    }

    /** ccat_cdev_llseek: fixed_size_llseek of the kernel, over the size of the device. */
    method SeekTo(offset: int, whence: Whence) returns (answer: Answer)
      requires Valid()
      modifies this
      ensures Valid() && (View(), answer) == Perform(old(View()), Seek(offset, whence))
      ensures whence.FromStart? && 0 <= offset <= io.Length ==> off == offset
      ensures whence.FromCursor? && 0 <= old(off) + offset <= io.Length ==> off == old(off) + offset
      ensures whence.FromEnd? && 0 <= io.Length + offset <= io.Length ==> off == io.Length + offset
      ensures answer == Moved(off) || (answer == Invalid && off == old(off))
      ensures answer == Invalid <==>
                match whence
                case FromStart => !(0 <= offset <= io.Length)
                case FromCursor => !(0 <= old(off) + offset <= io.Length)
                case FromEnd => !(-io.Length <= offset <= 0)
                case Other => true
    {
      var pos := offset;
      match whence {
        case FromStart =>
        case FromCursor => pos := off + offset;
        case FromEnd => pos := io.Length + offset;
        case Other => return Invalid;
      }
      if pos < 0 || pos > io.Length {
        return Invalid;
      }
      off := pos;
      return Moved(pos);
    }

    /** ccat_sram_read; a failing user copy changes nothing a caller can see. */
    method ReadAt(len: nat, fault: bool) returns (answer: Answer)
      requires Valid()
      modifies this, data
      ensures Valid() && (View(), answer) == Perform(old(View()), Read(len, fault))
      ensures io[..] == old(io[..])
      ensures if fault && old(off) < io.Length then answer == Faulted && off == old(off)
              else && answer.Contents? && |answer.bytes| <= len
                   && off == old(off) + |answer.bytes| && answer.bytes == io[old(off)..off]
                   && (|answer.bytes| == len || off == io.Length)
    {
      if off >= io.Length {
        return Contents([]);
      }
      var n := if len <= io.Length - off then len else io.Length - off;
      Copy(data, 0, io, off, n);
      if fault {
        return Faulted;
      }
      var buf := data[..n];
      assert buf == io[..][off..off + n];
      off := off + n;
      return Contents(buf);
    }

    /** ccat_sram_write; a failing user copy changes nothing a caller can see. */
    method WriteAt(buf: seq<byte>, fault: bool) returns (answer: Answer)
      requires Valid()
      modifies this, data, io
      ensures Valid() && (View(), answer) == Perform(old(View()), Write(buf, fault))
      ensures old(off) + |buf| > io.Length || fault ==>
                && answer == (if old(off) + |buf| > io.Length then Count(0) else Faulted)
                && off == old(off) && io[..] == old(io[..])
      ensures old(off) + |buf| <= io.Length && !fault ==>
                && answer == Count(|buf|) && off == old(off) + |buf| && io[old(off)..off] == buf
                && io[..old(off)] == old(io[..])[..old(off)] && io[off..] == old(io[..])[off..]
    {
      if off + |buf| > io.Length {
        return Count(0);
      }
      for i := 0 to |buf|
        invariant data[..i] == buf[..i] && io[..] == old(io[..]) && off == old(off)
      {
        data[i] := buf[i];
      }
      if fault {
        return Faulted;
      }
      assert data[0..|buf|] == buf;
      Copy(io, off, data, 0, |buf|);
      off := off + |buf|;
      return Count(|buf|);
    }

    method Serve(op: Op) returns (answer: Answer)
      requires Valid()
      modifies this, data, io
      ensures Valid() && (View(), answer) == Perform(old(View()), op)
    {
      match op
      case Seek(offset, whence) => answer := SeekTo(offset, whence);
      case Read(len, fault) => answer := ReadAt(len, fault);
      case Write(bytes, fault) => answer := WriteAt(bytes, fault);
    }

    /** What was written is what a read finds after seeking back, wherever the cursor stood. */
    method WriteAndReadBack(buf: seq<byte>) returns (answer: Answer)
      requires Valid() && off + |buf| <= io.Length
      modifies this, data, io
      ensures Valid() && answer == Contents(buf) && off == old(off) + |buf|
    {
      var written := WriteAt(buf, false);
      var moved := SeekTo(-|buf|, FromCursor);
      answer := ReadAt(|buf|, false);
    }

    /** Reads of any sizes concatenate to the contents from the cursor on; enough of them reach the end. */
    method ReadOn(lens: seq<nat>) returns (got: seq<byte>)
      requires Valid()
      modifies this, data
      ensures Valid() && io[..] == old(io[..]) && old(off) <= off && got == io[old(off)..off]
      ensures (forall k :: 0 <= k < |lens| ==> lens[k] > 0) && io.Length - old(off) <= |lens| ==> off == io.Length
    {
      got := [];
      for k := 0 to |lens|
        invariant Valid() && io[..] == old(io[..]) && old(off) <= off && got == io[old(off)..off]
        invariant (forall i :: 0 <= i < |lens| ==> lens[i] > 0) ==> off >= old(off) + k || off == io.Length
      {
        var answer := ReadAt(lens[k], false);
        got := got + answer.bytes;
      }
    }

    /**
     * Every run of seeks, reads and writes gives the answers of a plain byte array with a cursor: one answer per
     * operation, each from the state the one before left (`views`).
     */
    method RunAll(ops: seq<Op>) returns (answers: seq<Answer>, ghost views: seq<Plain>)
      requires Valid()
      modifies this, data, io
      ensures Valid() && (View(), answers) == PerformAll(old(View()), ops)
      ensures |answers| == |ops| && |views| == |ops| + 1 && views[0] == old(View()) && views[|ops|] == View()
      ensures forall k :: 0 <= k < |ops| ==>
                InRange(views[k]) && (views[k + 1], answers[k]) == Perform(views[k], ops[k])
    {
      answers, views := [], [View()];
      for k := 0 to |ops|
        invariant Valid() && (View(), answers) == PerformAll(old(View()), ops[..k])
        invariant |answers| == k && |views| == k + 1 && views[0] == old(View()) && views[k] == View()
        invariant forall i :: 0 <= i < k ==>
                    InRange(views[i]) && (views[i + 1], answers[i]) == Perform(views[i], ops[i])
      {
        assert ops[..k + 1] == ops[..k] + [ops[k]] && (ops[..k] + [ops[k]])[..k] == ops[..k];
        var answer := Serve(ops[k]);
        answers, views := answers + [answer], views + [View()];
      }
      assert ops[..|ops|] == ops;
    }
  }
}
