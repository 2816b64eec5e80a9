/** The driver's receive path as code over the shared ring, with the device stepping between any two accesses. */
module RxDriver {
  import opened Bytes
  import opened Ring
  import opened Descriptors
  import opened RxSystem

  /** FIFO_LENGTH / 2 */
  const RX_PER_POLL: nat := 32

  function Min(a: int, b: int): (m: int)
    ensures m <= a && m <= b && (m == a || m == b)
  {
    if a <= b then a else b
  }

  class RxFifo {
    // Ring memory, written by driver and device.
    const mem: array<Slot>
    const start: int
    const end: int

    // Driver state.
    var next: int
    var bytes: nat
    var dropped: nat

    // Device state: the descriptor FIFO behind `reg`, and the frame being stored.
    var fifo: seq<nat>
    var fill: Fill

    // History.
    ghost var resetting: bool
    ghost var phase: Phase
    ghost var written: seq<Frame>
    ghost var log: seq<Outcome>
    ghost var mark: nat
    ghost var run: seq<State>

    function Index(): nat
      reads this`next
    {
      if next < start then 0 else (next - start) / SLOT_SIZE
    }

    ghost function View(): State
      reads this, mem
    {
      State(mem[..], Index(), resetting, phase, fifo, fill, written, log, mark, bytes, dropped)
    }

    /** `next` is the address of a slot. */
    ghost predicate Placed()
      reads this`next
    {
      && end == RingEnd(start, SLOT_SIZE * mem.Length)
      && next == start + SLOT_SIZE * Index() && Index() < mem.Length
    }

    /** The history is a run of the transition system that ends in the present state. */
    ghost predicate Valid()
      reads this, mem
    {
      Placed() && IsRun(run) && run[|run| - 1] == View()
    }

    /** Between two driver calls. */
    ghost predicate AtRest()
      reads this, mem
    {
      Valid() && phase == Idle && !resetting
    }

    /** A ring over freshly allocated memory with any contents; PostAll completes its first reset. */
    constructor (start: int, contents: seq<Slot>)
      requires 1 <= |contents| <= MAX_SLOTS
      requires forall i :: 0 <= i < |contents| ==> |contents[i].data| == MAX_PAYLOAD_SIZE
      ensures Valid() && fresh(mem) && mem.Length == |contents|
      ensures phase == Idle && resetting && next == this.start && log == [] && mark == 0
    {
      this.start := start;
      end := RingEnd(start, SLOT_SIZE * |contents|);
      mem := new Slot[|contents|](i requires 0 <= i < |contents| => contents[i]);
      next, bytes, dropped := start, 0, 0;
      fifo, fill := [], NoFill;
      resetting, phase, written, log, mark := true, Idle, [], [], 0;
      new;
      run := [View()];
    }

    /** Appends the present state, reached from `s` by event `e`, to the history. */
    ghost method Record(s: State, e: Event)
      requires Placed() && IsRun(run) && run[|run| - 1] == s
      requires Enabled(s, e) && View() == Next(s, e)
      modifies this`run
      ensures Valid() && run == old(run) + [View()] && View() == old(View())
    {
      ExtendRun(run, e);
      run := run + [View()];
    }

    /** The device stores the payload of an incoming frame in the slot of its oldest descriptor. */
    method StoreData(f: Frame)
      requires Valid() && fifo != [] && fill == NoFill && IsFrame(f)
      modifies this`fill, this`run, mem
      ensures Valid() && old(run) <= run
      ensures DeviceOnly(old(View()), View())
    {
      ghost var s := View();
      LastHead(run);
      DeviceStepIsDeviceOnly(s, DeviceData(f));
      var i := RxSlotOf(fifo[0]);
      mem[i] := mem[i].(data := f + mem[i].data[|f|..]);
      fill := WroteData(f);
      Record(s, DeviceData(f));
    }

    method StoreLength()
      requires Valid() && fifo != [] && fill.WroteData?
      modifies this`fill, this`run, mem
      ensures Valid() && old(run) <= run
      ensures DeviceOnly(old(View()), View())
    {
      ghost var s := View();
      LastHead(run);
      DeviceStepIsDeviceOnly(s, DeviceLength);
      var i := RxSlotOf(fifo[0]);
      mem[i] := mem[i].(length := |fill.frame| + RX_OVERHEAD);
      fill := WroteLength(fill.frame);
      Record(s, DeviceLength);
    }

    method StoreFlag()
      requires Valid() && fifo != [] && fill.WroteLength?
      modifies this`fifo, this`fill, this`written, this`run, mem
      ensures Valid() && old(run) <= run
      ensures DeviceOnly(old(View()), View())
    {
      ghost var s := View();
      LastHead(run);
      DeviceStepIsDeviceOnly(s, DeviceFlag);
      var i := RxSlotOf(fifo[0]);
      mem[i] := mem[i].(received := true);
      written := written + [fill.frame];
      fill := NoFill;
      fifo := fifo[1..];
      Record(s, DeviceFlag);
    }

    /** Any number of device steps, with any incoming frames. */
    method Device()
      requires Valid()
      modifies this`fifo, this`fill, this`written, this`run, mem
      ensures Valid() && old(run) <= run
      ensures DeviceOnly(old(View()), View())
    {
      var steps: nat := *;
      while steps > 0
        invariant Valid() && old(run) <= run
        invariant DeviceOnly(old(View()), View())
      {
        if fifo != [] {
          match fill
          case NoFill =>
            var f: Frame := *;
            if IsFrame(f) {
              StoreData(f);
            }
          case WroteData(_) => StoreLength();
          case WroteLength(_) => StoreFlag();
        }
        steps := steps - 1;
      }
    }

    /** fifo_dma_rx_ready, applied to the slot at `next`. */
    method RxReady() returns (len: nat)
      requires AtRest()
      modifies this`fifo, this`fill, this`written, this`run, mem
      ensures AtRest() && old(run) <= run
      ensures DeviceOnly(old(View()), View())
      ensures len > 0 ==> len == Ready(View().slots[Index()])
      ensures len == 0 ==> |log| - mark >= |old(written)|
    {
      Device();
      LastNext(run);
      var received := mem[Index()].received;
      if !received {
        return 0;
      }
      Device();
      var length := mem[Index()].length;
      len := PayloadLength(length);
    }

    /** fifo_dma_copy_to_linear_skb: the payload, byte by byte, while the device keeps running. */
    method CopyToSkb(len: nat) returns (skb: seq<byte>)
      requires AtRest() && len > 0 && len == Ready(View().slots[Index()])
      modifies this`fifo, this`fill, this`written, this`run, mem
      ensures AtRest() && old(run) <= run
      ensures DeviceOnly(old(View()), View())
      ensures len == Ready(View().slots[Index()]) <= |View().slots[Index()].data|
      ensures skb == View().slots[Index()].data[..len]
    {
      LastNext(run);
      ghost var slot := View().slots[Index()];
      skb := [];
      while |skb| < len
        invariant AtRest() && old(run) <= run
        invariant DeviceOnly(old(View()), View())
        invariant View().slots[Index()] == slot
        invariant |skb| <= len && skb == slot.data[..|skb|]
      {
        Device();
        skb := skb + [mem[Index()].data[|skb|]];
      }
    }

    /** The out-of-memory branch of ccat_eth_receive. */
    method CountDrop()
      requires AtRest() && 0 < Ready(View().slots[Index()])
      modifies this`run, this`phase, this`log, this`dropped
      ensures Valid() && old(run) <= run && phase == Handled
      ensures log == old(log) + [Dropped] && dropped == old(dropped) + 1
    {
      LastNext(run);
      ghost var s := View();
      dropped := dropped + 1;
      log := log + [Dropped];
      phase := Handled;
      Record(s, Handle(false));
    }

    /** The branch of ccat_eth_receive that hands the frame to the network stack. */
    method Deliver(len: nat)
      requires AtRest() && len > 0 && len == Ready(View().slots[Index()])
      modifies this`fifo, this`fill, this`written, this`run, this`phase, this`log, this`bytes, mem
      ensures Valid() && old(run) <= run && phase == Handled
      ensures old(written) <= written && HandledNext(old(log), log, mark, written, true)
      ensures bytes == old(bytes) + len
    {
      LastNext(run);
      var skb := CopyToSkb(len);
      ghost var s := View();
      bytes := bytes + len;
      log := log + [Delivered(skb)];
      phase := Handled;
      Record(s, Handle(true));
      LastNext(run);
      assert Matches(log[mark + (|old(log)| - mark)], written[|old(log)| - mark]);
    }

    /** ccat_eth_receive: the oldest unread frame, unchanged, or a counted drop if there is no buffer for it. */
    method Receive(len: nat, gotBuffer: bool)
      requires AtRest() && len > 0 && len == Ready(View().slots[Index()])
      modifies this`fifo, this`fill, this`written, this`run, this`phase, this`log, this`bytes, this`dropped, mem
      ensures Valid() && old(run) <= run && phase == Handled
      ensures old(written) <= written && HandledNext(old(log), log, mark, written, gotBuffer)
      ensures if gotBuffer then bytes == old(bytes) + len && dropped == old(dropped)
              else bytes == old(bytes) && dropped == old(dropped) + 1
    {
      LastNext(run);
      if gotBuffer {
        Deliver(len);
      } else {
        CountDrop();
        LastNext(run);
      }
    }

    /** First half of ccat_eth_rx_fifo_dma_add. */
    method ClearFlag()
      requires Valid() && phase == (if resetting then Idle else Handled)
      modifies this`phase, this`run, mem
      ensures Valid() && old(run) <= run && phase == Cleared
    {
      ghost var s := View();
      LastNext(run);
      mem[Index()] := mem[Index()].(received := false);
      phase := Cleared;
      Record(s, Clear);
    }

    /** Second half of ccat_eth_rx_fifo_dma_add: the write to `reg`. */
    method PostDescriptor()
      requires Valid() && phase == Cleared
      modifies this`phase, this`run, this`fifo
      ensures Valid() && old(run) <= run && phase == Posted
    {
      ghost var s := View();
      LastNext(run);
      var offset := next - start;
      var addrAndLength := TWO_31 + offset;
      fifo := fifo + [addrAndLength];
      phase := Posted;
      Record(s, Post);
    }

    /** ccat_eth_fifo_inc */
    method Advance()
      requires Valid() && phase == Posted
      modifies this`next, this`phase, this`resetting, this`run
      ensures Valid() && old(run) <= run && phase == Idle
      ensures Index() == Succ(mem.Length, old(Index()))
      ensures resetting == (old(resetting) && next != start)
    {
      ghost var s := View();
      LastNext(run);
      IncIsSucc(start, SLOT_SIZE * mem.Length, Index());
      next := Inc(start, end, next);
      resetting := resetting && next != start;
      phase := Idle;
      Record(s, Event.Advance);
    }

    /** ccat_eth_rx_fifo_dma_add: the slot at `next` goes back to the device. */
    method AddSlot()
      requires Valid() && phase == (if resetting then Idle else Handled)
      modifies this`fifo, this`fill, this`written, this`run, this`phase, mem
      ensures Valid() && old(run) <= run && phase == Posted
      ensures old(written) <= written
    {
      Device();
      ClearFlag();
      Device();
      PostDescriptor();
    }

    /** ccat_eth_rx_fifo_dma_add followed by ccat_eth_fifo_inc. */
    method Repost()
      requires Valid() && phase == (if resetting then Idle else Handled)
      modifies this`next, this`fifo, this`fill, this`written, this`run, this`phase, this`resetting, mem
      ensures Valid() && old(run) <= run && phase == Idle
      ensures Index() == Succ(mem.Length, old(Index()))
      ensures resetting == (old(resetting) && next != start)
      ensures old(written) <= written
    {
      AddSlot();
      Device();
      Advance();
    }

    /** The loop body of poll_rx. */
    method HandleOne(len: nat, gotBuffer: bool) returns (more: nat)
      requires AtRest() && len > 0 && len == Ready(View().slots[Index()])
      modifies this, mem
      ensures AtRest() && old(run) <= run && mark == old(mark) && old(written) <= written
      ensures HandledNext(old(log), log, mark, written, gotBuffer)
      ensures more > 0 ==> more == Ready(View().slots[Index()])
      ensures more == 0 ==> |log| - mark >= |old(written)|
    {
      Receive(len, gotBuffer);
      Repost();
      more := RxReady();
    }

    /** The same, as one more step of a poll that started with log `log0`. */
    method HandleNext(len: nat, ghost log0: seq<Outcome>, buffers: seq<bool>, k: nat) returns (more: nat)
      requires AtRest() && len > 0 && len == Ready(View().slots[Index()])
      requires HandledBy(log0, log, mark, written, buffers) && |log| == |log0| + k && k < |buffers|
      modifies this, mem
      ensures AtRest() && old(run) <= run && mark == old(mark) && old(written) <= written
      ensures HandledBy(log0, log, mark, written, buffers) && |log| == |log0| + k + 1
      ensures more > 0 ==> more == Ready(View().slots[Index()])
      ensures more == 0 ==> |log| - mark >= |old(written)|
    {
      more := HandleOne(len, buffers[k]);
      HandledMore(log0, old(log), log, mark, old(written), written, buffers);
    }

    /**
     * poll_rx, where `buffers` says which allocations succeed. The call handles at most 31 frames, at least as many
     * as were waiting up to that limit, and never more than were waiting or arrived meanwhile; with an idle device
     * the count is min(31, waiting) exactly. The frames are the oldest unread ones, in order.
     */
    method PollRx(buffers: seq<bool>)
      requires AtRest() && |buffers| == RX_PER_POLL - 1
      modifies this, mem
      ensures AtRest() && old(run) <= run && mark == old(mark) && old(written) <= written
      ensures HandledBy(old(log), log, mark, written, buffers)
      ensures var handled, waiting := |log| - |old(log)|, |old(written)| - (|old(log)| - old(mark));
              Min(RX_PER_POLL - 1, waiting) <= handled
              <= Min(RX_PER_POLL - 1, waiting + |written| - |old(written)|)
    {
      LastNext(run);
      var budget := RX_PER_POLL;
      var len := RxReady();
      while len > 0
        invariant AtRest() && old(run) <= run && mark == old(mark) && old(written) <= written
        invariant 1 <= budget <= RX_PER_POLL && |log| == |old(log)| + RX_PER_POLL - budget
        invariant HandledBy(old(log), log, mark, written, buffers)
        invariant len > 0 ==> len == Ready(View().slots[Index()])
        invariant len == 0 ==> |log| - mark >= |old(written)|
        decreases budget
      {
        budget := budget - 1;
        if budget == 0 {
          break;
        }
        len := HandleNext(len, old(log), buffers, RX_PER_POLL - 1 - budget);
      }
      LastNext(run);
    }

    /** ccat_eth_fifo_hw_reset, which empties the device's FIFO, and the rewind of `next`. */
    method HwReset()
      requires AtRest()
      modifies this`next, this`fifo, this`fill, this`written, this`mark, this`resetting, this`run
      ensures Valid() && old(run) <= run && phase == Idle && resetting && next == start
      ensures mark == |log|
    {
      ghost var s := View();
      LastNext(run);
      fifo := [];
      fill := NoFill;
      written := [];
      mark := |log|;
      resetting := true;
      next := start;
      Record(s, HardwareReset);
    }

    /** The loop of ccat_eth_fifo_reset with the DMA receive callbacks: every slot is posted once, in order. */
    method PostAll()
      requires Valid() && phase == Idle && resetting && next == start
      modifies this`next, this`fifo, this`fill, this`written, this`run, this`phase, this`resetting, mem
      ensures AtRest() && old(run) <= run && next == start
      ensures OwnershipPartition(View()) && |fifo| + |written| == mem.Length + (|log| - mark)
    {
      Repost();
      while next != start
        invariant Valid() && old(run) <= run && phase == Idle
        invariant resetting <==> next != start
        decreases if next == start then 0 else mem.Length - Index()
      {
        Repost();
      }
      RxDelivery(run, |run| - 1);
      RxOwnership(run, |run| - 1);
    }

    /** ccat_eth_fifo_reset */
    method Reset()
      requires AtRest()
      modifies this`next, this`fifo, this`fill, this`written, this`mark, this`run, this`phase, this`resetting, mem
      ensures AtRest() && old(run) <= run && next == start && mark == |log|
      ensures OwnershipPartition(View()) && |fifo| + |written| == mem.Length
    {
      Device();
      HwReset();
      PostAll();
    }
  }
}
