/** The driver's transmit path as code over the shared ring, with the device stepping between any two accesses. */
module TxDriver {
  import opened Ring
  import opened Descriptors
  import opened TxSystem

  class TxFifo {
    // Ring memory, written by driver and device.
    const mem: array<Slot>
    const start: int
    const end: int

    // Driver state.
    var next: int
    var bytes: nat
    var dropped: nat

    // Device state: the descriptor FIFO behind `reg`, and the transfer under way.
    var fifo: seq<nat>
    var transfer: Transfer

    // History.
    ghost var resetting: bool
    ghost var phase: Phase
    ghost var done: nat
    ghost var accepted: seq<Frame>
    ghost var wire: seq<Frame>
    ghost var log: seq<Verdict>
    ghost var mark: nat
    ghost var run: seq<State>

    function Index(): nat
      reads this`next
    {
      if next < start then 0 else (next - start) / SLOT_SIZE
    }

    ghost function View(): State
      reads this, mem
    {
      State(mem[..], Index(), resetting, phase, fifo, transfer, done, accepted, wire, log, mark, bytes, dropped)
    }

    /** `next` is the address of a slot. */
    ghost predicate Placed()
      reads this`next
    {
      && end == RingEnd(start, SLOT_SIZE * mem.Length)
      && next == start + SLOT_SIZE * Index() && Index() < mem.Length
    }

    /** The history is a run of the transition system that ends in the present state. */
    ghost predicate Valid()
      reads this, mem
    {
      Placed() && IsRun(run) && run[|run| - 1] == View()
    }

    /** Between two driver calls. */
    ghost predicate AtRest()
      reads this, mem
    {
      Valid() && phase == Idle && !resetting
    }

    /** Whether the slot at `next` tests ready. */
    ghost predicate Room()
      requires Valid()
      reads this, mem
    {
      mem[Index()].sent
    }

    /** There is room if and only if fewer than all slots are in flight. */
    lemma RoomUnlessFull()
      requires AtRest()
      ensures Room() <==> |fifo| < mem.Length
      ensures |fifo| <= mem.Length
    {
      LastNext(run);
    }

    /** A ring over freshly allocated memory with any contents; MarkAll completes its first reset. */
    constructor (start: int, contents: seq<Slot>)
      requires 1 <= |contents| <= MAX_SLOTS
      requires forall i :: 0 <= i < |contents| ==> |contents[i].data| == MAX_PAYLOAD_SIZE
      ensures Valid() && fresh(mem) && mem.Length == |contents|
      ensures phase == Idle && resetting && next == this.start && fifo == [] && log == [] && accepted == []
    {
      this.start := start;
      end := RingEnd(start, SLOT_SIZE * |contents|);
      mem := new Slot[|contents|](i requires 0 <= i < |contents| => contents[i]);
      next, bytes, dropped := start, 0, 0;
      fifo, transfer := [], NoTransfer;
      resetting, phase, done, accepted, wire, log, mark := true, Idle, 0, [], [], [], 0;
      new;
      run := [View()];
    }

    /** Appends the present state, reached from `s` by event `e`, to the history. */
    ghost method Record(s: State, e: Event)
      requires Placed() && IsRun(run) && run[|run| - 1] == s
      requires Enabled(s, e) && View() == Next(s, e)
      modifies this`run
      ensures Valid() && run == old(run) + [View()] && View() == old(View())
    {
      ExtendRun(run, e);
      run := run + [View()];
    }

    /** The device reads the header of the slot its oldest descriptor names. */
    method FetchHeader()
      requires Valid() && fifo != [] && transfer == NoTransfer
      modifies this`transfer, this`run
      ensures Valid() && old(run) <= run
      ensures DeviceOnly(old(View()), View())
    {
      ghost var s := View();
      LastHead(run);
      DeviceStepIsDeviceOnly(s, DeviceFetch);
      transfer := Fetched(mem[TxSlotOf(fifo[0])].length);
      Record(s, DeviceFetch);
    }

    /** The device reads the payload and sends it. */
    method SendPayload()
      requires Valid() && fifo != [] && transfer.Fetched?
      modifies this`transfer, this`wire, this`run
      ensures Valid() && old(run) <= run
      ensures DeviceOnly(old(View()), View())
    {
      ghost var s := View();
      LastHead(run);
      DeviceStepIsDeviceOnly(s, DeviceSend);
      ghost var payload := mem[TxSlotOf(fifo[0])].data[..SendLength(transfer.length, fifo[0])];
      wire := wire + [payload];
      transfer := OnTheWire;
      Record(s, DeviceSend);
    }

    /** The device marks the slot sent. */
    method MarkSent()
      requires Valid() && fifo != [] && transfer == OnTheWire
      modifies this`transfer, this`fifo, this`done, this`run, mem
      ensures Valid() && old(run) <= run
      ensures DeviceOnly(old(View()), View())
    {
      ghost var s := View();
      LastHead(run);
      DeviceStepIsDeviceOnly(s, DeviceComplete);
      var i := TxSlotOf(fifo[0]);
      mem[i] := mem[i].(sent := true);
      transfer, fifo, done := NoTransfer, fifo[1..], done + 1;
      Record(s, DeviceComplete);
    }

    /** Any number of device steps. */
    method Device()
      requires Valid()
      modifies this`transfer, this`fifo, this`done, this`wire, this`run, mem
      ensures Valid() && old(run) <= run
      ensures DeviceOnly(old(View()), View())
    {
      var steps: nat := *;
      while steps > 0
        invariant Valid() && old(run) <= run
        invariant DeviceOnly(old(View()), View())
      {
        if fifo != [] {
          match transfer
          case NoTransfer => FetchHeader();
          case Fetched(_) => SendPayload();
          case OnTheWire => MarkSent();
        }
        steps := steps - 1;
      }
    }

    /** fifo_dma_tx_ready */
    method TxReady() returns (ready: bool)
      requires AtRest()
      modifies this`transfer, this`fifo, this`done, this`wire, this`run, mem
      ensures AtRest() && old(run) <= run
      ensures DeviceOnly(old(View()), View())
      ensures ready == Room()
    {
      Device();
      ready := mem[Index()].sent;
    }

    /** fifo_dma_queue_skb: the flag. */
    method ClaimSlot(skb: Frame)
      requires AtRest() && Room() && |skb| <= MAX_PAYLOAD_SIZE
      modifies this`phase, this`run, mem
      ensures Valid() && old(run) <= run && phase == Claimed(skb)
    {
      ghost var s := View();
      mem[Index()] := mem[Index()].(sent := false);
      phase := Claimed(skb);
      Record(s, Claim(skb));
    }

    /** fifo_dma_queue_skb: the length. */
    method WriteLength(skb: Frame)
      requires Valid() && phase == Claimed(skb)
      modifies this`phase, this`run, mem
      ensures Valid() && old(run) <= run && phase == Copying(skb, 0)
    {
      ghost var s := View();
      mem[Index()] := mem[Index()].(length := |skb|);
      phase := Copying(skb, 0);
      Record(s, SetLength);
    }

    /** fifo_dma_queue_skb: one byte of the payload. */
    method WriteByte(skb: Frame, k: nat)
      requires Valid() && phase == Copying(skb, k) && k < |skb| <= MAX_PAYLOAD_SIZE
      modifies this`phase, this`run, mem
      ensures Valid() && old(run) <= run && phase == Copying(skb, k + 1)
    {
      ghost var s := View();
      LastNext(run);
      mem[Index()] := mem[Index()].(data := mem[Index()].data[k := skb[k]]);
      phase := Copying(skb, k + 1);
      Record(s, CopyByte);
    }

    /** fifo_dma_queue_skb: the descriptor. */
    method WriteDescriptor(skb: Frame)
      requires Valid() && phase == Copying(skb, |skb|)
      modifies this`phase, this`run, this`fifo, this`accepted
      ensures Valid() && old(run) <= run && phase == Submitted(skb)
      ensures accepted == old(accepted) + [skb] && |fifo| == |old(fifo)| + 1
    {
      ghost var s := View();
      var addrAndLength := LENGTH_OFFSET;
      addrAndLength := addrAndLength + (next - start);
      addrAndLength := (addrAndLength + (|skb| + HEADER_SIZE) / 8 * TWO_24) % TWO_32;
      fifo := fifo + [addrAndLength];
      accepted, phase := accepted + [skb], Submitted(skb);
      Record(s, Submit);
    }

    /** fifo_dma_queue_skb: the memcpy, with the device running in between. */
    method CopyPayload(skb: Frame)
      requires Valid() && phase == Copying(skb, 0) && |skb| <= MAX_PAYLOAD_SIZE
      modifies this`phase, this`transfer, this`fifo, this`done, this`wire, this`run, mem
      ensures Valid() && old(run) <= run && phase == Copying(skb, |skb|) && |fifo| <= |old(fifo)|
    {
      var k := 0;
      while k < |skb|
        invariant 0 <= k <= |skb| && Valid() && old(run) <= run && phase == Copying(skb, k)
        invariant |fifo| <= |old(fifo)|
      {
        Device();
        WriteByte(skb, k);
        k := k + 1;
      }
    }

    /** fifo_dma_queue_skb up to the descriptor: flag, length and payload, with the device running in between. */
    method FillSlot(skb: Frame)
      requires AtRest() && Room() && |skb| <= MAX_PAYLOAD_SIZE
      modifies this`phase, this`transfer, this`fifo, this`done, this`wire, this`run, mem
      ensures Valid() && old(run) <= run && phase == Copying(skb, |skb|) && |fifo| <= |old(fifo)|
    {
      ClaimSlot(skb);
      Device();
      WriteLength(skb);
      CopyPayload(skb);
    }

    /** fifo_dma_queue_skb, with the device running in between. */
    method QueueSkb(skb: Frame)
      requires AtRest() && Room() && |skb| <= MAX_PAYLOAD_SIZE
      modifies this`phase, this`transfer, this`fifo, this`done, this`wire, this`accepted, this`run, mem
      ensures Valid() && old(run) <= run && phase == Submitted(skb)
      ensures accepted == old(accepted) + [skb] && |fifo| <= |old(fifo)| + 1
    {
      FillSlot(skb);
      Device();
      WriteDescriptor(skb);
    }

    /** The statistics update of ccat_eth_start_xmit. */
    method CountBytes(skb: Frame)
      requires Valid() && phase == Submitted(skb)
      modifies this`phase, this`run, this`log, this`bytes
      ensures Valid() && old(run) <= run && phase == Counted
      ensures log == old(log) + [Queued(skb)] && bytes == old(bytes) + |skb|
    {
      ghost var s := View();
      bytes := bytes + |skb|;
      log, phase := log + [Queued(skb)], Counted;
      Record(s, AddBytes);
    }

    /** The early returns of ccat_eth_start_xmit for nonlinear and oversized frames. */
    method CountDrop(linear: bool, length: nat)
      requires AtRest() && (!linear || length > MAX_PAYLOAD_SIZE)
      modifies this`run, this`log, this`dropped
      ensures AtRest() && old(run) <= run
      ensures log == old(log) + [Discarded] && dropped == old(dropped) + 1
    {
      ghost var s := View();
      dropped := dropped + 1;
      log := log + [Discarded];
      Record(s, Discard(linear, length));
    }

    /** The NETDEV_TX_BUSY return of ccat_eth_start_xmit. */
    ghost method NoteRefusal()
      requires AtRest() && !Room()
      modifies this`run, this`log
      ensures AtRest() && old(run) <= run && log == old(log) + [Refused]
    {
      var s := View();
      log := log + [Refused];
      Record(s, Refuse);
    }

    /** ccat_eth_fifo_inc */
    method Advance()
      requires Valid() && phase == (if resetting then Marked else Counted)
      modifies this`next, this`phase, this`resetting, this`run
      ensures Valid() && old(run) <= run && phase == Idle
      ensures Index() == Succ(mem.Length, old(Index()))
      ensures resetting == (old(resetting) && next != start)
    {
      ghost var s := View();
      IncIsSucc(start, SLOT_SIZE * mem.Length, Index());
      next := Inc(start, end, next);
      resetting := resetting && next != start;
      phase := Idle;
      Record(s, Event.Advance);
    }

    /** What ccat_eth_start_xmit does after queueing: count the frame and move on. */
    method FinishQueued(skb: Frame)
      requires Valid() && phase == Submitted(skb) && !resetting
      modifies this`next, this`bytes, this`fifo, this`transfer, this`resetting, this`phase, this`done, this`wire,
               this`log, this`run, mem
      ensures AtRest() && old(run) <= run
      ensures log == old(log) + [Queued(skb)] && bytes == old(bytes) + |skb| && |fifo| <= |old(fifo)|
      ensures Index() == Succ(mem.Length, old(Index()))
    {
      Device();
      CountBytes(skb);
      Device();
      Advance();
    }

    /** The part of ccat_eth_start_xmit that takes a frame into the ring. */
    method Transmit(skb: Frame)
      requires AtRest() && Room() && |skb| <= MAX_PAYLOAD_SIZE
      modifies this`next, this`bytes, this`fifo, this`transfer, this`resetting, this`phase, this`done, this`accepted,
               this`wire, this`log, this`run, mem
      ensures AtRest() && old(run) <= run
      ensures log == old(log) + [Queued(skb)] && bytes == old(bytes) + |skb|
      ensures accepted == old(accepted) + [skb] && |fifo| <= |old(fifo)| + 1
      ensures Index() == Succ(mem.Length, old(Index()))
    {
      QueueSkb(skb);
      FinishQueued(skb);
    }

    /**
     * ccat_eth_start_xmit from the first ready test on; `room` is the outcome of the last ready test, on which
     * the caller stops its queue.
     */
    method Offer(skb: Frame) returns (busy: bool, room: bool)
      requires AtRest() && |skb| <= MAX_PAYLOAD_SIZE
      modifies this`next, this`bytes, this`fifo, this`transfer, this`resetting, this`phase, this`done, this`accepted,
               this`wire, this`log, this`run, mem
      ensures AtRest() && old(run) <= run
      ensures log == old(log) + [if busy then Refused else Queued(skb)]
      ensures if busy then accepted == old(accepted) && bytes == old(bytes)
              else accepted == old(accepted) + [skb] && bytes == old(bytes) + |skb|
      ensures |fifo| <= |old(fifo)| + 1
      ensures room == Room() && (busy ==> !old(Room()) && !room)
    {
      room := TxReady();
      busy := !room;
      if busy {
        NoteRefusal();
      } else {
        Transmit(skb);
        room := TxReady();
      }
    }

    /** ccat_eth_tx_fifo_dma_add_free followed by ccat_eth_fifo_inc. */
    method MarkNext()
      requires Valid() && phase == Idle && resetting
      modifies this`next, this`phase, this`resetting, this`run, mem
      ensures Valid() && old(run) <= run && phase == Idle
      ensures Index() == Succ(mem.Length, old(Index()))
      ensures resetting == (next != start)
    {
      ghost var s := View();
      mem[Index()] := mem[Index()].(sent := true);
      phase := Marked;
      Record(s, MarkFree);
      Advance();
    }

    /** With nothing in flight every slot is marked sent. */
    lemma AllFree()
      requires AtRest() && fifo == []
      ensures forall i :: 0 <= i < mem.Length ==> mem[i].sent
    {
      TxOwnership(run, |run| - 1);
      ghost var s := View();
      forall i | 0 <= i < mem.Length
        ensures mem[i].sent
      {
        assert Plus(mem.Length, Tail(s), Distance(mem.Length, Tail(s), i)) == i;
        assert s.slots[i] == mem[i];
      }
    }

    /** The loop of ccat_eth_fifo_reset with the DMA transmit callbacks: every slot becomes free. */
    method MarkAll()
      requires Valid() && phase == Idle && resetting && next == start && fifo == [] && accepted == []
      modifies this`next, this`phase, this`resetting, this`run, mem
      ensures AtRest() && old(run) <= run && next == start
      ensures forall i :: 0 <= i < mem.Length ==> mem[i].sent
    {
      MarkNext();
      while next != start
        invariant Valid() && old(run) <= run && phase == Idle
        invariant resetting <==> next != start
        decreases if next == start then 0 else mem.Length - Index()
      {
        MarkNext();
      }
      AllFree();
    }

    /** ccat_eth_fifo_hw_reset, which empties the device's FIFO, and the rewind of `next`. */
    method HwReset()
      requires AtRest()
      modifies this`next, this`fifo, this`transfer, this`done, this`accepted, this`wire, this`mark, this`resetting,
               this`run
      ensures Valid() && old(run) <= run && phase == Idle && resetting && next == start
      ensures mark == |log| && fifo == [] && accepted == []
    {
      ghost var s := View();
      assert Enabled(s, HardwareReset);
      fifo, transfer, next := [], NoTransfer, start;
      done, accepted, wire, mark, resetting := 0, [], [], |log|, true;
      assert View() == Next(s, HardwareReset);
      Record(s, HardwareReset);
    }

    /** ccat_eth_fifo_reset */
    method Reset()
      requires AtRest()
      modifies this`next, this`fifo, this`transfer, this`resetting, this`phase, this`done, this`accepted, this`wire,
               this`mark, this`run, mem
      ensures AtRest() && old(run) <= run && next == start && fifo == [] && accepted == [] && mark == |log|
      ensures forall i :: 0 <= i < mem.Length ==> mem[i].sent
    {
      Device();
      HwReset();
      MarkAll();
    }
  }
}
