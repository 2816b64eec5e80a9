/** The network device: transmit entry point, link handling and the poll callback over both rings. */
module Nic {
  import opened Bytes
  import opened Ring
  import opened Descriptors
  import RxSystem
  import opened RxDriver
  import TxSystem
  import opened TxDriver

  /** A socket buffer as the transmit path sees it. */
  datatype Skb = Skb(linear: bool, data: TxSystem.Frame)

  /** The verdict on a frame the transmit path does not refuse. */
  function Verdict(skb: Skb): TxSystem.Verdict {
    if !skb.linear || |skb.data| > MAX_PAYLOAD_SIZE then TxSystem.Discarded else TxSystem.Queued(skb.data)
  }

  /** Calls into the driver; a poll comes with the link bit it will read and the outcome of buffer allocations. */
  datatype Call = Xmit(skb: Skb) | Poll(link: bool, buffers: seq<bool>) | Stop

  /** The EtherCAT frame that enables forwarding on EtherCAT terminals. */
  const FORWARD_FRAME: seq<byte> := [
    0x01, 0x01, 0x05, 0x01, 0x00, 0x00, 0x00, 0x1b, 0x21, 0x36, 0x1b, 0xce, 0x88, 0xa4, 0x0e, 0x10,
    0x08, 0x00, 0x00, 0x00, 0x00, 0x01, 0x02, 0x00, 0x00, 0x00, 0x00, 0x00, 0x00, 0x00]

  /** The carrier follows the last poll. */
  function CarrierAfter(calls: seq<Call>, carrier: bool): bool {
    if calls == [] then carrier
    else match calls[|calls| - 1]
      case Poll(link, _) => link
      case _ => CarrierAfter(calls[..|calls| - 1], carrier)
  }

  /** The verdicts one call leaves: its own on an offered frame, the forwarding frame if the link comes up. */
  function Answer(call: Call, offered: bool, carrier: bool): (v: seq<TxSystem.Verdict>)
    ensures TxSystem.Refused !in v
  {
    match call
    case Xmit(skb) => if offered then [Verdict(skb)] else []
    case Poll(link, _) => if link && !carrier then [TxSystem.Queued(FORWARD_FRAME)] else []
    case Stop => []
  }

  /** The verdicts a sequence of calls leaves, if `offered` tells which transmit calls found the queue awake. */
  function VerdictsOf(calls: seq<Call>, offered: seq<bool>, carrier: bool): (v: seq<TxSystem.Verdict>)
    requires |offered| == |calls|
    ensures TxSystem.Refused !in v
  {
    if calls == [] then []
    else
      var n := |calls| - 1;
      VerdictsOf(calls[..n], offered[..n], carrier) + Answer(calls[n], offered[n], CarrierAfter(calls[..n], carrier))
  }

  lemma CarrierStep(calls: seq<Call>, c: nat, carrier: bool)
    requires c < |calls|
    ensures CarrierAfter(calls[..c + 1], carrier)
         == if calls[c].Poll? then calls[c].link else CarrierAfter(calls[..c], carrier)
  {
    assert calls[..c + 1][..c] == calls[..c];
  }

  lemma VerdictsStep(calls: seq<Call>, offered: seq<bool>, o: bool, carrier: bool)
    requires |offered| < |calls|
    ensures var c := |offered|;
            VerdictsOf(calls[..c + 1], offered + [o], carrier)
            == VerdictsOf(calls[..c], offered, carrier) + Answer(calls[c], o, CarrierAfter(calls[..c], carrier))
  {
    var c := |offered|;
    var some, more := calls[..c + 1], offered + [o];
    assert some[..c] == calls[..c] && more[..c] == offered && some[c] == calls[c] && more[c] == o;
  }

  /** A frame the transmit path drops and counts. */
  predicate Unsuitable(skb: Skb) {
    !skb.linear || |skb.data| > MAX_PAYLOAD_SIZE
  }

  /** Call `i` is a transmit call that offered an unsuitable frame. */
  predicate OfferedUnsuitable(calls: seq<Call>, offered: seq<bool>, i: int)
    requires |offered| <= |calls|
  {
    0 <= i < |offered| && offered[i] && calls[i].Xmit? && Unsuitable(calls[i].skb)
  }

  ghost function UnsuitableOffers(calls: seq<Call>, offered: seq<bool>): set<int>
    requires |offered| <= |calls|
  {
    set i | 0 <= i < |offered| && OfferedUnsuitable(calls, offered, i)
  }

  lemma UnsuitableOffersStep(calls: seq<Call>, offered: seq<bool>, o: bool)
    requires |offered| < |calls|
    ensures var call := calls[|offered|];
            |UnsuitableOffers(calls, offered + [o])| == |UnsuitableOffers(calls, offered)|
              + if o && call.Xmit? && Unsuitable(call.skb) then 1 else 0
  {
    var c, before, after := |offered|, UnsuitableOffers(calls, offered), UnsuitableOffers(calls, offered + [o]);
    forall i | i != c
      ensures i in after <==> i in before
    {
      assert OfferedUnsuitable(calls, offered + [o], i) <==> OfferedUnsuitable(calls, offered, i);
    }
    assert c !in before;
    if OfferedUnsuitable(calls, offered + [o], c) {
      assert after == before + {c};
    } else {
      assert after == before;
    }
  }

  /** Before call `c` the device has been stopped, with no poll since. */
  ghost predicate Stopped(calls: seq<Call>, c: nat)
    requires c <= |calls|
  {
    exists i :: 0 <= i < c && calls[i].Stop? && forall k :: i < k < c ==> !calls[k].Poll?
  }

  lemma StoppedStep(calls: seq<Call>, c: nat)
    requires c < |calls|
    ensures Stopped(calls, c + 1) ==> calls[c].Stop? || (Stopped(calls, c) && !calls[c].Poll?)
  {
    if Stopped(calls, c + 1) && !calls[c].Stop? {
      var i :| 0 <= i < c + 1 && calls[i].Stop? && forall k :: i < k < c + 1 ==> !calls[k].Poll?;
      assert i < c;
    }
  }

  /** The part of the device's state that calls account for. */
  datatype Books = Books(log: seq<TxSystem.Verdict>, dropped: nat, carrier: bool, awake: bool)

  /** What one call makes of the books; `o` says whether it offered a frame. */
  predicate Accounts(call: Call, o: bool, before: Books, now: Books) {
    && (o <==> before.awake && call.Xmit?)
    && match call
       case Xmit(skb) =>
         && now.carrier == before.carrier && (now.awake ==> before.awake)
         && if !o then now.log == before.log && now.dropped == before.dropped
            else if !skb.linear || |skb.data| > MAX_PAYLOAD_SIZE
            then now.log == before.log + [TxSystem.Discarded] && now.dropped == before.dropped + 1
            else now.log == before.log + [TxSystem.Queued(skb.data)] && now.dropped == before.dropped
       case Poll(link, _) =>
         && now.carrier == link && now.dropped == before.dropped
         && now.log == before.log + if link && !before.carrier then [TxSystem.Queued(FORWARD_FRAME)] else []
       case Stop =>
         now.carrier == before.carrier && !now.awake && now.log == before.log && now.dropped == before.dropped
  }

  lemma AccountsAnswer(call: Call, o: bool, before: Books, now: Books)
    requires Accounts(call, o, before, now)
    ensures now.log == before.log + Answer(call, o, before.carrier)
    ensures now.carrier == if call.Poll? then call.link else before.carrier
    ensures now.dropped == before.dropped + if o && call.Xmit? && Unsuitable(call.skb) then 1 else 0
  {
  }

  /** The calls made so far, one per entry of `offered`, have left their verdicts, and the carrier of the last poll. */
  predicate Logged(calls: seq<Call>, offered: seq<bool>, before: Books, now: Books) {
    && |offered| <= |calls|
    && now.carrier == CarrierAfter(calls[..|offered|], before.carrier)
    && now.log == before.log + VerdictsOf(calls[..|offered|], offered, before.carrier)
  }

  /** They have counted the unsuitable frames among those offered. */
  ghost predicate Counted(calls: seq<Call>, offered: seq<bool>, before: Books, now: Books) {
    |offered| <= |calls| && now.dropped == before.dropped + |UnsuitableOffers(calls, offered)|
  }

  /** After a stop nothing has been offered until the next poll. */
  ghost predicate Kept(calls: seq<Call>, offered: seq<bool>, awake: bool) {
    && |offered| <= |calls|
    && (Stopped(calls, |offered|) ==> !awake)
    && forall c :: 0 <= c < |offered| && Stopped(calls, c) ==> !offered[c]
  }

  lemma LoggedStep(calls: seq<Call>, offered: seq<bool>, o: bool, before: Books, now: Books, next: Books)
    requires Logged(calls, offered, before, now) && |offered| < |calls|
    requires next.log == now.log + Answer(calls[|offered|], o, now.carrier)
    requires next.carrier == if calls[|offered|].Poll? then calls[|offered|].link else now.carrier
    ensures Logged(calls, offered + [o], before, next)
  {
    var c := |offered|;
    var verdicts, answer := VerdictsOf(calls[..c], offered, before.carrier), Answer(calls[c], o, now.carrier);
    assert CarrierAfter(calls[..c + 1], before.carrier) == next.carrier by { CarrierStep(calls, c, before.carrier); }
    assert VerdictsOf(calls[..c + 1], offered + [o], before.carrier) == verdicts + answer by {
      VerdictsStep(calls, offered, o, before.carrier);
    }
    assert before.log + verdicts + answer == before.log + (verdicts + answer);
  }

  lemma CountedStep(calls: seq<Call>, offered: seq<bool>, o: bool, before: Books, now: Books, next: Books)
    requires Counted(calls, offered, before, now) && |offered| < |calls|
    requires Accounts(calls[|offered|], o, now, next)
    ensures Counted(calls, offered + [o], before, next)
  {
    AccountsAnswer(calls[|offered|], o, now, next);
    UnsuitableOffersStep(calls, offered, o);
  }

  lemma KeptStep(calls: seq<Call>, offered: seq<bool>, o: bool, now: Books, next: Books)
    requires Kept(calls, offered, now.awake) && |offered| < |calls|
    requires Accounts(calls[|offered|], o, now, next)
    ensures Kept(calls, offered + [o], next.awake)
  {
    StoppedStep(calls, |offered|);
  }

  /** Each call made so far accounts for the step from one entry of `books` to the next. */
  predicate Chained(calls: seq<Call>, offered: seq<bool>, books: seq<Books>) {
    && |offered| <= |calls| && |books| == |offered| + 1
    && forall c :: 0 <= c < |offered| ==> Accounts(calls[c], offered[c], books[c], books[c + 1])
  }

  lemma ChainMore(calls: seq<Call>, offered: seq<bool>, o: bool, books: seq<Books>, next: Books)
    requires Chained(calls, offered, books) && |offered| < |calls|
    requires Accounts(calls[|offered|], o, books[|offered|], next)
    ensures Chained(calls, offered + [o], books + [next])
  {
    var offered', books' := offered + [o], books + [next];
    forall c | 0 <= c < |offered'|
      ensures Accounts(calls[c], offered'[c], books'[c], books'[c + 1])
    {
      assert c < |offered| ==> Accounts(calls[c], offered[c], books[c], books[c + 1]);
    }
  }

  lemma {:induction false} ChainedServed(calls: seq<Call>, offered: seq<bool>, books: seq<Books>)
    requires Chained(calls, offered, books)
    ensures Logged(calls, offered, books[0], books[|offered|])
    ensures Counted(calls, offered, books[0], books[|offered|])
    ensures Kept(calls, offered, books[|offered|].awake)
  {
    var n := |offered|;
    if n == 0 {
      assert UnsuitableOffers(calls, offered) == {};
    } else {
      var offered0, books0, o := offered[..n - 1], books[..n], offered[n - 1];
      assert Accounts(calls[n - 1], o, books[n - 1], books[n]);
      assert Chained(calls, offered0, books0);
      ChainedServed(calls, offered0, books0);
      assert offered0 + [o] == offered;
      AccountsAnswer(calls[n - 1], o, books[n - 1], books[n]);
      LoggedStep(calls, offered0, o, books[0], books[n - 1], books[n]);
      CountedStep(calls, offered0, o, books[0], books[n - 1], books[n]);
      KeptStep(calls, offered0, o, books[n - 1], books[n]);
    }
  }

  class EthDevice {
    const rx: RxFifo
    const tx: TxFifo
    var awake: bool
    var carrier: bool

    /** Both rings at rest, and the flow-control promise: an awake queue has a free slot at `next`. */
    ghost predicate Valid()
      reads this, rx, rx.mem, tx, tx.mem
    {
      && rx.AtRest() && tx.AtRest()
      && tx.mem.Length >= 2
      && (awake ==> tx.Room())
    }

    /** fifo_set_end for the receive channel: a ring over memory with any contents, reset. */
    static method StartRx(start: int, contents: seq<RxSystem.Slot>) returns (r: RxFifo)
      requires 1 <= |contents| <= MAX_SLOTS
      requires forall i :: 0 <= i < |contents| ==> |contents[i].data| == MAX_PAYLOAD_SIZE
      ensures fresh(r) && fresh(r.mem) && r.AtRest() && r.log == []
    {
      r := new RxFifo(start, contents);
      r.PostAll();
    }

    /** fifo_set_end for the transmit channel. */
    static method StartTx(start: int, contents: seq<TxSystem.Slot>) returns (t: TxFifo)
      requires 1 <= |contents| <= MAX_SLOTS
      requires forall i :: 0 <= i < |contents| ==> |contents[i].data| == MAX_PAYLOAD_SIZE
      ensures fresh(t) && fresh(t.mem) && t.mem.Length == |contents| && t.AtRest() && t.Room() && t.log == []
    {
      t := new TxFifo(start, contents);
      t.MarkAll();
    }

    /** ccat_eth_priv_init_dma: both rings reset; the carrier starts off and the queue not stopped. */
    constructor (rxStart: int, rxMem: seq<RxSystem.Slot>, txStart: int, txMem: seq<TxSystem.Slot>)
      requires 1 <= |rxMem| <= MAX_SLOTS && 2 <= |txMem| <= MAX_SLOTS
      requires forall i :: 0 <= i < |rxMem| ==> |rxMem[i].data| == MAX_PAYLOAD_SIZE
      requires forall i :: 0 <= i < |txMem| ==> |txMem[i].data| == MAX_PAYLOAD_SIZE
      ensures Valid() && fresh(rx) && fresh(rx.mem) && fresh(tx) && fresh(tx.mem)
      ensures awake && !carrier && tx.log == [] && rx.log == []
    {
      var r := StartRx(rxStart, rxMem);
      var t := StartTx(txStart, txMem);
      rx, tx := r, t;
      awake, carrier := true, false;
    }

    /** Device activity between driver calls. */
    method Device()
      requires Valid()
      modifies rx, rx.mem, tx, tx.mem
      ensures Valid()
      ensures RxSystem.DeviceOnly(old(rx.View()), rx.View()) && TxSystem.DeviceOnly(old(tx.View()), tx.View())
      ensures old(tx.run) <= tx.run && old(rx.run) <= rx.run
      ensures old(tx.Room()) ==> tx.Room()
    {
      rx.Device();
      tx.Device();
    }

    /**
     * ccat_eth_start_xmit. Every offered frame gets exactly one verdict: dropped and counted if it is not linear
     * or too long, otherwise queued unless the ring is full; it is refused only if the ring was already full at
     * the call, and then the queue is stopped.
     */
    method StartXmit(skb: Skb) returns (busy: bool)
      requires Valid()
      modifies this`awake, tx, tx.mem
      ensures Valid() && old(tx.run) <= tx.run
      ensures awake <==> old(awake) && tx.Room()
      ensures |tx.fifo| <= |old(tx.fifo)| + 1
      ensures tx.log == old(tx.log) + [if busy then TxSystem.Refused else Verdict(skb)]
      ensures !skb.linear || |skb.data| > MAX_PAYLOAD_SIZE ==>
                && !busy && tx.dropped == old(tx.dropped) + 1
                && tx.accepted == old(tx.accepted) && tx.bytes == old(tx.bytes)
      ensures skb.linear && |skb.data| <= MAX_PAYLOAD_SIZE ==>
                && tx.dropped == old(tx.dropped)
                && if busy then tx.accepted == old(tx.accepted) && tx.bytes == old(tx.bytes)
                   else tx.accepted == old(tx.accepted) + [skb.data] && tx.bytes == old(tx.bytes) + |skb.data|
      ensures busy ==> !old(tx.Room()) && !old(awake) && !awake
      ensures tx.mark == old(tx.mark)
    {
      if !skb.linear || |skb.data| > MAX_PAYLOAD_SIZE {
        tx.CountDrop(skb.linear, |skb.data|);
        return false;
      }
      var room;
      busy, room := tx.Offer(skb.data);
      if !room {
        awake := false;
      }
    }

    /** ccat_eth_link_down */
    method LinkDown()
      requires Valid()
      modifies this
      ensures Valid() && !awake && !carrier
    {
      awake := false;
      carrier := false;
    }

    /** First part of ccat_eth_link_up. */
    method ResetRings()
      requires Valid()
      modifies rx, rx.mem, tx, tx.mem
      ensures Valid() && tx.Room() && tx.fifo == [] && tx.accepted == []
      ensures tx.dropped == old(tx.dropped) && tx.bytes == old(tx.bytes)
      ensures old(tx.run) <= tx.run && old(rx.run) <= rx.run
      ensures tx.log == old(tx.log) && tx.mark == |tx.log|
      ensures rx.log == old(rx.log) && rx.mark == |rx.log|
    {
      rx.Reset();
      tx.Reset();
    }

    /** Second part of ccat_eth_link_up: the forwarding frame, into an empty ring. */
    method SendForward()
      requires Valid() && tx.Room() && tx.fifo == []
      modifies this`awake, tx, tx.mem
      ensures Valid() && tx.Room() && old(tx.run) <= tx.run
      ensures tx.accepted == old(tx.accepted) + [FORWARD_FRAME] && tx.dropped == old(tx.dropped)
      ensures tx.log == old(tx.log) + [TxSystem.Queued(FORWARD_FRAME)] && tx.mark == old(tx.mark)
    {
      var busy := StartXmit(Skb(true, FORWARD_FRAME));
      tx.RoomUnlessFull();
    }

    /** ccat_eth_link_up up to the queue and the carrier. */
    method Restart()
      requires Valid()
      modifies this`awake, rx, rx.mem, tx, tx.mem
      ensures Valid() && tx.Room()
      ensures tx.accepted == [FORWARD_FRAME] && tx.dropped == old(tx.dropped)
      ensures old(tx.run) <= tx.run && old(rx.run) <= rx.run
      ensures tx.log == old(tx.log) + [TxSystem.Queued(FORWARD_FRAME)] && tx.mark == |old(tx.log)|
      ensures rx.log == old(rx.log) && rx.mark == |rx.log|
    {
      ResetRings();
      SendForward();
    }

    /** ccat_eth_link_up: both rings restart and the forwarding frame is the first one accepted. */
    method LinkUp()
      requires Valid()
      modifies this, rx, rx.mem, tx, tx.mem
      ensures Valid() && awake && carrier
      ensures tx.accepted == [FORWARD_FRAME] && tx.dropped == old(tx.dropped)
      ensures old(tx.run) <= tx.run && old(rx.run) <= rx.run
      ensures tx.log == old(tx.log) + [TxSystem.Queued(FORWARD_FRAME)] && tx.mark == |old(tx.log)|
      ensures rx.log == old(rx.log) && rx.mark == |rx.log|
    {
      Restart();
      carrier, awake := true, true;
    }

    /** poll_link, given the link bit read from the hardware. */
    method PollLink(link: bool)
      requires Valid()
      modifies this, rx, rx.mem, tx, tx.mem
      ensures Valid() && carrier == link && tx.dropped == old(tx.dropped)
      ensures old(tx.run) <= tx.run && old(rx.run) <= rx.run
      ensures tx.log == old(tx.log) + if link && !old(carrier) then [TxSystem.Queued(FORWARD_FRAME)] else []
      ensures awake == (if link == old(carrier) then old(awake) else link)
      ensures !(link && !old(carrier)) ==> tx.fifo == old(tx.fifo)
      ensures rx.log == old(rx.log)
      ensures if link && !old(carrier) then rx.mark == |rx.log|
              else rx.mark == old(rx.mark) && rx.written == old(rx.written)
    {
      if link != carrier {
        if link {
          LinkUp();
        } else {
          LinkDown();
        }
      }
    }

    /** poll_tx: afterwards the queue is awake if and only if there is room. */
    method PollTx()
      requires Valid()
      modifies this`awake, tx, tx.mem
      ensures Valid() && (awake <==> tx.Room()) && (old(tx.Room()) ==> awake)
      ensures tx.log == old(tx.log) && old(tx.run) <= tx.run && |tx.fifo| <= |old(tx.fifo)|
      ensures tx.dropped == old(tx.dropped)
    {
      var ready := tx.TxReady();
      if ready {
        awake := true;
      }
    }

    /** poll_rx and poll_tx, as poll_timer_callback calls them. */
    method PollRings(buffers: seq<bool>)
      requires Valid() && |buffers| == RX_PER_POLL - 1
      modifies this`awake, rx, rx.mem, tx, tx.mem
      ensures Valid() && (awake <==> tx.Room()) && (old(tx.Room()) ==> awake)
      ensures old(tx.run) <= tx.run && old(rx.run) <= rx.run
      ensures tx.log == old(tx.log) && |tx.fifo| <= |old(tx.fifo)| && tx.dropped == old(tx.dropped)
      ensures RxSystem.HandledBy(old(rx.log), rx.log, rx.mark, rx.written, buffers) && rx.mark == old(rx.mark)
      ensures |rx.log| - |old(rx.log)| >= Min(RX_PER_POLL - 1, |old(rx.written)| - (|old(rx.log)| - old(rx.mark)))
    {
      Device();
      rx.PollRx(buffers);
      PollTx();
    }

    /**
     * poll_timer_callback. The queue ends awake if and only if there is room, whatever the link. Unless the link
     * has just come up, that is the case exactly if there was room before the poll or a frame left the ring during
     * it: with room, PollTx undoes the stop of LinkDown in the same poll. Unless the link has just come up, which
     * starts the receive ring afresh, at least min(31, waiting) frames are handled.
     */
    method PollTimer(link: bool, buffers: seq<bool>)
      requires Valid() && |buffers| == RX_PER_POLL - 1
      modifies this, rx, rx.mem, tx, tx.mem
      ensures Valid() && carrier == link && (awake <==> tx.Room()) && tx.dropped == old(tx.dropped)
      ensures if link && !old(carrier) then awake
              else awake <==> old(tx.Room()) || |tx.fifo| < |old(tx.fifo)|
      ensures old(tx.run) <= tx.run && old(rx.run) <= rx.run
      ensures tx.log == old(tx.log) + if link && !old(carrier) then [TxSystem.Queued(FORWARD_FRAME)] else []
      ensures RxSystem.HandledBy(old(rx.log), rx.log, rx.mark, rx.written, buffers)
      ensures rx.mark == if link && !old(carrier) then |old(rx.log)| else old(rx.mark)
      ensures !link || old(carrier) ==>
                |rx.log| - |old(rx.log)| >= Min(RX_PER_POLL - 1, |old(rx.written)| - (|old(rx.log)| - old(rx.mark)))
    {
      tx.RoomUnlessFull();
      PollLink(link);
      PollRings(buffers);
      tx.RoomUnlessFull();
    }

    ghost function BooksNow(): Books
      reads this, tx
    {
      Books(tx.log, tx.dropped, carrier, awake)
    }

    /** Device activity, then one call as the network stack or the timer makes it: frames only to an awake queue. */
    method Make(call: Call) returns (offered: bool)
      requires Valid() && (call.Poll? ==> |call.buffers| == RX_PER_POLL - 1)
      modifies this, rx, rx.mem, tx, tx.mem
      ensures Valid() && old(tx.run) <= tx.run && old(rx.run) <= rx.run
      ensures offered <==> old(awake) && call.Xmit?
      ensures carrier == (if call.Poll? then call.link else old(carrier))
      ensures call.Stop? || (!old(awake) && !call.Poll?) ==> !awake
      ensures tx.log == old(tx.log) + Answer(call, offered, old(carrier))
      ensures Accounts(call, offered, old(BooksNow()), BooksNow())
      ensures offered ==>
                tx.accepted == old(tx.accepted)
                  + if call.skb.linear && |call.skb.data| <= MAX_PAYLOAD_SIZE then [call.skb.data] else []
    {
      Device();
      offered := false;
      match call
      case Xmit(skb) =>
        if awake {
          offered := true;
          var busy := StartXmit(skb);
        }
      case Poll(link, buffers) => PollTimer(link, buffers);
      case Stop => awake := false;
    }

    /**
     * Flow control and conservation over whole runs: for every sequence of calls and any device activity between
     * and during them, each call accounts for the step from one entry of `books` to the next, every frame offered
     * gets its own verdict and none is refused; the drop counter grows by the number of nonlinear or oversized frames
     * among them; no frame is offered between a stop and the next poll; and both rings' histories stay runs of their
     * transition systems.
     */
    method Serve(calls: seq<Call>) returns (offered: seq<bool>, ghost books: seq<Books>)
      requires Valid()
      requires forall c :: 0 <= c < |calls| && calls[c].Poll? ==> |calls[c].buffers| == RX_PER_POLL - 1
      modifies this, rx, rx.mem, tx, tx.mem
      ensures Valid() && |offered| == |calls|
      ensures old(tx.run) <= tx.run && old(rx.run) <= rx.run
      ensures |books| == |calls| + 1 && books[0] == old(BooksNow()) && books[|calls|] == BooksNow()
      ensures forall c :: 0 <= c < |calls| ==> Accounts(calls[c], offered[c], books[c], books[c + 1])
      ensures carrier == CarrierAfter(calls, old(carrier))
      ensures tx.log == old(tx.log) + VerdictsOf(calls, offered, old(carrier))
      ensures tx.dropped == old(tx.dropped) + |UnsuitableOffers(calls, offered)|
      ensures forall c :: 0 <= c < |calls| && Stopped(calls, c) ==> !offered[c]
    {
      offered, books := [], [BooksNow()];
      for c := 0 to |calls|
        invariant Valid() && |offered| == c && Chained(calls, offered, books)
        invariant old(tx.run) <= tx.run && old(rx.run) <= rx.run
        invariant books[0] == old(BooksNow()) && books[c] == BooksNow()
      {
        var o := Make(calls[c]);
        ChainMore(calls, offered, o, books, BooksNow());
        offered, books := offered + [o], books + [BooksNow()];
      }
      ChainedServed(calls, offered, books);
      assert calls[..|calls|] == calls;
    }
  }

  /** The queue awake without a carrier, from load on: the link comes up with one poll and goes down with the next. */
  method AwakeWithoutCarrier(rxMem: seq<RxSystem.Slot>, txMem: seq<TxSystem.Slot>, buffers: seq<bool>)
    returns (eth: EthDevice)
    requires 1 <= |rxMem| <= MAX_SLOTS && 2 <= |txMem| <= MAX_SLOTS
    requires forall i :: 0 <= i < |rxMem| ==> |rxMem[i].data| == MAX_PAYLOAD_SIZE
    requires forall i :: 0 <= i < |txMem| ==> |txMem[i].data| == MAX_PAYLOAD_SIZE
    requires |buffers| == RX_PER_POLL - 1
    ensures eth.Valid() && eth.awake && !eth.carrier
  {
    eth := new EthDevice(0, rxMem, 0, txMem);
    eth.PollTimer(true, buffers);
    eth.PollTimer(false, buffers);
  }
}
