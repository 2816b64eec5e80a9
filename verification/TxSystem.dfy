/**
 * The transmit ring as a transition system shared by driver and device. One event is one access to shared
 * state; device events may fall between any two driver events.
 */
module TxSystem {
  import opened Bytes
  import opened Ring
  import opened Descriptors

  type Frame = seq<byte>

  datatype Slot = Slot(sent: bool, length: nat, data: seq<byte>)

  /** What ccat_eth_start_xmit answers: taken, dropped and counted, or refused and left with the caller. */
  datatype Verdict = Queued(frame: Frame) | Discarded | Refused

  /** Progress of the device on its oldest descriptor. */
  datatype Transfer = NoTransfer | Fetched(length: nat) | OnTheWire

  /** Progress of the driver between two positions of `next`. */
  datatype Phase =
    | Idle
    | Marked
    | Claimed(frame: Frame)
    | Copying(frame: Frame, copied: nat)
    | Submitted(frame: Frame)
    | Counted

  /**
   * `accepted` are the frames submitted since the last reset, `done` counts those the device has finished, and
   * `wire` is what it sent. `log` holds all verdicts since load, `log[mark..]` those since the reset.
   */
  datatype State = State(
    slots: seq<Slot>, next: nat, resetting: bool, phase: Phase,
    fifo: seq<nat>, transfer: Transfer, done: nat, accepted: seq<Frame>, wire: seq<Frame>,
    log: seq<Verdict>, mark: nat, bytes: nat, dropped: nat)

  datatype Event =
    | DeviceFetch | DeviceSend | DeviceComplete
    | HardwareReset | MarkFree
    | Claim(frame: Frame) | SetLength | CopyByte | Submit | AddBytes | Advance
    | Discard(linear: bool, length: nat) | Refuse

  function SumQueued(log: seq<Verdict>): nat {
    if log == [] then 0
    else SumQueued(log[..|log| - 1]) + match log[|log| - 1] { case Queued(f) => |f| case _ => 0 }
  }

  function CountDiscarded(log: seq<Verdict>): nat {
    if log == [] then 0
    else CountDiscarded(log[..|log| - 1]) + match log[|log| - 1] { case Discarded => 1 case _ => 0 }
  }

  function QueuedFrames(log: seq<Verdict>): seq<Frame> {
    if log == [] then []
    else QueuedFrames(log[..|log| - 1]) + match log[|log| - 1] { case Queued(f) => [f] case _ => [] }
  }

  predicate HasHead(s: State) {
    s.fifo != [] && TxSlotOf(s.fifo[0]) < |s.slots|
  }

  function Head(s: State): (i: nat)
    requires HasHead(s)
    ensures i < |s.slots|
  {
    TxSlotOf(s.fifo[0])
  }

  /** The device sends the payload bytes inside the region its descriptor names. */
  function SendLength(length: nat, word: nat): nat {
    if length <= FetchedPayload(TxCountOf(word)) then length else FetchedPayload(TxCountOf(word))
  }

  predicate Enabled(s: State, e: Event) {
    s.next < |s.slots| &&
    match e
    case DeviceFetch => HasHead(s) && s.transfer == NoTransfer
    case DeviceSend =>
      HasHead(s) && s.transfer.Fetched? && SendLength(s.transfer.length, s.fifo[0]) <= |s.slots[Head(s)].data|
    case DeviceComplete => HasHead(s) && s.transfer == OnTheWire
    case HardwareReset => s.phase == Idle && !s.resetting
    case MarkFree => s.phase == Idle && s.resetting
    case Claim(f) => s.phase == Idle && !s.resetting && s.slots[s.next].sent && |f| <= MAX_PAYLOAD_SIZE
    case SetLength => s.phase.Claimed?
    case CopyByte =>
      s.phase.Copying? && s.phase.copied < |s.phase.frame| && s.phase.copied < |s.slots[s.next].data|
    case Submit => s.phase.Copying? && s.phase.copied == |s.phase.frame|
    case AddBytes => s.phase.Submitted?
    case Advance => if s.resetting then s.phase == Marked else s.phase == Counted
    case Discard(linear, length) => s.phase == Idle && !s.resetting && (!linear || length > MAX_PAYLOAD_SIZE)
    case Refuse => s.phase == Idle && !s.resetting && !s.slots[s.next].sent
  }

  predicate IsDeviceEvent(e: Event) {
    e.DeviceFetch? || e.DeviceSend? || e.DeviceComplete?
  }

  function SetSlot(s: State, i: nat, slot: Slot): State
    requires i < |s.slots|
  {
    s.(slots := s.slots[i := slot])
  }

  function Next(s: State, e: Event): (t: State)
    requires Enabled(s, e)
  {
    var here := s.slots[s.next];
    match e
    case DeviceFetch =>
      s.(transfer := Fetched(s.slots[Head(s)].length))
    case DeviceSend =>
      s.(transfer := OnTheWire,
         wire := s.wire + [s.slots[Head(s)].data[..SendLength(s.transfer.length, s.fifo[0])]])
    case DeviceComplete =>
      SetSlot(s, Head(s), s.slots[Head(s)].(sent := true)).
        (transfer := NoTransfer, fifo := s.fifo[1..], done := s.done + 1)
    case HardwareReset =>
      s.(fifo := [], transfer := NoTransfer, done := 0, accepted := [], wire := [],
         mark := |s.log|, resetting := true, next := 0)
    case MarkFree =>
      SetSlot(s, s.next, here.(sent := true)).(phase := Marked)
    case Claim(f) =>
      SetSlot(s, s.next, here.(sent := false)).(phase := Claimed(f))
    case SetLength =>
      SetSlot(s, s.next, here.(length := |s.phase.frame|)).(phase := Copying(s.phase.frame, 0))
    case CopyByte =>
      var k := s.phase.copied;
      SetSlot(s, s.next, here.(data := here.data[k := s.phase.frame[k]])).(phase := Copying(s.phase.frame, k + 1))
    case Submit =>
      var f := s.phase.frame;
      s.(phase := Submitted(f), fifo := s.fifo + [TxWord(s.next, |f|)], accepted := s.accepted + [f])
    case AddBytes =>
      var f := s.phase.frame;
      s.(phase := Counted, log := s.log + [Queued(f)], bytes := s.bytes + |f|)
    case Advance =>
      var next' := Succ(|s.slots|, s.next);
      s.(phase := Idle, next := next', resetting := s.resetting && next' != 0)
    case Discard(_, _) => s.(log := s.log + [Discarded], dropped := s.dropped + 1)
    case Refuse => s.(log := s.log + [Refused])
  }

  /** The driver loads with arbitrary memory contents and starts with a reset of the empty device FIFO. */
  predicate Init(s: State) {
    && 1 <= |s.slots| <= MAX_SLOTS
    && (forall i :: 0 <= i < |s.slots| ==> |s.slots[i].data| == MAX_PAYLOAD_SIZE)
    && s.next == 0 && s.resetting && s.phase == Idle
    && s.fifo == [] && s.transfer == NoTransfer && s.done == 0 && s.accepted == [] && s.wire == []
    && s.log == [] && s.mark == 0 && s.bytes == 0 && s.dropped == 0
  }

  ghost predicate Step(s: State, t: State) {
    exists e :: Enabled(s, e) && t == Next(s, e)
  }

  ghost predicate IsRun(run: seq<State>) {
    && run != []
    && Init(run[0])
    && forall i :: 0 < i < |run| ==> Step(run[i - 1], run[i])
  }

  /* ---- Ownership of the ring ---- */

  predicate Holds(slot: Slot, f: Frame) {
    |f| <= MAX_PAYLOAD_SIZE && slot.length == |f| && f <= slot.data
  }

  predicate InFlightAt(slots: seq<Slot>, base: nat, fifo: seq<nat>, frames: seq<Frame>, j: nat)
    requires base < |slots| && j < |fifo| == |frames| <= |slots|
  {
    var i := Plus(|slots|, base, j);
    fifo[j] == TxWord(i, |frames[j]|) && !slots[i].sent && Holds(slots[i], frames[j])
  }

  predicate FreeAt(slots: seq<Slot>, base: nat, k: nat)
    requires base < |slots| && k < |slots|
  {
    slots[Plus(|slots|, base, k)].sent
  }

  /**
   * From slot `base` on, in ring order: the slots in flight, marked unsent and holding `frames`; then `hand`
   * slots (none or one) the driver is filling, also marked unsent; then only slots marked sent.
   */
  predicate Partition(slots: seq<Slot>, base: nat, fifo: seq<nat>, frames: seq<Frame>, hand: nat) {
    && base < |slots| <= MAX_SLOTS
    && |frames| == |fifo| <= |fifo| + hand <= |slots|
    && (forall j :: 0 <= j < |fifo| ==> InFlightAt(slots, base, fifo, frames, j))
    && (forall k :: |fifo| + hand <= k < |slots| ==> FreeAt(slots, base, k))
    && (hand == 1 ==> !slots[Plus(|slots|, base, |fifo|)].sent)
  }

  lemma HeadSlot(slots: seq<Slot>, base: nat, fifo: seq<nat>, frames: seq<Frame>, hand: nat)
    requires Partition(slots, base, fifo, frames, hand) && fifo != []
    ensures TxSlotOf(fifo[0]) == base && !slots[base].sent && Holds(slots[base], frames[0])
    ensures TxCountOf(fifo[0]) == if |frames[0]| == MAX_PAYLOAD_SIZE then 0 else WordCount(|frames[0]|)
  {
    assert InFlightAt(slots, base, fifo, frames, 0);
    TxWordDecodes(base, |frames[0]|);
  }

  /** The device marks its oldest slot sent. */
  lemma CompleteHead(slots: seq<Slot>, base: nat, fifo: seq<nat>, frames: seq<Frame>, hand: nat, slot: Slot)
    requires Partition(slots, base, fifo, frames, hand) && fifo != [] && slot.sent
    ensures Partition(slots[base := slot], Succ(|slots|, base), fifo[1..], frames[1..], hand)
  {
    var slots', n, base' := slots[base := slot], |slots|, Succ(|slots|, base);
    forall j | 0 <= j < |fifo| - 1
      ensures InFlightAt(slots', base', fifo[1..], frames[1..], j)
    {
      assert InFlightAt(slots, base, fifo, frames, j + 1);
      assert Plus(n, base', j) == Plus(n, base, j + 1) != base;
    }
    forall k | |fifo| - 1 + hand <= k < n
      ensures FreeAt(slots', base', k)
    {
      assert k + 1 < n ==> FreeAt(slots, base, k + 1);
    }
  }

  /** The driver takes the first free slot into its hands. */
  lemma ClaimFree(slots: seq<Slot>, base: nat, fifo: seq<nat>, frames: seq<Frame>, slot: Slot)
    requires Partition(slots, base, fifo, frames, 0) && |fifo| < |slots| && !slot.sent
    ensures Partition(slots[Plus(|slots|, base, |fifo|) := slot], base, fifo, frames, 1)
  {
    var slots' := slots[Plus(|slots|, base, |fifo|) := slot];
    forall j | 0 <= j < |fifo|
      ensures InFlightAt(slots', base, fifo, frames, j)
    {
      assert InFlightAt(slots, base, fifo, frames, j);
    }
    forall k | |fifo| + 1 <= k < |slots|
      ensures FreeAt(slots', base, k)
    {
      assert FreeAt(slots, base, k);
    }
  }

  /** Filling the slot in hand changes no other slot. */
  lemma FillHand(slots: seq<Slot>, base: nat, fifo: seq<nat>, frames: seq<Frame>, slot: Slot)
    requires Partition(slots, base, fifo, frames, 1) && !slot.sent
    ensures Partition(slots[Plus(|slots|, base, |fifo|) := slot], base, fifo, frames, 1)
  {
    var slots' := slots[Plus(|slots|, base, |fifo|) := slot];
    forall j | 0 <= j < |fifo|
      ensures InFlightAt(slots', base, fifo, frames, j)
    {
      assert InFlightAt(slots, base, fifo, frames, j);
    }
    forall k | |fifo| + 1 <= k < |slots|
      ensures FreeAt(slots', base, k)
    {
      assert FreeAt(slots, base, k);
    }
  }

  lemma SubmitHand(slots: seq<Slot>, base: nat, fifo: seq<nat>, frames: seq<Frame>, f: Frame)
    requires Partition(slots, base, fifo, frames, 1)
    requires Holds(slots[Plus(|slots|, base, |fifo|)], f)
    ensures Partition(slots, base, fifo + [TxWord(Plus(|slots|, base, |fifo|), |f|)], frames + [f], 0)
  {
    var fifo' := fifo + [TxWord(Plus(|slots|, base, |fifo|), |f|)];
    forall j | 0 <= j < |fifo'|
      ensures InFlightAt(slots, base, fifo', frames + [f], j)
    {
      assert j < |fifo| ==> InFlightAt(slots, base, fifo, frames, j);
    }
    forall k | |fifo'| <= k < |slots|
      ensures FreeAt(slots, base, k)
    {
      assert FreeAt(slots, base, k);
    }
  }

  /* ---- The inductive invariant ---- */

  /** Slots the driver has claimed and not yet submitted. */
  function Hand(s: State): nat {
    if s.phase.Claimed? || s.phase.Copying? then 1 else 0
  }

  /** First slot not yet submitted. */
  function Tail(s: State): (i: nat)
    requires s.next < |s.slots|
    ensures i < |s.slots|
  {
    if s.phase.Submitted? || s.phase.Counted? then Succ(|s.slots|, s.next) else s.next
  }

  /** Oldest slot in flight. */
  function Base(s: State): (b: nat)
    requires s.next < |s.slots| && |s.fifo| <= |s.slots|
    ensures b < |s.slots|
  {
    Plus(|s.slots|, Tail(s), |s.slots| - |s.fifo|)
  }

  predicate Shape(s: State) {
    && s.next < |s.slots| <= MAX_SLOTS
    && (forall i :: 0 <= i < |s.slots| ==> |s.slots[i].data| == MAX_PAYLOAD_SIZE)
    && s.mark <= |s.log|
    && |s.fifo| <= |s.slots|
    && (s.phase.Marked? ==> s.resetting)
  }

  /** While resetting, the device has nothing to do and the slots passed by `next` are marked sent. */
  predicate ResetProgress(s: State)
    requires Shape(s)
  {
    s.resetting ==>
      && s.fifo == [] && s.accepted == []
      && (s.phase == Idle || s.phase == Marked)
      && (forall i :: 0 <= i < s.next ==> s.slots[i].sent)
      && (s.phase == Marked ==> s.slots[s.next].sent)
  }

  predicate Filling(s: State)
    requires Shape(s)
  {
    match s.phase
    case Claimed(f) => |f| <= MAX_PAYLOAD_SIZE
    case Copying(f, k) =>
      && k <= |f| <= MAX_PAYLOAD_SIZE
      && s.slots[s.next].length == |f|
      && f[..k] <= s.slots[s.next].data
    case _ => true
  }

  predicate Owned(s: State)
    requires Shape(s)
  {
    && |s.accepted| == s.done + |s.fifo|
    && (!s.resetting ==> Partition(s.slots, Base(s), s.fifo, s.accepted[s.done..], Hand(s)))
  }

  /** What the wire shows of an accepted frame: all of it, unless its length does not fit the descriptor. */
  function OnWire(f: Frame): (w: Frame) {
    if |f| == MAX_PAYLOAD_SIZE then [] else f
  }

  predicate WireInOrder(s: State) {
    && |s.wire| == s.done + (if s.transfer == OnTheWire then 1 else 0)
    && |s.wire| <= |s.accepted|
    && forall i :: 0 <= i < |s.wire| ==> s.wire[i] == OnWire(s.accepted[i])
  }

  predicate TransferConsistent(s: State) {
    && (s.transfer != NoTransfer ==> s.fifo != [])
    && (s.transfer.Fetched? ==> s.done < |s.accepted| && s.transfer.length == |s.accepted[s.done]|)
  }

  predicate Accounted(s: State)
    requires s.mark <= |s.log|
  {
    && s.bytes == SumQueued(s.log) && s.dropped == CountDiscarded(s.log)
    && s.accepted == QueuedFrames(s.log[s.mark..]) + if s.phase.Submitted? then [s.phase.frame] else []
  }

  /** Who owns which slot, what is in it, and what has left the ring. */
  predicate RingInv(s: State) {
    && Shape(s) && ResetProgress(s) && Filling(s) && Owned(s)
    && WireInOrder(s) && TransferConsistent(s)
  }

  predicate Inv(s: State) {
    RingInv(s) && Accounted(s)
  }

  lemma InitInv(s: State)
    requires Init(s)
    ensures Inv(s)
  {
    assert RingInv(s);
    assert s.log[s.mark..] == [];
  }

  /* ---- Device steps ---- */

  lemma HeadAt(s: State)
    requires Shape(s) && ResetProgress(s) && Owned(s) && s.fifo != []
    ensures HasHead(s) && Head(s) == Base(s) && !s.slots[Head(s)].sent
    ensures !s.resetting && Holds(s.slots[Head(s)], s.accepted[s.done])
    ensures TxCountOf(s.fifo[0])
         == if |s.accepted[s.done]| == MAX_PAYLOAD_SIZE then 0 else WordCount(|s.accepted[s.done]|)
  {
    HeadSlot(s.slots, Base(s), s.fifo, s.accepted[s.done..], Hand(s));
  }

  lemma FetchKeepsRing(s: State)
    requires RingInv(s) && Enabled(s, DeviceFetch)
    ensures RingInv(Next(s, DeviceFetch))
  {
    HeadAt(s);
    var t := Next(s, DeviceFetch);
    assert Owned(t) && WireInOrder(t);
  }

  /** The device sends exactly what OnWire says of its oldest frame. */
  lemma SentIsOnWire(s: State)
    requires RingInv(s) && Enabled(s, DeviceSend)
    ensures s.done < |s.accepted|
    ensures s.slots[Head(s)].data[..SendLength(s.transfer.length, s.fifo[0])] == OnWire(s.accepted[s.done])
  {
    HeadAt(s);
    var f := s.accepted[s.done];
    assert s.slots[Head(s)].data[..|f|] == f;
  }

  lemma SendKeepsRing(s: State)
    requires RingInv(s) && Enabled(s, DeviceSend)
    ensures RingInv(Next(s, DeviceSend))
  {
    SentIsOnWire(s);
    var t := Next(s, DeviceSend);
    assert Owned(t);
    assert WireInOrder(t);
  }

  lemma CompleteKeepsOwned(s: State)
    requires Shape(s) && Owned(s) && !s.resetting && Enabled(s, DeviceComplete) && Head(s) == Base(s)
    ensures Shape(Next(s, DeviceComplete)) && Owned(Next(s, DeviceComplete))
    ensures Hand(s) == 1 ==> s.next != Base(s)
  {
    var t := Next(s, DeviceComplete);
    CompleteHead(s.slots, Base(s), s.fifo, s.accepted[s.done..], Hand(s), t.slots[Base(s)]);
    assert s.accepted[s.done..][1..] == t.accepted[t.done..];
    assert Base(t) == Succ(|s.slots|, Base(s));
  }

  lemma CompleteKeepsRing(s: State)
    requires RingInv(s) && Enabled(s, DeviceComplete)
    ensures RingInv(Next(s, DeviceComplete))
  {
    HeadAt(s);
    CompleteKeepsOwned(s);
  }

  /* ---- Driver steps ---- */

  /** The slot at `next` tests ready if and only if fewer than all slots are in flight. */
  lemma ReadyIffRoom(s: State)
    requires Shape(s) && Owned(s) && s.phase == Idle && !s.resetting
    ensures s.slots[s.next].sent <==> |s.fifo| < |s.slots|
  {
    if |s.fifo| < |s.slots| {
      assert FreeAt(s.slots, Base(s), |s.fifo|);
    } else {
      assert InFlightAt(s.slots, Base(s), s.fifo, s.accepted[s.done..], 0);
    }
  }

  lemma ClaimKeepsOwned(s: State, f: Frame)
    requires Shape(s) && Owned(s) && Enabled(s, Claim(f)) && |s.fifo| < |s.slots|
    ensures Shape(Next(s, Claim(f))) && Owned(Next(s, Claim(f)))
  {
    ClaimFree(s.slots, Base(s), s.fifo, s.accepted[s.done..], Next(s, Claim(f)).slots[s.next]);
  }

  lemma ClaimKeepsRing(s: State, f: Frame)
    requires RingInv(s) && Enabled(s, Claim(f))
    ensures RingInv(Next(s, Claim(f)))
  {
    ReadyIffRoom(s);
    ClaimKeepsOwned(s, f);
  }

  /** A write to the slot in hand leaves the rest of the ring alone. */
  lemma FillKeepsOwned(s: State, t: State, slot: Slot)
    requires Shape(s) && Owned(s) && !s.resetting && Hand(s) == 1 && !slot.sent
    requires t.slots == s.slots[s.next := slot] && t.next == s.next && t.resetting == s.resetting && Shape(t)
    requires t.fifo == s.fifo && t.accepted == s.accepted && t.done == s.done && Hand(t) == 1
    ensures Owned(t)
  {
    FillHand(s.slots, Base(s), s.fifo, s.accepted[s.done..], slot);
    assert Base(t) == Base(s) && Plus(|s.slots|, Base(s), |s.fifo|) == s.next;
  }

  /** The slot in hand stays marked unsent. */
  lemma HandUnsent(s: State)
    requires Shape(s) && Owned(s) && !s.resetting && Hand(s) == 1
    ensures !s.slots[s.next].sent
  {
    assert Plus(|s.slots|, Base(s), |s.fifo|) == s.next;
  }

  lemma SetLengthKeepsRing(s: State)
    requires RingInv(s) && Enabled(s, SetLength)
    ensures RingInv(Next(s, SetLength))
  {
    var t := Next(s, SetLength);
    HandUnsent(s);
    FillKeepsOwned(s, t, t.slots[s.next]);
  }

  /** One more byte of the frame is in place. */
  lemma CopyExtends(data: seq<byte>, f: Frame, k: nat)
    requires k < |f| && k < |data| && f[..k] <= data
    ensures f[..k + 1] <= data[k := f[k]]
  {
    assert f[..k + 1] == f[..k] + [f[k]];
  }

  lemma CopyByteKeepsRing(s: State)
    requires RingInv(s) && Enabled(s, CopyByte)
    ensures RingInv(Next(s, CopyByte))
  {
    var t := Next(s, CopyByte);
    HandUnsent(s);
    FillKeepsOwned(s, t, t.slots[s.next]);
    CopyExtends(s.slots[s.next].data, s.phase.frame, s.phase.copied);
  }

  lemma SubmitKeepsOwned(s: State)
    requires Shape(s) && Owned(s) && !s.resetting && Filling(s) && Enabled(s, Submit)
    ensures Shape(Next(s, Submit)) && Owned(Next(s, Submit))
  {
    var t := Next(s, Submit);
    var f := s.phase.frame;
    assert f[..|f|] == f;
    SubmitHand(s.slots, Base(s), s.fifo, s.accepted[s.done..], f);
    assert t.accepted[t.done..] == s.accepted[s.done..] + [f];
    assert Base(t) == Base(s) && Plus(|s.slots|, Base(s), |s.fifo|) == s.next;
  }

  lemma SubmitKeepsRing(s: State)
    requires RingInv(s) && Enabled(s, Submit)
    ensures RingInv(Next(s, Submit))
  {
    SubmitKeepsOwned(s);
  }

  lemma ResetKeepsRing(s: State)
    requires RingInv(s) && Enabled(s, HardwareReset)
    ensures RingInv(Next(s, HardwareReset))
  {
    assert Owned(Next(s, HardwareReset));
  }

  lemma MarkFreeKeepsRing(s: State)
    requires RingInv(s) && Enabled(s, MarkFree)
    ensures RingInv(Next(s, MarkFree))
  {
    assert Owned(Next(s, MarkFree));
  }

  predicate IsVerdict(e: Event) {
    e == AddBytes || e.Discard? || e == Refuse
  }

  /** Ownership depends on the ring, the FIFO and the accepted frames only. */
  lemma SameOwners(s: State, t: State)
    requires Shape(s) && Owned(s) && Shape(t)
    requires t.slots == s.slots && t.fifo == s.fifo && t.accepted == s.accepted && t.done == s.done
    requires t.resetting == s.resetting && Tail(t) == Tail(s) && Hand(t) == Hand(s)
    ensures Owned(t)
  {
    assert Base(t) == Base(s);
  }

  lemma VerdictKeepsRing(s: State, e: Event)
    requires RingInv(s) && Enabled(s, e) && IsVerdict(e)
    ensures RingInv(Next(s, e))
  {
    var t := Next(s, e);
    SameOwners(s, t);
  }

  /** The end of a reset: all slots are free and nothing is in flight. */
  lemma ResetEndsFree(s: State)
    requires Shape(s) && ResetProgress(s) && s.resetting && Enabled(s, Advance)
    requires Succ(|s.slots|, s.next) == 0
    ensures forall k :: 0 <= k < |s.slots| ==> FreeAt(s.slots, 0, k)
  {
    forall k | 0 <= k < |s.slots|
      ensures FreeAt(s.slots, 0, k)
    {
      assert s.slots[Plus(|s.slots|, 0, k)].sent;
    }
  }

  lemma AdvanceKeepsOwned(s: State)
    requires Shape(s) && ResetProgress(s) && Owned(s) && Enabled(s, Advance)
    ensures Shape(Next(s, Advance)) && Owned(Next(s, Advance))
  {
    var t := Next(s, Advance);
    if !s.resetting {
      assert Base(t) == Base(s);
    } else if !t.resetting {
      ResetEndsFree(s);
      assert Base(t) == 0;
    }
  }

  lemma AdvanceKeepsRing(s: State)
    requires RingInv(s) && Enabled(s, Advance)
    ensures RingInv(Next(s, Advance))
  {
    AdvanceKeepsOwned(s);
  }

  lemma StepKeepsRing(s: State, e: Event)
    requires RingInv(s) && Enabled(s, e)
    ensures RingInv(Next(s, e))
  {
    match e
    case DeviceFetch => FetchKeepsRing(s);
    case DeviceSend => SendKeepsRing(s);
    case DeviceComplete => CompleteKeepsRing(s);
    case HardwareReset => ResetKeepsRing(s);
    case MarkFree => MarkFreeKeepsRing(s);
    case Claim(f) => ClaimKeepsRing(s, f);
    case SetLength => SetLengthKeepsRing(s);
    case CopyByte => CopyByteKeepsRing(s);
    case Submit => SubmitKeepsRing(s);
    case AddBytes => VerdictKeepsRing(s, e);
    case Discard(_, _) => VerdictKeepsRing(s, e);
    case Refuse => VerdictKeepsRing(s, e);
    case Advance => AdvanceKeepsRing(s);
  }

  /* ---- Accounting ---- */

  lemma SumAppend(log: seq<Verdict>, v: Verdict)
    ensures SumQueued(log + [v]) == SumQueued(log) + if v.Queued? then |v.frame| else 0
  {
    assert (log + [v])[..|log|] == log;
  }

  lemma CountAppend(log: seq<Verdict>, v: Verdict)
    ensures CountDiscarded(log + [v]) == CountDiscarded(log) + if v.Discarded? then 1 else 0
  {
    assert (log + [v])[..|log|] == log;
  }

  lemma FramesAppend(log: seq<Verdict>, mark: nat, v: Verdict)
    requires mark <= |log|
    ensures QueuedFrames((log + [v])[mark..]) == QueuedFrames(log[mark..]) + if v.Queued? then [v.frame] else []
  {
    var epoch := log[mark..];
    assert (log + [v])[mark..] == epoch + [v] && (epoch + [v])[..|epoch|] == epoch;
  }

  /** One more verdict, counted once. */
  lemma AccountOne(s: State, t: State, v: Verdict)
    requires s.mark <= |s.log| && Accounted(s)
    requires t.log == s.log + [v] && t.mark == s.mark && t.accepted == s.accepted && !t.phase.Submitted?
    requires if v.Queued? then s.phase == Submitted(v.frame) else !s.phase.Submitted?
    requires t.bytes == s.bytes + if v.Queued? then |v.frame| else 0
    requires t.dropped == s.dropped + if v.Discarded? then 1 else 0
    ensures Accounted(t)
  {
    SumAppend(s.log, v);
    CountAppend(s.log, v);
    FramesAppend(s.log, s.mark, v);
  }

  lemma ResetKeepsAccounted(s: State)
    requires s.mark <= |s.log| && Accounted(s) && Enabled(s, HardwareReset)
    ensures Accounted(Next(s, HardwareReset))
  {
    assert s.log[|s.log|..] == [];
  }

  lemma StepKeepsAccounted(s: State, e: Event)
    requires s.mark <= |s.log| && Accounted(s) && Enabled(s, e)
    ensures Next(s, e).mark <= |Next(s, e).log| && Accounted(Next(s, e))
  {
    var t := Next(s, e);
    if e == AddBytes {
      AccountOne(s, t, Queued(s.phase.frame));
    } else if e.Discard? {
      AccountOne(s, t, Discarded);
    } else if e == Refuse {
      AccountOne(s, t, Refused);
    } else if e == HardwareReset {
      ResetKeepsAccounted(s);
    }
  }

  lemma StepKeepsInv(s: State, e: Event)
    requires Inv(s) && Enabled(s, e)
    ensures Inv(Next(s, e))
  {
    StepKeepsRing(s, e);
    StepKeepsAccounted(s, e);
  }

  lemma {:induction false} RunInv(run: seq<State>, i: nat)
    requires IsRun(run) && i < |run|
    ensures Inv(run[i])
  {
    if i == 0 {
      InitInv(run[0]);
    } else {
      RunInv(run, i - 1);
      assert Step(run[i - 1], run[i]);
      var e :| Enabled(run[i - 1], e) && run[i] == Next(run[i - 1], e);
      StepKeepsInv(run[i - 1], e);
    }
  }

  /* ---- What every run keeps ---- */

  /** The `j`-th descriptor in flight, counted behind the tail: its slot and the frame in it. */
  predicate InFlightBehind(s: State, j: nat)
    requires s.next < |s.slots| && j < |s.fifo| <= |s.slots| && |s.accepted| == s.done + |s.fifo|
  {
    var i := Plus(|s.slots|, Tail(s), |s.slots| - |s.fifo| + j);
    TxSlotOf(s.fifo[j]) == i && !s.slots[i].sent && Holds(s.slots[i], s.accepted[s.done + j])
  }

  /** The slots in flight, in submission order, are the slots just behind the tail, each holding its frame. */
  predicate InFlightBehindTail(s: State) {
    && s.next < |s.slots| && |s.fifo| <= |s.slots| && |s.accepted| == s.done + |s.fifo|
    && forall j :: 0 <= j < |s.fifo| ==> InFlightBehind(s, j)
  }

  lemma OwnedInFlight(s: State, j: nat)
    requires Shape(s) && Owned(s) && !s.resetting && j < |s.fifo|
    ensures InFlightBehind(s, j)
  {
    var n, base, frames := |s.slots|, Base(s), s.accepted[s.done..];
    assert InFlightAt(s.slots, base, s.fifo, frames, j);
    assert Plus(n, base, j) == Plus(n, Tail(s), n - |s.fifo| + j);
    TxWordDecodes(Plus(n, base, j), |frames[j]|);
  }

  /** A slot is marked sent if and only if it is neither in flight nor in the driver's hands. */
  predicate SentUnlessOwned(s: State) {
    var n, q := |s.slots|, |s.fifo|;
    && s.next < n && q <= n
    && forall k :: 0 <= k < n ==> (s.slots[Plus(n, Tail(s), k)].sent <==> Hand(s) <= k < n - q)
  }

  lemma OwnedSentFlag(s: State, k: nat)
    requires Shape(s) && Owned(s) && !s.resetting && k < |s.slots|
    ensures s.slots[Plus(|s.slots|, Tail(s), k)].sent <==> Hand(s) <= k < |s.slots| - |s.fifo|
  {
    var n, q := |s.slots|, |s.fifo|;
    if k >= n - q {
      OwnedInFlight(s, k - (n - q));
    } else if k < Hand(s) {
      HandUnsent(s);
    } else {
      assert FreeAt(s.slots, Base(s), q + k) && Plus(n, Base(s), q + k) == Plus(n, Tail(s), k);
    }
  }

  lemma OwnedBehindTail(s: State)
    requires Shape(s) && Owned(s) && !s.resetting
    ensures InFlightBehindTail(s)
  {
    forall j | 0 <= j < |s.fifo|
      ensures InFlightBehind(s, j)
    {
      OwnedInFlight(s, j);
    }
  }

  lemma OwnedSentFlags(s: State)
    requires Shape(s) && Owned(s) && !s.resetting
    ensures SentUnlessOwned(s)
  {
    var n, q := |s.slots|, |s.fifo|;
    forall k | 0 <= k < n
      ensures s.slots[Plus(n, Tail(s), k)].sent <==> Hand(s) <= k < n - q
    {
      OwnedSentFlag(s, k);
    }
  }

  /** TX ownership, at every moment of every run outside resets. */
  lemma TxOwnership(run: seq<State>, i: nat)
    requires IsRun(run) && i < |run| && !run[i].resetting
    ensures InFlightBehindTail(run[i]) && SentUnlessOwned(run[i])
  {
    RunInv(run, i);
    OwnedBehindTail(run[i]);
    OwnedSentFlags(run[i]);
  }

  /** The driver writes flag, length and payload only into a slot no pending descriptor names. */
  lemma TxNeverOverwrites(run: seq<State>, i: nat, j: nat)
    requires IsRun(run) && i < |run| && j < |run[i].fifo|
    requires Hand(run[i]) == 1 || Enabled(run[i], Claim([]))
    ensures TxSlotOf(run[i].fifo[j]) != run[i].next
  {
    RunInv(run, i);
    OwnedAvoidsNext(run[i], j);
  }

  lemma OwnedAvoidsNext(s: State, j: nat)
    requires Shape(s) && ResetProgress(s) && Owned(s) && j < |s.fifo|
    requires Hand(s) == 1 || (s.phase == Idle && s.slots[s.next].sent)
    ensures TxSlotOf(s.fifo[j]) != s.next
  {
    OwnedInFlight(s, j);
    if s.phase == Idle {
      ReadyIffRoom(s);
    }
  }

  /**
   * TX conservation: what the wire shows since the last reset is the sequence of accepted frames, in order, once
   * each, as far as the device got. The accepted frames are exactly the offers answered `Queued` since then (plus
   * the one just submitted), and the statistics are the sum and the count over all verdicts since load.
   */
  lemma TxConservation(run: seq<State>, i: nat)
    requires IsRun(run) && i < |run|
    ensures var s := run[i];
            && |s.wire| <= |s.accepted|
            && (forall k :: 0 <= k < |s.wire| ==> s.wire[k] == OnWire(s.accepted[k]))
            && s.mark <= |s.log|
            && (s.phase == Idle ==> s.accepted == QueuedFrames(s.log[s.mark..]))
            && s.bytes == SumQueued(s.log) && s.dropped == CountDiscarded(s.log)
  {
    RunInv(run, i);
  }

  /** The wire is a byte-exact prefix of the accepted frames if and only if none of them has 2024 bytes. */
  lemma TxByteExact(run: seq<State>, i: nat)
    requires IsRun(run) && i < |run|
    ensures var s := run[i];
            && |s.wire| <= |s.accepted|
            && (s.wire <= s.accepted <==> forall k :: 0 <= k < |s.wire| ==> |s.accepted[k]| != MAX_PAYLOAD_SIZE)
  {
    TxConservation(run, i);
    var s := run[i];
    if forall k :: 0 <= k < |s.wire| ==> |s.accepted[k]| != MAX_PAYLOAD_SIZE {
      assert forall k :: 0 <= k < |s.wire| ==> s.wire[k] == s.accepted[k];
    } else {
      var k :| 0 <= k < |s.wire| && |s.accepted[k]| == MAX_PAYLOAD_SIZE;
      assert s.wire[k] != s.accepted[k];
    }
  }

  /** A step leaves the verdicts alone or adds one, and adds a refusal only if the slot at `next` is not ready. */
  lemma VerdictStep(s: State, t: State)
    requires Step(s, t)
    ensures s.log <= t.log && |t.log| <= |s.log| + 1
    ensures |t.log| > |s.log| && t.log[|s.log|] == Refused ==>
              s.next < |s.slots| && s.phase == Idle && !s.resetting && !s.slots[s.next].sent
  {
  }

  lemma NotReadyIsFull(run: seq<State>, i: nat)
    requires IsRun(run) && i < |run| && run[i].phase == Idle && !run[i].resetting
    requires run[i].next < |run[i].slots| && !run[i].slots[run[i].next].sent
    ensures |run[i].fifo| == |run[i].slots|
  {
    RunInv(run, i);
    ReadyIffRoom(run[i]);
  }

  /** Every refusal in the history met a full ring: when `log[..k]` was behind it, all slots were in flight. */
  lemma {:induction false} RefusalMetFullRing(run: seq<State>, i: nat, k: nat) returns (j: nat)
    requires IsRun(run) && i < |run| && k < |run[i].log| && run[i].log[k] == Refused
    ensures j < i && run[j].log == run[i].log[..k] && run[j].phase == Idle && !run[j].resetting
    ensures |run[j].fifo| == |run[j].slots|
  {
    if i > 0 {
      var s, t := run[i - 1], run[i];
      assert Step(s, t);
      VerdictStep(s, t);
      if k < |s.log| {
        assert s.log[..k] == t.log[..k];
        j := RefusalMetFullRing(run, i - 1, k);
      } else {
        assert s.log == t.log[..k];
        j := i - 1;
        NotReadyIsFull(run, i - 1);
      }
    }
  }

  /**
   * Why flow control needs two slots: with the first frame after a reset still in flight, the slot at `next` is
   * ready if and only if the ring has at least two slots.
   */
  lemma FirstFrameLeavesRoom(run: seq<State>, i: nat)
    requires IsRun(run) && i < |run| && run[i].phase == Idle && !run[i].resetting
    requires |run[i].accepted| == 1 && run[i].done == 0
    ensures run[i].next < |run[i].slots| && (run[i].slots[run[i].next].sent <==> |run[i].slots| >= 2)
  {
    RunInv(run, i);
    ReadyIffRoom(run[i]);
  }

  /* ---- Composing runs; what the device leaves alone ---- */

  lemma ExtendRun(run: seq<State>, e: Event)
    requires IsRun(run) && Enabled(run[|run| - 1], e)
    ensures IsRun(run + [Next(run[|run| - 1], e)])
  {
    assert Step(run[|run| - 1], Next(run[|run| - 1], e));
  }

  lemma LastNext(run: seq<State>)
    requires IsRun(run)
    ensures var s := run[|run| - 1];
            && s.next < |s.slots| && |s.slots[s.next].data| == MAX_PAYLOAD_SIZE && |s.fifo| <= |s.slots|
            && (s.phase == Idle && !s.resetting ==>
                 (s.slots[s.next].sent <==> |s.fifo| < |s.slots|))
  {
    RunInv(run, |run| - 1);
    var s := run[|run| - 1];
    if s.phase == Idle && !s.resetting {
      ReadyIffRoom(s);
    }
  }

  lemma LastHead(run: seq<State>)
    requires IsRun(run) && run[|run| - 1].fifo != []
    ensures var s := run[|run| - 1];
            && HasHead(s) && s.next < |s.slots|
            && !s.slots[Head(s)].sent
            && (Hand(s) == 1 ==> Head(s) != s.next)
            && (s.transfer.Fetched? ==> SendLength(s.transfer.length, s.fifo[0]) <= |s.slots[Head(s)].data|)
  {
    RunInv(run, |run| - 1);
    HeadAt(run[|run| - 1]);
  }

  /** What driver code may rely on across any number of device steps. */
  ghost predicate DeviceOnly(s: State, t: State) {
    && |t.slots| == |s.slots|
    && t.next == s.next && t.resetting == s.resetting && t.phase == s.phase
    && t.log == s.log && t.mark == s.mark && t.bytes == s.bytes && t.dropped == s.dropped
    && t.accepted == s.accepted && s.wire <= t.wire && |t.fifo| <= |s.fifo|
    && forall i :: 0 <= i < |s.slots| && s.slots[i].sent ==> t.slots[i] == s.slots[i]
  }

  lemma DeviceStepIsDeviceOnly(s: State, e: Event)
    requires Enabled(s, e) && IsDeviceEvent(e)
    ensures DeviceOnly(s, Next(s, e))
  {
  }

  /* ---- The accepted length that does not arrive ---- */

  lemma LastCopying(run: seq<State>)
    requires IsRun(run) && run[|run| - 1].phase.Copying?
    ensures var s := run[|run| - 1];
            s.next < |s.slots| && s.phase.copied <= |s.phase.frame| <= |s.slots[s.next].data|
  {
    RunInv(run, |run| - 1);
  }

  lemma {:induction false} CopyAll(run: seq<State>) returns (run': seq<State>)
    requires IsRun(run) && run[|run| - 1].phase.Copying?
    ensures IsRun(run') && run <= run'
    ensures var s, t := run[|run| - 1], run'[|run'| - 1];
            t == s.(slots := t.slots, phase := Copying(s.phase.frame, |s.phase.frame|)) && |t.slots| == |s.slots|
    decreases |run[|run| - 1].phase.frame| - run[|run| - 1].phase.copied
  {
    LastCopying(run);
    if run[|run| - 1].phase.copied == |run[|run| - 1].phase.frame| {
      run' := run;
    } else {
      run' := Extend(run, CopyByte);
      run' := CopyAll(run');
    }
  }

  lemma Extend(run: seq<State>, e: Event) returns (run': seq<State>)
    requires IsRun(run) && Enabled(run[|run| - 1], e)
    ensures IsRun(run') && run' == run + [Next(run[|run| - 1], e)]
  {
    ExtendRun(run, e);
    run' := run + [Next(run[|run| - 1], e)];
  }

  lemma {:induction false} FinishReset(run: seq<State>) returns (run': seq<State>)
    requires IsRun(run) && run[|run| - 1].resetting && run[|run| - 1].phase == Idle
    ensures IsRun(run') && run <= run'
    ensures var s, t := run[|run| - 1], run'[|run'| - 1];
            t == s.(slots := t.slots, next := 0, resetting := false) && |t.slots| == |s.slots|
    decreases |run[|run| - 1].slots| - run[|run| - 1].next
  {
    LastNext(run);
    run' := Extend(run, MarkFree);
    run' := Extend(run', Advance);
    if run'[|run'| - 1].resetting {
      run' := FinishReset(run');
    }
  }

  lemma StartOne(n: nat, f: Frame) returns (run: seq<State>)
    requires 1 <= n <= MAX_SLOTS && |f| <= MAX_PAYLOAD_SIZE
    ensures IsRun(run)
    ensures var s := run[|run| - 1];
            && |s.slots| == n && s.phase == Copying(f, 0)
            && s.fifo == [] && s.transfer == NoTransfer && s.accepted == [] && s.wire == []
  {
    var blank := Slot(false, 0, seq(MAX_PAYLOAD_SIZE, i => 0));
    var s := State(seq(n, i => blank), 0, true, Idle, [], NoTransfer, 0, [], [], [], 0, 0, 0);
    assert Init(s);
    run := FinishReset([s]);
    LastNext(run);
    run := Extend(run, Claim(f));
    run := Extend(run, SetLength);
  }

  /** On a ring of any size, a frame of any accepted length can be submitted and sent; OnWire of it arrives. */
  lemma SendOne(n: nat, f: Frame) returns (run: seq<State>)
    requires 1 <= n <= MAX_SLOTS && |f| <= MAX_PAYLOAD_SIZE
    ensures IsRun(run) && |run[|run| - 1].slots| == n
    ensures run[|run| - 1].accepted == [f] && run[|run| - 1].wire == [OnWire(f)]
  {
    run := StartOne(n, f);
    run := CopyAll(run);
    LastNext(run);
    run := Extend(run, Submit);
    LastHead(run);
    run := Extend(run, DeviceFetch);
    LastHead(run);
    run := Extend(run, DeviceSend);
    TxConservation(run, |run| - 1);
  }

  /** On a ring of any size, the transmit path accepts a frame of 2024 bytes and the wire does not show it. */
  lemma FullFrameIsLost(n: nat, f: Frame) returns (run: seq<State>)
    requires 1 <= n <= MAX_SLOTS && |f| == MAX_PAYLOAD_SIZE
    ensures IsRun(run) && |run[|run| - 1].slots| == n
    ensures run[|run| - 1].accepted == [f] && !(run[|run| - 1].wire <= run[|run| - 1].accepted)
  {
    run := SendOne(n, f);
    assert run[|run| - 1].wire[0] != f;
  }
}
