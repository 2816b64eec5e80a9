/**
 * The receive ring as a transition system shared by driver and device. One event is one access to shared
 * state, so a run is an arbitrary interleaving of device fills with the driver's poll and reset code.
 */
module RxSystem {
  import opened Bytes
  import opened Ring
  import opened Descriptors

  type Frame = seq<byte>

  /** What the device is assumed to write: at least one byte, and no more than the data area holds. */
  predicate IsFrame(f: Frame) {
    1 <= |f| <= MAX_PAYLOAD_SIZE
  }

  datatype Slot = Slot(received: bool, length: nat, data: seq<byte>)

  /** A frame taken from the ring is passed to the network stack, or lost to a failed allocation. */
  datatype Outcome = Delivered(payload: Frame) | Dropped

  /** Progress of the device in the slot named by the oldest descriptor. */
  datatype Fill = NoFill | WroteData(frame: Frame) | WroteLength(frame: Frame)

  /** Progress of the driver between two positions of `next`. */
  datatype Phase = Idle | Handled | Cleared | Posted

  /**
   * `fifo` holds the descriptor words the device has not finished; `written` the frames it completed since
   * the last reset; `log` what the driver did with frames since it was loaded, `log[mark..]` since the reset.
   */
  datatype State = State(
    slots: seq<Slot>, next: nat, resetting: bool, phase: Phase,
    fifo: seq<nat>, fill: Fill, written: seq<Frame>,
    log: seq<Outcome>, mark: nat, bytes: nat, dropped: nat)

  datatype Event =
    | DeviceData(frame: Frame) | DeviceLength | DeviceFlag
    | HardwareReset | Handle(gotBuffer: bool) | Clear | Post | Advance

  function SumBytes(log: seq<Outcome>): nat {
    if log == [] then 0
    else SumBytes(log[..|log| - 1]) + match log[|log| - 1] { case Delivered(p) => |p| case Dropped => 0 }
  }

  function CountDropped(log: seq<Outcome>): nat {
    if log == [] then 0
    else CountDropped(log[..|log| - 1]) + match log[|log| - 1] { case Delivered(_) => 0 case Dropped => 1 }
  }

  function PayloadLength(length: nat): nat {
    if length < RX_OVERHEAD then 0 else length - RX_OVERHEAD
  }

  /** fifo_dma_rx_ready */
  function Ready(slot: Slot): nat {
    if slot.received then PayloadLength(slot.length) else 0
  }

  predicate HasHead(s: State) {
    s.fifo != [] && RxSlotOf(s.fifo[0]) < |s.slots|
  }

  function Head(s: State): (i: nat)
    requires HasHead(s)
    ensures i < |s.slots|
  {
    RxSlotOf(s.fifo[0])
  }

  predicate Enabled(s: State, e: Event) {
    s.next < |s.slots| &&
    match e
    case DeviceData(f) => HasHead(s) && s.fill == NoFill && IsFrame(f) && |s.slots[Head(s)].data| == MAX_PAYLOAD_SIZE
    case DeviceLength => HasHead(s) && s.fill.WroteData?
    case DeviceFlag => HasHead(s) && s.fill.WroteLength?
    case HardwareReset => s.phase == Idle && !s.resetting
    case Handle(_) =>
      s.phase == Idle && !s.resetting && 0 < Ready(s.slots[s.next]) <= |s.slots[s.next].data|
    case Clear => if s.resetting then s.phase == Idle else s.phase == Handled
    case Post => s.phase == Cleared
    case Advance => s.phase == Posted
  }

  predicate IsDeviceEvent(e: Event) {
    e.DeviceData? || e.DeviceLength? || e.DeviceFlag?
  }

  function Next(s: State, e: Event): (t: State)
    requires Enabled(s, e)
  {
    match e
    case DeviceData(f) =>
      var slot := s.slots[Head(s)];
      s.(slots := s.slots[Head(s) := slot.(data := f + slot.data[|f|..])], fill := WroteData(f))
    case DeviceLength =>
      var slot := s.slots[Head(s)];
      s.(slots := s.slots[Head(s) := slot.(length := |s.fill.frame| + RX_OVERHEAD)], fill := WroteLength(s.fill.frame))
    case DeviceFlag =>
      var slot := s.slots[Head(s)];
      s.(slots := s.slots[Head(s) := slot.(received := true)],
         fill := NoFill, fifo := s.fifo[1..], written := s.written + [s.fill.frame])
    case HardwareReset =>
      s.(fifo := [], fill := NoFill, written := [], mark := |s.log|, resetting := true, next := 0)
    case Handle(gotBuffer) =>
      var len := Ready(s.slots[s.next]);
      if gotBuffer then
        s.(phase := Handled, log := s.log + [Delivered(s.slots[s.next].data[..len])], bytes := s.bytes + len)
      else
        s.(phase := Handled, log := s.log + [Dropped], dropped := s.dropped + 1)
    case Clear =>
      s.(phase := Cleared, slots := s.slots[s.next := s.slots[s.next].(received := false)])
    case Post =>
      s.(phase := Posted, fifo := s.fifo + [RxWord(s.next)])
    case Advance =>
      var next' := Succ(|s.slots|, s.next);
      s.(phase := Idle, next := next', resetting := s.resetting && next' != 0)
  }

  /** The driver loads with arbitrary memory contents and starts with a reset of the empty device FIFO. */
  predicate Init(s: State) {
    && 1 <= |s.slots| <= MAX_SLOTS
    && (forall i :: 0 <= i < |s.slots| ==> |s.slots[i].data| == MAX_PAYLOAD_SIZE)
    && s.next == 0 && s.resetting && s.phase == Idle
    && s.fifo == [] && s.fill == NoFill && s.written == []
    && s.log == [] && s.mark == 0 && s.bytes == 0 && s.dropped == 0
  }

  ghost predicate Step(s: State, t: State) {
    exists e :: Enabled(s, e) && t == Next(s, e)
  }

  ghost predicate IsRun(run: seq<State>) {
    && run != []
    && Init(run[0])
    && forall i :: 0 < i < |run| ==> Step(run[i - 1], run[i])
  }

  /* ---- Ownership of a run of posted slots ---- */

  predicate Holds(slot: Slot, f: Frame) {
    && IsFrame(f)
    && slot.length == |f| + RX_OVERHEAD
    && f <= slot.data
  }

  predicate UnreadAt(slots: seq<Slot>, base: nat, frames: seq<Frame>, j: nat)
    requires base < |slots| && j < |frames| <= |slots|
  {
    var slot := slots[Plus(|slots|, base, j)];
    slot.received && Holds(slot, frames[j])
  }

  predicate PostedAt(slots: seq<Slot>, base: nat, unread: nat, fifo: seq<nat>, j: nat)
    requires base < |slots| && j < |fifo| && unread + |fifo| <= |slots|
  {
    var i := Plus(|slots|, base, unread + j);
    fifo[j] == RxWord(i) && !slots[i].received
  }

  /**
   * From slot `base` on, in ring order: first the slots holding `frames`, flagged as received, then, unflagged,
   * the slots named by the device's descriptors.
   */
  predicate Outstanding(slots: seq<Slot>, base: nat, fifo: seq<nat>, frames: seq<Frame>) {
    && base < |slots| <= MAX_SLOTS
    && |frames| + |fifo| <= |slots|
    && (forall j :: 0 <= j < |frames| ==> UnreadAt(slots, base, frames, j))
    && (forall j :: 0 <= j < |fifo| ==> PostedAt(slots, base, |frames|, fifo, j))
  }

  /** The device's oldest descriptor names the first slot after the unread ones. */
  lemma HeadSlot(slots: seq<Slot>, base: nat, fifo: seq<nat>, frames: seq<Frame>)
    requires Outstanding(slots, base, fifo, frames) && fifo != []
    ensures RxSlotOf(fifo[0]) == Plus(|slots|, base, |frames|)
    ensures !slots[RxSlotOf(fifo[0])].received
  {
    assert PostedAt(slots, base, |frames|, fifo, 0);
    RxWordDecodes(Plus(|slots|, base, |frames|));
  }

  /** Writing an unflagged slot value over the head slot, or over a slot outside the run, keeps the run. */
  lemma WriteUnflagged(slots: seq<Slot>, base: nat, fifo: seq<nat>, frames: seq<Frame>, i: nat, slot: Slot)
    requires Outstanding(slots, base, fifo, frames)
    requires i < |slots| && !slot.received
    requires Distance(|slots|, base, i) >= |frames|
    ensures Outstanding(slots[i := slot], base, fifo, frames)
  {
    var slots' := slots[i := slot];
    forall j | 0 <= j < |frames|
      ensures UnreadAt(slots', base, frames, j)
    {
      assert UnreadAt(slots, base, frames, j);
    }
    forall j | 0 <= j < |fifo|
      ensures PostedAt(slots', base, |frames|, fifo, j)
    {
      assert PostedAt(slots, base, |frames|, fifo, j);
    }
  }

  /** Flagging the head slot moves it to the end of the unread part. */
  lemma FlagHead(slots: seq<Slot>, base: nat, fifo: seq<nat>, frames: seq<Frame>, slot: Slot, f: Frame)
    requires Outstanding(slots, base, fifo, frames) && fifo != []
    requires slot.received && Holds(slot, f)
    ensures Outstanding(slots[Plus(|slots|, base, |frames|) := slot], base, fifo[1..], frames + [f])
  {
    var slots' := slots[Plus(|slots|, base, |frames|) := slot];
    forall j | 0 <= j < |frames| + 1
      ensures UnreadAt(slots', base, frames + [f], j)
    {
      assert j < |frames| ==> UnreadAt(slots, base, frames, j);
    }
    var unread := |frames| + 1;
    forall j | 0 <= j < |fifo| - 1
      ensures PostedAt(slots', base, unread, fifo[1..], j)
    {
      assert PostedAt(slots, base, |frames|, fifo, j + 1);
    }
  }

  /** The driver takes the oldest unread slot out of the run. */
  lemma TakeOldest(slots: seq<Slot>, base: nat, fifo: seq<nat>, frames: seq<Frame>, slot: Slot)
    requires Outstanding(slots, base, fifo, frames) && frames != []
    ensures Outstanding(slots[base := slot], Succ(|slots|, base), fifo, frames[1..])
  {
    var slots', n := slots[base := slot], |slots|;
    forall j | 0 <= j < |frames| - 1
      ensures UnreadAt(slots', Succ(n, base), frames[1..], j)
    {
      assert UnreadAt(slots, base, frames, j + 1);
      assert Plus(n, Succ(n, base), j) == Plus(n, base, j + 1) != base;
    }
    var unread := |frames| - 1;
    forall j | 0 <= j < |fifo|
      ensures PostedAt(slots', Succ(n, base), unread, fifo, j)
    {
      assert PostedAt(slots, base, |frames|, fifo, j);
      assert Plus(n, Succ(n, base), |frames| - 1 + j) == Plus(n, base, |frames| + j) != base;
    }
  }

  /** Posting the slot after the run extends it. */
  lemma PostLast(slots: seq<Slot>, base: nat, fifo: seq<nat>, frames: seq<Frame>, i: nat)
    requires Outstanding(slots, base, fifo, frames) && |frames| + |fifo| < |slots|
    requires i == Plus(|slots|, base, |frames| + |fifo|) && !slots[i].received
    ensures Outstanding(slots, base, fifo + [RxWord(i)], frames)
  {
    forall j | 0 <= j < |fifo| + 1
      ensures PostedAt(slots, base, |frames|, fifo + [RxWord(i)], j)
    {
      assert j < |fifo| ==> PostedAt(slots, base, |frames|, fifo, j);
    }
  }

  /* ---- The inductive invariant ---- */

  /** First slot posted and not yet taken back by the driver. */
  function Base(s: State): (b: nat)
    requires s.next < |s.slots|
    ensures b < |s.slots|
  {
    if s.resetting then 0
    else if s.phase == Cleared || s.phase == Posted then Succ(|s.slots|, s.next)
    else s.next
  }

  /** Number of slots posted and not yet taken back. */
  function Count(s: State): (m: int)
    requires s.next < |s.slots|
  {
    if s.resetting then (if s.phase == Posted then s.next + 1 else s.next)
    else if s.phase == Cleared then |s.slots| - 1
    else |s.slots|
  }

  predicate Shape(s: State) {
    && s.next < |s.slots| <= MAX_SLOTS
    && (forall i :: 0 <= i < |s.slots| ==> |s.slots[i].data| == MAX_PAYLOAD_SIZE)
    && s.mark <= |s.log|
    && (s.phase == Handled ==> !s.resetting && s.mark < |s.log|)
    && (s.phase == Cleared ==> !s.slots[s.next].received)
  }

  /** Frames of this epoch whose slots the driver has taken back. */
  function Done(s: State): int {
    |s.log| - s.mark - if s.phase == Handled then 1 else 0
  }

  predicate Matches(o: Outcome, f: Frame) {
    o == Delivered(f) || o == Dropped
  }

  /** What becomes of frame `f`, depending on whether there is a buffer for it. */
  function Handling(gotBuffer: bool, f: Frame): Outcome {
    if gotBuffer then Delivered(f) else Dropped
  }

  /** The log grew by what became of the oldest unread frame. */
  predicate HandledNext(log0: seq<Outcome>, log: seq<Outcome>, mark: nat, written: seq<Frame>, gotBuffer: bool) {
    && mark <= |log0| < mark + |written|
    && log == log0 + [Handling(gotBuffer, written[|log0| - mark])]
  }

  /** The log grew, in order, by what became of the oldest unread frames, as `buffers` says. */
  predicate HandledBy(log0: seq<Outcome>, log: seq<Outcome>, mark: nat, written: seq<Frame>, buffers: seq<bool>) {
    && mark <= |log0| && log0 <= log
    && |log| <= mark + |written| && |log| <= |log0| + |buffers|
    && forall k :: |log0| <= k < |log| ==> log[k] == Handling(buffers[k - |log0|], written[k - mark])
  }

  lemma HandledMore(log0: seq<Outcome>, log: seq<Outcome>, log': seq<Outcome>, mark: nat,
                    written: seq<Frame>, written': seq<Frame>, buffers: seq<bool>)
    requires HandledBy(log0, log, mark, written, buffers) && written <= written'
    requires |log| < |log0| + |buffers| && HandledNext(log, log', mark, written', buffers[|log| - |log0|])
    ensures HandledBy(log0, log', mark, written', buffers)
  {
    forall k | |log0| <= k < |log'|
      ensures log'[k] == Handling(buffers[k - |log0|], written'[k - mark])
    {
      assert k < |log| ==> log[k] == Handling(buffers[k - |log0|], written[k - mark]);
    }
  }

  /** Everything handled since the reset is, in order, an initial part of what the device wrote. */
  predicate HandledInOrder(s: State) {
    && s.mark <= |s.log|
    && |s.log| - s.mark <= |s.written|
    && forall i :: 0 <= i < |s.log| - s.mark ==> Matches(s.log[s.mark + i], s.written[i])
  }

  predicate Counted(s: State) {
    s.bytes == SumBytes(s.log) && s.dropped == CountDropped(s.log)
  }

  function Pending(s: State): (frames: seq<Frame>)
    requires 0 <= Done(s) <= |s.written|
  {
    s.written[Done(s)..]
  }

  predicate Owned(s: State)
    requires Shape(s)
  {
    && Done(s) <= |s.written|
    && |Pending(s)| + |s.fifo| == Count(s)
    && Outstanding(s.slots, Base(s), s.fifo, Pending(s))
  }

  predicate FillConsistent(s: State) {
    s.fill != NoFill ==>
      && HasHead(s)
      && IsFrame(s.fill.frame)
      && s.fill.frame <= s.slots[Head(s)].data
      && (s.fill.WroteLength? ==> Holds(s.slots[Head(s)], s.fill.frame))
  }

  predicate Inv(s: State) {
    Shape(s) && Owned(s) && FillConsistent(s) && HandledInOrder(s) && Counted(s)
  }

  lemma InitInv(s: State)
    requires Init(s)
    ensures Inv(s)
  {
    assert Shape(s);
    assert Pending(s) == [] && Count(s) == 0 && Base(s) == 0;
    assert Owned(s);
  }

  lemma HeadAt(s: State)
    requires Shape(s) && Owned(s) && s.fifo != []
    ensures HasHead(s) && Head(s) == Plus(|s.slots|, Base(s), |Pending(s)|) && !s.slots[Head(s)].received
  {
    HeadSlot(s.slots, Base(s), s.fifo, Pending(s));
  }

  /** Writing the head slot, short of flagging it, changes no owner. */
  lemma WriteHeadKeepsOwned(s: State, t: State, slot: Slot)
    requires Shape(s) && Owned(s) && s.fifo != [] && !slot.received && |slot.data| == MAX_PAYLOAD_SIZE
    requires HasHead(s) && t == s.(slots := s.slots[Head(s) := slot], fill := t.fill)
    ensures Shape(t) && Owned(t)
  {
    HeadAt(s);
    WriteUnflagged(s.slots, Base(s), s.fifo, Pending(s), Head(s), slot);
  }

  lemma DataKeepsInv(s: State, f: Frame)
    requires Inv(s) && Enabled(s, DeviceData(f))
    ensures Inv(Next(s, DeviceData(f)))
  {
    HeadAt(s);
    var t := Next(s, DeviceData(f));
    WriteHeadKeepsOwned(s, t, t.slots[Head(s)]);
    assert f <= t.slots[Head(s)].data;
  }

  lemma LengthKeepsInv(s: State)
    requires Inv(s) && Enabled(s, DeviceLength)
    ensures Inv(Next(s, DeviceLength))
  {
    HeadAt(s);
    var t := Next(s, DeviceLength);
    WriteHeadKeepsOwned(s, t, t.slots[Head(s)]);
  }

  lemma FlagKeepsOwned(s: State)
    requires Shape(s) && Owned(s) && FillConsistent(s) && Enabled(s, DeviceFlag)
    ensures Shape(Next(s, DeviceFlag)) && Owned(Next(s, DeviceFlag))
  {
    HeadAt(s);
    var t := Next(s, DeviceFlag);
    FlagHead(s.slots, Base(s), s.fifo, Pending(s), t.slots[Head(s)], s.fill.frame);
    assert Pending(t) == Pending(s) + [s.fill.frame];
  }

  lemma FlagKeepsInv(s: State)
    requires Inv(s) && Enabled(s, DeviceFlag)
    ensures Inv(Next(s, DeviceFlag))
  {
    FlagKeepsOwned(s);
  }

  /** A set flag at `next` means the oldest unread frame of the epoch is there. */
  lemma ReadyIsUnread(s: State)
    requires Inv(s) && s.phase == Idle && !s.resetting
    ensures s.slots[s.next].received <==> Pending(s) != []
    ensures Pending(s) != [] ==>
              Holds(s.slots[s.next], s.written[Done(s)]) && Ready(s.slots[s.next]) == |s.written[Done(s)]|
  {
    if Pending(s) == [] {
      assert PostedAt(s.slots, s.next, 0, s.fifo, 0);
    } else {
      assert UnreadAt(s.slots, s.next, Pending(s), 0);
    }
  }

  lemma SumAppend(log: seq<Outcome>, o: Outcome)
    ensures SumBytes(log + [o]) == SumBytes(log) + if o.Delivered? then |o.payload| else 0
  {
    assert (log + [o])[..|log|] == log;
  }

  lemma CountAppend(log: seq<Outcome>, o: Outcome)
    ensures CountDropped(log + [o]) == CountDropped(log) + if o.Dropped? then 1 else 0
  {
    assert (log + [o])[..|log|] == log;
  }

  /** One more outcome, counted once. */
  lemma CountOne(s: State, t: State, o: Outcome)
    requires Counted(s) && t.log == s.log + [o]
    requires t.bytes == s.bytes + if o.Delivered? then |o.payload| else 0
    requires t.dropped == s.dropped + if o.Dropped? then 1 else 0
    ensures Counted(t)
  {
    SumAppend(s.log, o);
    CountAppend(s.log, o);
  }

  lemma HandleKeepsOrder(s: State, gotBuffer: bool)
    requires HandledInOrder(s) && Enabled(s, Handle(gotBuffer))
    requires |s.log| - s.mark < |s.written|
    requires Matches(Next(s, Handle(gotBuffer)).log[|s.log|], s.written[|s.log| - s.mark])
    ensures HandledInOrder(Next(s, Handle(gotBuffer)))
  {
    var t := Next(s, Handle(gotBuffer));
    forall i | 0 <= i < |t.log| - t.mark
      ensures Matches(t.log[t.mark + i], t.written[i])
    {
      assert i < |s.log| - s.mark ==> Matches(s.log[s.mark + i], s.written[i]);
    }
  }

  lemma HandleKeepsOwned(s: State, gotBuffer: bool)
    requires Shape(s) && Owned(s) && Enabled(s, Handle(gotBuffer))
    ensures Shape(Next(s, Handle(gotBuffer))) && Owned(Next(s, Handle(gotBuffer)))
  {
    var t := Next(s, Handle(gotBuffer));
    assert Done(t) == Done(s) && Base(t) == Base(s) && Count(t) == Count(s);
    assert Pending(t) == Pending(s);
  }

  /** What is handled is the oldest unread frame. */
  lemma HandlesOldest(s: State, gotBuffer: bool)
    requires Inv(s) && Enabled(s, Handle(gotBuffer))
    ensures 0 <= Done(s) < |s.written|
    ensures Matches(Next(s, Handle(gotBuffer)).log[|s.log|], s.written[Done(s)])
  {
    ReadyIsUnread(s);
    var f, data := s.written[Done(s)], s.slots[s.next].data;
    assert data[..|f|] == f;
  }

  lemma HandleKeepsInv(s: State, gotBuffer: bool)
    requires Inv(s) && Enabled(s, Handle(gotBuffer))
    ensures Inv(Next(s, Handle(gotBuffer)))
  {
    var t := Next(s, Handle(gotBuffer));
    HandlesOldest(s, gotBuffer);
    CountOne(s, t, t.log[|s.log|]);
    HandleKeepsOrder(s, gotBuffer);
    HandleKeepsOwned(s, gotBuffer);
  }

  lemma ClearKeepsOwned(s: State)
    requires Shape(s) && Owned(s) && Enabled(s, Clear) && |s.log| - s.mark <= |s.written|
    ensures Shape(Next(s, Clear)) && Owned(Next(s, Clear))
  {
    var t := Next(s, Clear);
    if s.resetting {
      WriteUnflagged(s.slots, 0, s.fifo, Pending(s), s.next, t.slots[s.next]);
    } else {
      TakeOldest(s.slots, s.next, s.fifo, Pending(s), t.slots[s.next]);
      assert Pending(t) == Pending(s)[1..];
    }
  }

  /** The slot the driver clears is not the one the device is writing. */
  lemma ClearMissesHead(s: State)
    requires Shape(s) && Owned(s) && Enabled(s, Clear) && s.fifo != [] && |s.log| - s.mark <= |s.written|
    ensures HasHead(s) && Head(s) != s.next
  {
    HeadAt(s);
  }

  lemma ClearKeepsInv(s: State)
    requires Inv(s) && Enabled(s, Clear)
    ensures Inv(Next(s, Clear))
  {
    ClearKeepsOwned(s);
    if s.fifo != [] {
      ClearMissesHead(s);
    }
  }

  lemma PostKeepsInv(s: State)
    requires Inv(s) && Enabled(s, Post)
    ensures Inv(Next(s, Post))
  {
    PostLast(s.slots, Base(s), s.fifo, Pending(s), s.next);
  }

  lemma AdvanceKeepsInv(s: State)
    requires Inv(s) && Enabled(s, Advance)
    ensures Inv(Next(s, Advance))
  {
  }

  lemma StepKeepsInv(s: State, e: Event)
    requires Inv(s) && Enabled(s, e)
    ensures Inv(Next(s, e))
  {
    match e
    case DeviceData(f) => DataKeepsInv(s, f);
    case DeviceLength => LengthKeepsInv(s);
    case DeviceFlag => FlagKeepsInv(s);
    case HardwareReset =>
    case Handle(gotBuffer) => HandleKeepsInv(s, gotBuffer);
    case Clear => ClearKeepsInv(s);
    case Post => PostKeepsInv(s);
    case Advance => AdvanceKeepsInv(s);
  }

  lemma {:induction false} RunInv(run: seq<State>, i: nat)
    requires IsRun(run) && i < |run|
    ensures Inv(run[i])
  {
    if i == 0 {
      InitInv(run[0]);
    } else {
      RunInv(run, i - 1);
      assert Step(run[i - 1], run[i]);
      var e :| Enabled(run[i - 1], e) && run[i] == Next(run[i - 1], e);
      StepKeepsInv(run[i - 1], e);
    }
  }

  /* ---- What every run keeps ---- */

  /** Slots the driver has taken back and not yet given to the device. */
  function Hand(s: State): nat {
    if s.phase == Cleared then 1 else 0
  }

  /**
   * Outside a reset every slot has exactly one owner. With `u` unread frames, the slot at distance `k` from the
   * first outstanding slot is flagged if and only if `k < u`, and the device's FIFO is, word for word, the
   * remaining slots in ring order. At most the slot at `next` is in neither part, while it is being re-posted.
   */
  ghost predicate OwnershipPartition(s: State) {
    && s.next < |s.slots|
    && |s.fifo| + Hand(s) <= |s.slots|
    && var n, u := |s.slots|, |s.slots| - Hand(s) - |s.fifo|;
       && (forall k :: 0 <= k < u ==> s.slots[Plus(n, Base(s), k)].received)
       && (forall k :: u <= k < n ==> !s.slots[Plus(n, Base(s), k)].received)
       && (forall j :: 0 <= j < |s.fifo| ==> RxSlotOf(s.fifo[j]) == Plus(n, Base(s), u + j))
       && (Hand(s) == 1 ==> s.next == Plus(n, Base(s), n - 1))
  }

  lemma FlaggedIffUnread(s: State, k: nat)
    requires Shape(s) && Owned(s) && !s.resetting && k < |s.slots|
    ensures s.slots[Plus(|s.slots|, Base(s), k)].received <==> k < |Pending(s)|
  {
    var u := |Pending(s)|;
    if k < u {
      assert UnreadAt(s.slots, Base(s), Pending(s), k);
    } else if k < u + |s.fifo| {
      assert PostedAt(s.slots, Base(s), u, s.fifo, k - u);
    }
  }

  lemma PostedInOrder(s: State, j: nat)
    requires Shape(s) && Owned(s) && j < |s.fifo|
    ensures RxSlotOf(s.fifo[j]) == Plus(|s.slots|, Base(s), |Pending(s)| + j)
  {
    assert PostedAt(s.slots, Base(s), |Pending(s)|, s.fifo, j);
    RxWordDecodes(Plus(|s.slots|, Base(s), |Pending(s)| + j));
  }

  lemma OwnedIsPartition(s: State)
    requires Shape(s) && Owned(s) && !s.resetting
    ensures OwnershipPartition(s)
  {
    var n, base := |s.slots|, Base(s);
    forall k | 0 <= k < n
      ensures s.slots[Plus(n, base, k)].received <==> k < |Pending(s)|
    {
      FlaggedIffUnread(s, k);
    }
    forall j | 0 <= j < |s.fifo|
      ensures RxSlotOf(s.fifo[j]) == Plus(n, base, |Pending(s)| + j)
    {
      PostedInOrder(s, j);
    }
  }

  /** RX ownership: the partition holds at every moment of every interleaving, outside resets. */
  lemma RxOwnership(run: seq<State>, i: nat)
    requires IsRun(run) && i < |run| && !run[i].resetting
    ensures OwnershipPartition(run[i])
  {
    RunInv(run, i);
    OwnedIsPartition(run[i]);
  }

  /** No slot is posted twice, and a flagged slot is not posted, outside resets. */
  lemma RxPostedOnce(run: seq<State>, i: nat, j: nat, k: nat)
    requires IsRun(run) && i < |run| && !run[i].resetting
    requires j < k < |run[i].fifo|
    ensures RxSlotOf(run[i].fifo[j]) != RxSlotOf(run[i].fifo[k])
    ensures RxSlotOf(run[i].fifo[j]) < |run[i].slots| && !run[i].slots[RxSlotOf(run[i].fifo[j])].received
  {
    RxOwnership(run, i);
    var s := run[i];
    var u := |s.slots| - Hand(s) - |s.fifo|;
    assert RxSlotOf(s.fifo[j]) == Plus(|s.slots|, Base(s), u + j);
    assert RxSlotOf(s.fifo[k]) == Plus(|s.slots|, Base(s), u + k);
  }

  /**
   * RX delivery: since the last reset the driver has handled exactly the first frames the device wrote, in
   * order, once each and unchanged; the frames not yet handled still sit, unchanged, in the slots from `next`
   * on; the statistics are sums over everything handled since load.
   */
  lemma RxDelivery(run: seq<State>, i: nat)
    requires IsRun(run) && i < |run|
    ensures var s := run[i];
            && s.mark <= |s.log| <= s.mark + |s.written|
            && (forall k :: 0 <= k < |s.log| - s.mark ==>
                  s.log[s.mark + k] == Delivered(s.written[k]) || s.log[s.mark + k] == Dropped)
            && s.bytes == SumBytes(s.log) && s.dropped == CountDropped(s.log)
    ensures var s := run[i];
            s.phase == Idle && !s.resetting ==>
              && s.next < |s.slots|
              && |s.written| - (|s.log| - s.mark) == |s.slots| - |s.fifo|
              && (forall k :: 0 <= k < |s.slots| - |s.fifo| ==>
                   Holds(s.slots[Plus(|s.slots|, s.next, k)], s.written[|s.log| - s.mark + k]))
  {
    RunInv(run, i);
    var s := run[i];
    if s.phase == Idle && !s.resetting {
      forall k | 0 <= k < |s.slots| - |s.fifo|
        ensures Holds(s.slots[Plus(|s.slots|, s.next, k)], s.written[|s.log| - s.mark + k])
      {
        assert UnreadAt(s.slots, s.next, Pending(s), k);
      }
    }
  }

  /** During a reset, too, exactly the slots before `next` are with the device or refilled by it. */
  lemma RxResetProgress(run: seq<State>, i: nat)
    requires IsRun(run) && i < |run| && run[i].resetting && run[i].phase == Idle
    ensures var s := run[i];
            && |s.written| + |s.fifo| == s.next < |s.slots|
            && s.mark == |s.log|
            && (forall j :: 0 <= j < |s.fifo| ==> RxSlotOf(s.fifo[j]) == |s.written| + j)
            && (forall j :: 0 <= j < |s.written| ==> s.slots[j].received && Holds(s.slots[j], s.written[j]))
  {
    RunInv(run, i);
    var s := run[i];
    ResetHandlesNothing(run, i);
    forall j | 0 <= j < |s.fifo|
      ensures RxSlotOf(s.fifo[j]) == |s.written| + j
    {
      assert PostedAt(s.slots, 0, |s.written|, s.fifo, j);
      RxWordDecodes(|s.written| + j);
    }
    forall j | 0 <= j < |s.written|
      ensures s.slots[j].received && Holds(s.slots[j], s.written[j])
    {
      assert UnreadAt(s.slots, 0, Pending(s), j);
    }
  }

  lemma {:induction false} ResetHandlesNothing(run: seq<State>, i: nat)
    requires IsRun(run) && i < |run| && run[i].resetting
    ensures run[i].mark == |run[i].log|
  {
    if i > 0 {
      assert Step(run[i - 1], run[i]);
      if run[i - 1].resetting {
        ResetHandlesNothing(run, i - 1);
      }
    }
  }

  /* ---- Composing runs; what the device leaves alone ---- */

  lemma ExtendRun(run: seq<State>, e: Event)
    requires IsRun(run) && Enabled(run[|run| - 1], e)
    ensures IsRun(run + [Next(run[|run| - 1], e)])
  {
    assert Step(run[|run| - 1], Next(run[|run| - 1], e));
  }

  /** The facts driver code needs about the slot at `next`, at any point of a run. */
  lemma LastNext(run: seq<State>)
    requires IsRun(run)
    ensures var s := run[|run| - 1];
            && s.next < |s.slots| && |s.slots[s.next].data| == MAX_PAYLOAD_SIZE
            && HandledInOrder(s)
            && (s.phase == Idle && !s.resetting ==>
                 if s.slots[s.next].received then 0 < Ready(s.slots[s.next]) <= MAX_PAYLOAD_SIZE
                 else |s.log| - s.mark == |s.written|)
  {
    RunInv(run, |run| - 1);
    var s := run[|run| - 1];
    if s.phase == Idle && !s.resetting {
      ReadyIsUnread(s);
    }
  }

  /** The device can only write to the slot its oldest descriptor names, and it names one. */
  lemma LastHead(run: seq<State>)
    requires IsRun(run) && run[|run| - 1].fifo != []
    ensures var s := run[|run| - 1];
            && HasHead(s) && |s.slots[Head(s)].data| == MAX_PAYLOAD_SIZE && s.next < |s.slots|
            && !s.slots[Head(s)].received
  {
    RunInv(run, |run| - 1);
    HeadAt(run[|run| - 1]);
  }

  /** What driver code may rely on across any number of device steps. */
  ghost predicate DeviceOnly(s: State, t: State) {
    && |t.slots| == |s.slots|
    && t.next == s.next && t.resetting == s.resetting && t.phase == s.phase
    && t.log == s.log && t.mark == s.mark && t.bytes == s.bytes && t.dropped == s.dropped
    && s.written <= t.written
    && forall i :: 0 <= i < |s.slots| && s.slots[i].received ==> t.slots[i] == s.slots[i]
  }

  lemma DeviceStepIsDeviceOnly(s: State, e: Event)
    requires Enabled(s, e) && IsDeviceEvent(e) && !s.slots[Head(s)].received
    ensures DeviceOnly(s, Next(s, e))
  {
  }
}
