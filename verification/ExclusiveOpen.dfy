/**
 * The update device opened, used and released by any number of threads, interleaved at every atomic operation on
 * `in_use` and between any two file operations, erase cycles and program cycles.
 */
module ExclusiveOpen {
  import opened Bytes
  import opened SerialFlash
  import opened FlashProtocol
  import opened UpdateSession

  /** Where a thread stands in ccat_cdev_open, in its session, or in ccat_update_release after `issued` cycles. */
  datatype Pc =
    | Outside
    | BackingOut
    | Won
    | Using(session: nat, ops: seq<Op>)
    | Releasing(session: nat, ops: seq<Op>, issued: nat)

  /**
   * `sessions` numbers the successful opens and `released` holds the operations of the closed ones. `commands`
   * lists, per file read and per cycle, the session that used the flash; `cycles` what erased or programmed it,
   * and `image` what that made of `origin`.
   */
  datatype State = State(
    inUse: int, threads: seq<Pc>, sessions: nat, released: seq<seq<Op>>,
    commands: seq<nat>, cycles: seq<Cycle>, origin: seq<byte>, image: seq<byte>)

  datatype Event =
    | Decrement(t: nat) | Undo(t: nat) | Allocate(t: nat) | AllocationFails(t: nat)
    | Operate(t: nat, op: Op) | BeginRelease(t: nat) | Issue(t: nat) | Return(t: nat)

  /** The erase and program cycles of a session with these operations. */
  function CyclesOf(ops: seq<Op>): seq<Cycle> {
    SessionCycles(Replay(ops))
  }

  predicate CanStep(threads: seq<Pc>, e: Event) {
    && e.t < |threads|
    && var pc := threads[e.t];
       match e
       case Decrement(_) => pc == Outside
       case Undo(_) => pc == BackingOut
       case Allocate(_) => pc == Won
       case AllocationFails(_) => pc == Won
       case Operate(_, _) => pc.Using?
       case BeginRelease(_) => pc.Using?
       case Issue(_) => pc.Releasing? && pc.issued < |CyclesOf(pc.ops)|
       case Return(_) => pc.Releasing? && pc.issued == |CyclesOf(pc.ops)|
  }

  predicate Enabled(s: State, e: Event) {
    CanStep(s.threads, e)
  }

  function Move(s: State, t: nat, pc: Pc, inUse: int): State
    requires t < |s.threads|
  {
    s.(threads := s.threads[t := pc], inUse := inUse)
  }

  /** An operation in session `session`; only reads reach the flash before release. */
  function Touch(op: Op, session: nat): seq<nat> {
    if op.Read? then [session] else []
  }

  function Next(s: State, e: Event): (s': State)
    requires Enabled(s, e)
    ensures |s'.threads| == |s.threads|
    ensures forall u :: 0 <= u < |s.threads| && u != e.t ==> s'.threads[u] == s.threads[u]
  {
    var pc := s.threads[e.t];
    match e
    case Decrement(t) => Move(s, t, if s.inUse - 1 == 0 then Won else BackingOut, s.inUse - 1)
    case Undo(t) => Move(s, t, Outside, s.inUse + 1)
    case Allocate(t) => Move(s, t, Using(s.sessions, []), s.inUse).(sessions := s.sessions + 1)
    case AllocationFails(t) => Move(s, t, Outside, s.inUse + 1)
    case Operate(t, op) =>
      Move(s, t, Using(pc.session, pc.ops + [op]), s.inUse).(commands := s.commands + Touch(op, pc.session))
    case BeginRelease(t) => Move(s, t, Releasing(pc.session, pc.ops, 0), s.inUse)
    case Issue(t) =>
      var c := CyclesOf(pc.ops)[pc.issued];
      Move(s, t, Releasing(pc.session, pc.ops, pc.issued + 1), s.inUse).
        (commands := s.commands + [pc.session], cycles := s.cycles + [c], image := CycleEffect(s.image, c))
    case Return(t) => Move(s, t, Outside, s.inUse + 1).(released := s.released + [pc.ops])
  }

  lemma NextIssue(s: State, t: nat, pc: Pc, c: Cycle)
    requires Enabled(s, Issue(t)) && pc == s.threads[t] && c == CyclesOf(pc.ops)[pc.issued]
    ensures Next(s, Issue(t)) == s.(
              threads := s.threads[t := Releasing(pc.session, pc.ops, pc.issued + 1)],
              commands := s.commands + [pc.session], cycles := s.cycles + [c], image := CycleEffect(s.image, c))
  {
  }

  predicate Init(s: State) {
    && s.inUse == 1 && s.sessions == 0 && s.released == [] && s.commands == [] && s.cycles == []
    && s.image == s.origin && |s.origin| >= CCAT_FLASH_SIZE
    && forall t :: 0 <= t < |s.threads| ==> s.threads[t] == Outside
  }

  ghost predicate Step(s: State, s': State) {
    exists e :: Enabled(s, e) && s' == Next(s, e)
  }

  ghost predicate IsRun(run: seq<State>) {
    && run != [] && Init(run[0])
    && forall i :: 0 < i < |run| ==> Step(run[i - 1], run[i])
  }

  /* ---- Counting threads ---- */

  /** A thread holds the device from its winning decrement to the increment that returns it. */
  predicate Holds(pc: Pc) {
    pc.Won? || pc.Using? || pc.Releasing?
  }

  predicate InSession(pc: Pc) {
    pc.Using? || pc.Releasing?
  }

  function Holders(threads: seq<Pc>): nat {
    if threads == [] then 0 else Holders(threads[1..]) + if Holds(threads[0]) then 1 else 0
  }

  function Backing(threads: seq<Pc>): nat {
    if threads == [] then 0 else Backing(threads[1..]) + if threads[0] == BackingOut then 1 else 0
  }

  lemma {:induction false} CountsAfterMove(threads: seq<Pc>, t: nat, pc: Pc)
    requires t < |threads|
    ensures Holders(threads[t := pc])
         == Holders(threads) - (if Holds(threads[t]) then 1 else 0) + if Holds(pc) then 1 else 0
    ensures Backing(threads[t := pc])
         == Backing(threads) - (if threads[t] == BackingOut then 1 else 0) + if pc == BackingOut then 1 else 0
  {
    if t == 0 {
      assert threads[t := pc][1..] == threads[1..];
    } else {
      assert threads[t := pc][1..] == threads[1..][t - 1 := pc];
      CountsAfterMove(threads[1..], t - 1, pc);
    }
  }

  lemma {:induction false} NoneCounted(threads: seq<Pc>)
    ensures (forall t :: 0 <= t < |threads| ==> !Holds(threads[t])) <==> Holders(threads) == 0
    ensures (forall t :: 0 <= t < |threads| ==> threads[t] != BackingOut) <==> Backing(threads) == 0
  {
    if threads != [] {
      NoneCounted(threads[1..]);
      assert forall t :: 0 <= t < |threads| - 1 ==> threads[1..][t] == threads[t + 1];
      assert forall t :: 0 < t < |threads| ==> threads[t] == threads[1..][t - 1];
    }
  }

  lemma TwoHolders(threads: seq<Pc>, t: nat, u: nat)
    requires t < |threads| && u < |threads| && t != u && Holds(threads[t]) && Holds(threads[u])
    ensures Holders(threads) >= 2
  {
    CountsAfterMove(threads, t, Outside);
    CountsAfterMove(threads[t := Outside], u, Outside);
  }

  /* ---- The inductive invariant ---- */

  predicate Counted(s: State) {
    && s.inUse == 1 - Holders(s.threads) - Backing(s.threads)
    && Holders(s.threads) <= 1
  }

  predicate Nobody(threads: seq<Pc>) {
    forall t :: 0 <= t < |threads| ==> !InSession(threads[t])
  }

  predicate NobodyReleasing(threads: seq<Pc>) {
    forall t :: 0 <= t < |threads| ==> !threads[t].Releasing?
  }

  /** The session in progress, if any, is the newest one, and all before it are released. */
  predicate SessionsInOrder(s: State) {
    && (forall t :: 0 <= t < |s.threads| && InSession(s.threads[t]) ==>
          s.threads[t].session == |s.released| && s.sessions == |s.released| + 1)
    && (Nobody(s.threads) ==> s.sessions == |s.released|)
  }

  /** Flash accesses so far belong to sessions in order. */
  predicate CommandsInOrder(s: State) {
    && (forall i :: 0 <= i < |s.commands| ==> s.commands[i] < s.sessions)
    && (forall i, j :: 0 <= i < j < |s.commands| ==> s.commands[i] <= s.commands[j])
  }

  /** The cycles of the released sessions, one session after the other. */
  function AllCycles(released: seq<seq<Op>>): seq<Cycle> {
    if released == [] then []
    else AllCycles(released[..|released| - 1]) + CyclesOf(released[|released| - 1])
  }

  predicate IssuedSoFar(cycles: seq<Cycle>, released: seq<seq<Op>>, ops: seq<Op>, issued: nat) {
    issued <= |CyclesOf(ops)| && cycles == AllCycles(released) + CyclesOf(ops)[..issued]
  }

  predicate CyclesInOrder(s: State) {
    && (forall t :: 0 <= t < |s.threads| && s.threads[t].Releasing? ==>
          IssuedSoFar(s.cycles, s.released, s.threads[t].ops, s.threads[t].issued))
    && (NobodyReleasing(s.threads) ==> s.cycles == AllCycles(s.released))
  }

  predicate ImageFollows(s: State) {
    |s.origin| >= CCAT_FLASH_SIZE && s.image == CyclesEffect(s.origin, s.cycles)
  }

  predicate Inv(s: State) {
    Counted(s) && SessionsInOrder(s) && CommandsInOrder(s) && CyclesInOrder(s) && ImageFollows(s)
  }

  /** A thread that holds the device holds it alone. */
  lemma Alone(s: State, t: nat)
    requires Counted(s) && t < |s.threads| && Holds(s.threads[t])
    ensures forall u :: 0 <= u < |s.threads| && u != t ==> !Holds(s.threads[u])
  {
    forall u | 0 <= u < |s.threads| && u != t
      ensures !Holds(s.threads[u])
    {
      if Holds(s.threads[u]) {
        TwoHolders(s.threads, t, u);
      }
    }
  }

  lemma StepKeepsCounted(s: State, e: Event)
    requires Counted(s) && Enabled(s, e)
    ensures Counted(Next(s, e))
  {
    CountsAfterMove(s.threads, e.t, Next(s, e).threads[e.t]);
  }

  /** A thread outside its session moves to another place outside; the others stay where they are. */
  lemma ElsewhereSame(threads: seq<Pc>, t: nat, pc: Pc)
    requires t < |threads| && !InSession(threads[t]) && !InSession(pc)
    ensures Nobody(threads[t := pc]) <==> Nobody(threads)
    ensures NobodyReleasing(threads[t := pc]) <==> NobodyReleasing(threads)
  {
    var threads' := threads[t := pc];
    assert forall u :: 0 <= u < |threads| && u != t ==> threads'[u] == threads[u];
    if Nobody(threads') {
      assert forall u :: 0 <= u < |threads| ==> !InSession(threads[u]) || threads'[u] == threads[u];
    }
    if NobodyReleasing(threads') {
      assert forall u :: 0 <= u < |threads| ==> !InSession(threads[u]) || threads'[u] == threads[u];
    }
  }

  lemma StepKeepsSessions(s: State, e: Event)
    requires Counted(s) && SessionsInOrder(s) && Enabled(s, e)
    ensures SessionsInOrder(Next(s, e))
  {
    var s' := Next(s, e);
    if !InSession(s.threads[e.t]) && !InSession(s'.threads[e.t]) {
      ElsewhereSame(s.threads, e.t, s'.threads[e.t]);
    } else {
      Alone(s, e.t);
      assert e.Allocate? ==> Nobody(s.threads);
      assert Nobody(s'.threads) ==> !InSession(s'.threads[e.t]);
    }
  }

  lemma StepKeepsCommands(s: State, e: Event)
    requires SessionsInOrder(s) && CommandsInOrder(s) && Enabled(s, e)
    ensures CommandsInOrder(Next(s, e))
  {
  }

  /** Only the cycles of the one session being released are under way. */
  lemma StepKeepsCycles(s: State, e: Event)
    requires Counted(s) && CyclesInOrder(s) && Enabled(s, e)
    ensures CyclesInOrder(Next(s, e))
  {
    var s', pc := Next(s, e), s.threads[e.t];
    if !InSession(pc) && !InSession(s'.threads[e.t]) {
      ElsewhereSame(s.threads, e.t, s'.threads[e.t]);
    } else {
      Alone(s, e.t);
      HolderStepKeepsCycles(s, e);
    }
  }

  lemma HolderStepKeepsCycles(s: State, e: Event)
    requires CyclesInOrder(s) && Enabled(s, e) && (InSession(s.threads[e.t]) || e.Allocate?)
    requires forall u :: 0 <= u < |s.threads| && u != e.t ==> !Holds(s.threads[u])
    ensures CyclesInOrder(Next(s, e))
  {
    var s', pc := Next(s, e), s.threads[e.t];
    if e.Issue? {
      IssueOne(s.cycles, s.released, pc.ops, pc.issued);
      assert !NobodyReleasing(s'.threads) by { assert s'.threads[e.t].Releasing?; }
    } else if e.Return? {
      ReleaseOne(s.cycles, s.released, pc.ops);
    } else {
      assert NobodyReleasing(s.threads);
      if e.BeginRelease? {
        assert CyclesOf(pc.ops)[..0] == [];
        assert !NobodyReleasing(s'.threads) by { assert s'.threads[e.t].Releasing?; }
      }
    }
  }

  lemma IssueOne(cycles: seq<Cycle>, released: seq<seq<Op>>, ops: seq<Op>, issued: nat)
    requires IssuedSoFar(cycles, released, ops, issued) && issued < |CyclesOf(ops)|
    ensures IssuedSoFar(cycles + [CyclesOf(ops)[issued]], released, ops, issued + 1)
  {
    var all := CyclesOf(ops);
    assert all[..issued + 1] == all[..issued] + [all[issued]];
  }

  lemma ReleaseOne(cycles: seq<Cycle>, released: seq<seq<Op>>, ops: seq<Op>)
    requires IssuedSoFar(cycles, released, ops, |CyclesOf(ops)|)
    ensures cycles == AllCycles(released + [ops])
  {
    var all := CyclesOf(ops);
    assert all[..|all|] == all;
    assert (released + [ops])[..|released|] == released;
  }

  lemma StepKeepsImage(s: State, e: Event)
    requires ImageFollows(s) && Enabled(s, e)
    ensures ImageFollows(Next(s, e))
  {
    if e.Issue? {
      EffectAppend(s.origin, s.cycles, CyclesOf(s.threads[e.t].ops)[s.threads[e.t].issued]);
    }
  }

  lemma StepKeepsInv(s: State, e: Event)
    requires Inv(s) && Enabled(s, e)
    ensures Inv(Next(s, e))
  {
    StepKeepsCounted(s, e);
    StepKeepsSessions(s, e);
    StepKeepsCommands(s, e);
    StepKeepsCycles(s, e);
    StepKeepsImage(s, e);
  }

  lemma {:induction false} RunInv(run: seq<State>, i: nat)
    requires IsRun(run) && i < |run|
    ensures Inv(run[i])
  {
    if i == 0 {
      NoneCounted(run[0].threads);
    } else {
      RunInv(run, i - 1);
      assert Step(run[i - 1], run[i]);
      var e :| Enabled(run[i - 1], e) && run[i] == Next(run[i - 1], e);
      StepKeepsInv(run[i - 1], e);
    }
  }

  /* ---- What every run keeps ---- */

  /** Exclusive open: no two threads hold the device, and `in_use` counts holders and threads backing out. */
  lemma MutualExclusion(run: seq<State>, i: nat)
    requires IsRun(run) && i < |run|
    ensures var s := run[i];
            && s.inUse == 1 - Holders(s.threads) - Backing(s.threads)
            && (forall t, u :: 0 <= t < |s.threads| && 0 <= u < |s.threads| && t != u ==>
                  !(Holds(s.threads[t]) && Holds(s.threads[u])))
  {
    RunInv(run, i);
    var s := run[i];
    forall t, u | 0 <= t < |s.threads| && 0 <= u < |s.threads| && t != u
      ensures !(Holds(s.threads[t]) && Holds(s.threads[u]))
    {
      if Holds(s.threads[t]) {
        Alone(s, t);
      }
    }
  }

  /** Flash sessions never interleave: between two accesses of a session lie only accesses of that session. */
  lemma SessionsDoNotInterleave(run: seq<State>, r: nat, i: nat, j: nat, k: nat)
    requires IsRun(run) && r < |run| && i <= j <= k < |run[r].commands|
    requires run[r].commands[i] == run[r].commands[k]
    ensures run[r].commands[j] == run[r].commands[i]
  {
    RunInv(run, r);
    var c := run[r].commands;
    assert i < j ==> c[i] <= c[j];
    assert j < k ==> c[j] <= c[k];
  }

  /**
   * What reaches the flash, for every interleaving: the cycles of the released sessions one session after the
   * other, in the order the sessions were opened, followed by a first part of those of the one being released.
   */
  lemma FlashedInSessionOrder(run: seq<State>, i: nat)
    requires IsRun(run) && i < |run|
    ensures var s := run[i];
            && |s.released| <= s.sessions <= |s.released| + 1
            && (NobodyReleasing(s.threads) ==> s.cycles == AllCycles(s.released))
            && (forall t :: 0 <= t < |s.threads| && s.threads[t].Releasing? ==>
                  && s.threads[t].session == |s.released|
                  && IssuedSoFar(s.cycles, s.released, s.threads[t].ops, s.threads[t].issued))
  {
    RunInv(run, i);
  }

  /** What the flash holds after these sessions, one after the other. */
  function LastImage(origin: seq<byte>, released: seq<seq<Op>>): (image: seq<byte>)
    requires CCAT_FLASH_SIZE <= |origin|
    ensures |image| == |origin|
  {
    if released == [] then origin
    else ImageAfter(LastImage(origin, released[..|released| - 1]), Replay(released[|released| - 1]))
  }

  lemma {:induction false} AllCyclesEffect(origin: seq<byte>, released: seq<seq<Op>>)
    requires CCAT_FLASH_SIZE <= |origin|
    ensures CyclesEffect(origin, AllCycles(released)) == LastImage(origin, released)
  {
    if released != [] {
      var before, ops := released[..|released| - 1], released[|released| - 1];
      AllCyclesEffect(origin, before);
      EffectConcat(origin, AllCycles(before), CyclesOf(ops));
      SessionEffect(LastImage(origin, before), Replay(ops));
    }
  }

  /** Whoever read and wrote in between: with no release under way, the flash is as after a plain row of sessions. */
  lemma FlashHoldsSessions(run: seq<State>, i: nat)
    requires IsRun(run) && i < |run| && NobodyReleasing(run[i].threads)
    ensures |run[i].origin| >= CCAT_FLASH_SIZE && run[i].image == LastImage(run[i].origin, run[i].released)
  {
    RunInv(run, i);
    AllCyclesEffect(run[i].origin, run[i].released);
  }

  predicate WroteSomething(ops: seq<Op>) {
    Replay(ops).size > 0
  }

  /** That is the image of the last released session that wrote something; without one, the flash is untouched. */
  lemma {:induction false} LastImageIsLast(origin: seq<byte>, released: seq<seq<Op>>, k: int)
    requires CCAT_FLASH_SIZE <= |origin| && -1 <= k < |released|
    requires k >= 0 ==> WroteSomething(released[k])
    requires forall j :: k < j < |released| ==> !WroteSomething(released[j])
    ensures LastImage(origin, released) == if k < 0 then origin else Flashed(Replay(released[k]), |origin|)
  {
    if k + 1 < |released| {
      var before := released[..|released| - 1];
      assert !WroteSomething(released[|released| - 1]);
      LastImageIsLast(origin, before, k);
    }
  }

  /** The next program of a release finds the chip erased in its place. */
  lemma NextCycleFits(s: State, t: nat)
    requires CyclesInOrder(s) && ImageFollows(s) && Enabled(s, Issue(t))
    requires CyclesOf(s.threads[t].ops)[s.threads[t].issued].Page?
    ensures var Page(addr, block) := CyclesOf(s.threads[t].ops)[s.threads[t].issued];
            && 0 < |block| <= CCAT_WRITE_BLOCK_SIZE && addr % CCAT_WRITE_BLOCK_SIZE == 0
            && addr + |block| <= |s.image|
            && forall p :: addr <= p < addr + |block| ==> s.image[p] == ERASED
  {
    var ops, issued := s.threads[t].ops, s.threads[t].issued;
    assert IssuedSoFar(s.cycles, s.released, ops, issued);
    var before := CyclesEffect(s.origin, AllCycles(s.released));
    EffectConcat(s.origin, AllCycles(s.released), CyclesOf(ops)[..issued]);
    SessionPageFits(before, Replay(ops), issued);
  }

  /** An open wins if and only if nobody holds the device and nobody is backing out of a failed attempt. */
  lemma OpenWinsIff(run: seq<State>, i: nat, t: nat)
    requires IsRun(run) && i < |run| && Enabled(run[i], Decrement(t))
    ensures Next(run[i], Decrement(t)).threads[t] == Won <==>
              forall u :: 0 <= u < |run[i].threads| ==> !Holds(run[i].threads[u]) && run[i].threads[u] != BackingOut
  {
    RunInv(run, i);
    NoneCounted(run[i].threads);
  }

  /** One more step at the end of a run. */
  lemma Extend(run: seq<State>, e: Event) returns (run': seq<State>)
    requires IsRun(run) && Enabled(run[|run| - 1], e)
    ensures IsRun(run') && run' == run + [Next(run[|run| - 1], e)]
  {
    assert Step(run[|run| - 1], Next(run[|run| - 1], e));
    run' := run + [Next(run[|run| - 1], e)];
  }

  /** A first thread holds the device, and a second one has already failed to open it. */
  lemma HeldAndRefused(origin: seq<byte>) returns (run: seq<State>)
    requires CCAT_FLASH_SIZE <= |origin|
    ensures IsRun(run)
    ensures run[|run| - 1].threads == [Using(0, []), BackingOut, Outside] && run[|run| - 1].inUse == -1
  {
    run := [State(1, [Outside, Outside, Outside], 0, [], [], [], origin, origin)];
    run := Extend(run, Decrement(0));
    run := Extend(run, Allocate(0));
    run := Extend(run, Decrement(1));
  }

  /**
   * So EBUSY does not imply a holder: a third opener fails on a free device while a second one has not yet undone
   * its decrement.
   */
  lemma BusyWithoutHolder(origin: seq<byte>) returns (run: seq<State>)
    requires CCAT_FLASH_SIZE <= |origin|
    ensures IsRun(run) && run[|run| - 1].threads == [Outside, BackingOut, BackingOut]
  {
    run := HeldAndRefused(origin);
    run := Extend(run, BeginRelease(0));
    assert CyclesOf([]) == [];
    run := Extend(run, Return(0));
    run := Extend(run, Decrement(2));
  }

  /** Someone other than `t` holds the device or is backing out. */
  ghost predicate Contended(s: State, t: nat) {
    exists u :: 0 <= u < |s.threads| && u != t && (Holds(s.threads[u]) || s.threads[u] == BackingOut)
  }

  /** What thread `t` may rely on between two of its own steps. */
  predicate Undisturbed(s: State, s': State, t: nat) {
    && |s'.threads| == |s.threads| && t < |s.threads| && s'.threads[t] == s.threads[t]
    && (Holds(s.threads[t]) ==>
         && s'.commands == s.commands && s'.cycles == s.cycles && s'.image == s.image
         && s'.released == s.released && s'.sessions == s.sessions)
  }

  /** A step of another thread changes nothing a holder relies on. */
  lemma OthersStayOut(s: State, e: Event, t: nat)
    requires Counted(s) && t < |s.threads| && Enabled(s, e) && e.t != t
    ensures Undisturbed(s, Next(s, e), t)
  {
    if Holds(s.threads[t]) {
      Alone(s, t);
    }
  }

  /** The number of threads never changes. */
  lemma {:induction false} SameThreads(run: seq<State>, i: nat)
    requires IsRun(run) && i < |run|
    ensures |run[i].threads| == |run[0].threads|
  {
    if i > 0 {
      SameThreads(run, i - 1);
      assert Step(run[i - 1], run[i]);
    }
  }

  /** From state `from` of the run on, thread `t` has not been in a session. */
  ghost predicate StaysOut(run: seq<State>, from: nat, t: nat) {
    forall i :: from <= i < |run| ==> OutOfSession(run[i], t)
  }

  predicate OutOfSession(s: State, t: nat) {
    t < |s.threads| && !InSession(s.threads[t])
  }

  lemma StaysOutLonger(run: seq<State>, from: nat, t: nat, run': seq<State>)
    requires run <= run' && StaysOut(run, from, t) && StaysOut(run', |run|, t)
    ensures StaysOut(run', from, t)
  {
    forall i | from <= i < |run'|
      ensures OutOfSession(run'[i], t)
    {
      if i < |run| {
        assert OutOfSession(run[i], t) && run'[i] == run[i];
      }
    }
  }

  lemma StaysOutOneMore(run: seq<State>, from: nat, t: nat, s: State)
    requires StaysOut(run, from, t) && OutOfSession(s, t)
    ensures StaysOut(run + [s], from, t)
  {
    forall i | from <= i < |run + [s]|
      ensures OutOfSession((run + [s])[i], t)
    {
      assert i < |run| ==> OutOfSession(run[i], t);
    }
  }

  /** Thread `t` has won the device and not yet allocated its buffer. */
  predicate HasWon(s: State, t: nat) {
    t < |s.threads| && s.threads[t] == Won
  }

  /** In some state from `from` on, thread `t` had won the device. */
  ghost predicate WonSince(run: seq<State>, from: nat, t: nat) {
    exists i :: from <= i < |run| && HasWon(run[i], t)
  }

  /** In some state from `from` on, thread `t` had to do with another thread holding the device or backing out. */
  ghost predicate ContendedSince(run: seq<State>, from: nat, t: nat) {
    exists i :: from <= i < |run| && Contended(run[i], t)
  }

  /** What an open that failed has seen by its decrement still stands at its end. */
  lemma SeenStands(seen: seq<State>, from: nat, t: nat, run: seq<State>)
    requires seen <= run && StaysOut(seen, from + 1, t) && StaysOut(run, |seen|, t)
    ensures StaysOut(run, from + 1, t)
    ensures WonSince(seen, from + 1, t) ==> WonSince(run, from + 1, t)
    ensures ContendedSince(seen, from, t) ==> ContendedSince(run, from, t)
  {
    StaysOutLonger(seen, from + 1, t, run);
    SinceLonger(seen, from + 1, t, run);
    SinceLonger(seen, from, t, run);
  }

  lemma SinceLonger(run: seq<State>, from: nat, t: nat, run': seq<State>)
    requires run <= run'
    ensures WonSince(run, from, t) ==> WonSince(run', from, t)
    ensures ContendedSince(run, from, t) ==> ContendedSince(run', from, t)
  {
    if WonSince(run, from, t) {
      var i :| from <= i < |run| && HasWon(run[i], t);
      assert HasWon(run'[i], t);
    }
    if ContendedSince(run, from, t) {
      var i :| from <= i < |run| && Contended(run[i], t);
      assert Contended(run'[i], t);
    }
  }

  /** Contention takes a second thread. */
  lemma ContendedNeedsTwo(run: seq<State>, from: nat, t: nat)
    requires IsRun(run) && t < |run[|run| - 1].threads| && ContendedSince(run, from, t)
    ensures |run[|run| - 1].threads| >= 2
  {
    var i :| from <= i < |run| && Contended(run[i], t);
    SameThreads(run, i);
    SameThreads(run, |run| - 1);
  }

  /** A thread outside a session erases and programs nothing: a cycle comes from another thread's release. */
  lemma CyclesComeFromReleases(run: seq<State>, i: nat, t: nat)
    requires IsRun(run) && i + 1 < |run| && OutOfSession(run[i], t)
    requires run[i + 1].cycles != run[i].cycles || run[i + 1].image != run[i].image
    ensures exists u :: 0 <= u < |run[i].threads| && u != t && run[i].threads[u].Releasing?
  {
    assert Step(run[i], run[i + 1]);
    var e :| Enabled(run[i], e) && run[i + 1] == Next(run[i], e);
    assert run[i].threads[e.t].Releasing?;
  }
}
