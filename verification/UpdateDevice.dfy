/**
 * The update device as code shared by any number of threads: atomic operations on `in_use`, file operations, and
 * the erase and program cycles of a release on the real port, with the other threads stepping in between.
 */
module UpdateDevice {
  import opened Bytes
  import opened SerialFlash
  import opened FlashProtocol
  import opened UpdatePort
  import opened UpdateSession
  import opened ExclusiveOpen

  datatype OpenResult = Granted(session: nat) | Busy | NoMemory

  /** One more session: its cycles follow the earlier ones, and its image the earlier image. */
  lemma OneMoreSession(origin: seq<byte>, released: seq<seq<Op>>, ops: seq<Op>)
    requires CCAT_FLASH_SIZE <= |origin|
    ensures AllCycles(released + [ops]) == AllCycles(released) + CyclesOf(ops)
    ensures LastImage(origin, released + [ops]) == ImageAfter(LastImage(origin, released), Replay(ops))
  {
    assert (released + [ops])[..|released|] == released;
  }

  class Cdev {
    const port: Port
    var inUse: int
    var threads: seq<Pc>
    var sessions: nat

    // History.
    ghost const origin: seq<byte>
    ghost var released: seq<seq<Op>>
    ghost var commands: seq<nat>
    ghost var run: seq<State>

    ghost function View(): State
      reads this, port
    {
      State(inUse, threads, sessions, released, commands, Cycles(port.log), origin, port.Image())
    }

    /** The history is a run of the transition system that ends in the present state of driver, port and flash. */
    ghost predicate Valid()
      reads this, port
    {
      port.Quiet() && IsRun(run) && run[|run| - 1] == View()
    }

    /** A probed device in front of a flash with any contents: `in_use` is one and nobody has opened it. */
    constructor (contents: seq<byte>, n: nat)
      requires CCAT_FLASH_SIZE <= |contents| <= 0x100_0000
      ensures Valid() && fresh(port) && |threads| == n && run == [View()]
      ensures inUse == 1 && origin == port.Image() == ReverseAll(contents) && released == [] && Cycles(port.log) == []
      ensures forall t :: 0 <= t < n ==> threads[t] == Outside
    {
      port := new Port(contents);
      inUse, threads, sessions := 1, seq(n, i => Outside), 0;
      origin, released, commands := ReverseAll(contents), [], [];
      new;
      run := [View()];
    }

    /** Appends the present state, reached from `s` by event `e`, to the history. */
    ghost method Record(s: State, e: Event)
      requires IsRun(run) && run[|run| - 1] == s
      requires Enabled(s, e) && View() == Next(s, e)
      modifies this`run
      ensures run == old(run) + [View()] && IsRun(run)
    {
      run := Extend(run, e);
    }

    /** The steps that do not reach the flash. */
    method Control(e: Event)
      requires Valid() && CanStep(threads, e) && !e.Issue? && !(e.Operate? && e.op.Read?)
      modifies this
      ensures Valid() && View() == Next(old(View()), e) && run == old(run) + [View()]
    {
      ghost var s := View();
      var t, pc := e.t, threads[e.t];
      match e {
        case Decrement(_) =>
          inUse := inUse - 1;
          threads := threads[t := if inUse == 0 then Won else BackingOut];
        case Undo(_) =>
          inUse := inUse + 1;
          threads := threads[t := Outside];
        case Allocate(_) =>
          threads := threads[t := Using(sessions, [])];
          sessions := sessions + 1;
        case AllocationFails(_) =>
          inUse := inUse + 1;
          threads := threads[t := Outside];
        case Operate(_, op) =>
          threads := threads[t := Using(pc.session, pc.ops + [op])];
          assert commands + [] == commands;
        case BeginRelease(_) =>
          threads := threads[t := Releasing(pc.session, pc.ops, 0)];
        case Return(_) =>
          inUse := inUse + 1;
          threads := threads[t := Outside];
          released := released + [pc.ops];
      }
      Record(s, e);
    }

    /** ccat_update_read with the cursor at `off`. */
    method Fetch(off: nat, len: nat) returns (buf: seq<byte>)
      requires port.Quiet() && off <= CCAT_FLASH_SIZE
      modifies port
      ensures port.Quiet() && port.flash == old(port.flash) && Cycles(port.log) == Cycles(old(port.log))
      ensures |buf| == Clip(off, len) && off + |buf| <= CCAT_FLASH_SIZE && buf == port.Image()[off..off + |buf|]
    {
      buf := [];
      if off < CCAT_FLASH_SIZE {
        var off';
        buf, off' := port.ReadFlash(Clip(off, len), off);
      }
    }

    /** The cursor of a session after a read, which used the flash. */
    method NoteRead(t: nat, len: nat)
      requires Valid() && t < |threads| && threads[t].Using?
      modifies this
      ensures Valid() && View() == Next(old(View()), Operate(t, Op.Read(len))) && run == old(run) + [View()]
      ensures threads[t] == Using(old(threads)[t].session, old(threads)[t].ops + [Op.Read(len)])
      ensures commands == old(commands) + [old(threads)[t].session]
    {
      ghost var s := View();
      var pc := threads[t];
      threads := threads[t := Using(pc.session, pc.ops + [Op.Read(len)])];
      commands := commands + [pc.session];
      Record(s, Operate(t, Op.Read(len)));
    }

    /** ccat_update_read by thread `t`: the contents at the session's cursor, clipped. */
    method Read(t: nat, len: nat) returns (buf: seq<byte>)
      requires Valid() && t < |threads| && threads[t].Using?
      modifies this, port
      ensures Valid() && View() == Next(old(View()), Operate(t, Op.Read(len))) && run == old(run) + [View()]
      ensures threads[t] == Using(old(threads)[t].session, old(threads)[t].ops + [Op.Read(len)])
      ensures var off, off' := Replay(old(threads)[t].ops).off, Replay(threads[t].ops).off;
              && |buf| <= len && off' == off + |buf| && (|buf| == len || off' == CCAT_FLASH_SIZE)
              && off' <= |port.Image()| && buf == port.Image()[off..off']
      ensures commands == old(commands) + [old(threads)[t].session] && port.Image() == old(port.Image())
    {
      ReadCursor(threads[t].ops, len);
      buf := Fetch(Replay(threads[t].ops).off, len);
      NoteRead(t, len);
    }

    /** One erase or program cycle on the port. */
    method Perform(c: Cycle)
      requires port.Quiet()
      requires c.Page? ==>
                 && 0 < |c.data| <= CCAT_WRITE_BLOCK_SIZE && c.addr % CCAT_WRITE_BLOCK_SIZE == 0
                 && c.addr + |c.data| <= |port.Image()|
                 && forall p :: c.addr <= p < c.addr + |c.data| ==> port.Image()[p] == ERASED
      modifies port
      ensures port.Quiet() && port.Image() == CycleEffect(old(port.Image()), c)
      ensures Cycles(port.log) == Cycles(old(port.log)) + [c]
    {
      match c
      case Erase => port.BulkErase();
      case Page(addr, data) =>
        PageOverErased(port.Image(), addr, data);
        port.WriteFlashBlock(addr, data);
    }

    /** The next cycle of a release finds what it needs: a program, erased bytes in its place. */
    lemma NextCycleReady(t: nat, c: Cycle)
      requires Valid() && CanStep(threads, Issue(t)) && c == CyclesOf(threads[t].ops)[threads[t].issued]
      ensures c.Page? ==>
                && 0 < |c.data| <= CCAT_WRITE_BLOCK_SIZE && c.addr % CCAT_WRITE_BLOCK_SIZE == 0
                && c.addr + |c.data| <= |port.Image()|
                && forall p :: c.addr <= p < c.addr + |c.data| ==> port.Image()[p] == ERASED
    {
      RunInv(run, |run| - 1);
      if c.Page? {
        NextCycleFits(View(), t);
      }
    }

    /** The next cycle of a release by thread `t`. */
    method IssueCycle(t: nat)
      requires Valid() && CanStep(threads, Issue(t))
      modifies this, port
      ensures Valid() && View() == Next(old(View()), Issue(t)) && run == old(run) + [View()]
      ensures commands == old(commands) + [old(threads)[t].session]
    {
      ghost var s := View();
      var pc := threads[t];
      var c := CyclesOf(pc.ops)[pc.issued];
      NextCycleReady(t, c);
      NextIssue(s, t, pc, c);
      Perform(c);
      threads := threads[t := Releasing(pc.session, pc.ops, pc.issued + 1)];
      commands := commands + [pc.session];
      Record(s, Issue(t));
    }

    /** One step of any thread. */
    method Do(e: Event)
      requires Valid() && CanStep(threads, e)
      modifies this, port
      ensures Valid() && View() == Next(old(View()), e) && run == old(run) + [View()]
    {
      if e.Issue? {
        IssueCycle(e.t);
      } else if e.Operate? && e.op.Read? {
        var buf := Read(e.t, e.op.len);
      } else {
        Control(e);
      }
    }

    /** One step of another thread, if it can be taken. */
    method TryOther(t: nat, e: Event)
      requires Valid() && t < |threads|
      modifies this, port
      ensures Valid() && Undisturbed(old(View()), View(), t)
      ensures run == old(run) || run == old(run) + [View()]
    {
      if CanStep(threads, e) && e.t != t {
        RunInv(run, |run| - 1);
        OthersStayOut(View(), e, t);
        Do(e);
      }
    }

    /** Any number of steps of threads other than `t`. */
    method Others(t: nat)
      requires Valid() && t < |threads|
      modifies this, port
      ensures Valid() && old(run) <= run && Undisturbed(old(View()), View(), t)
      ensures !InSession(threads[t]) ==> StaysOut(run, |old(run)|, t)
    {
      var steps: nat := *;
      while steps > 0
        invariant Valid() && old(run) <= run && Undisturbed(old(View()), View(), t)
        invariant !InSession(threads[t]) ==> StaysOut(run, |old(run)|, t)
      {
        ghost var seen := run;
        var e: Event := *;
        TryOther(t, e);
        if !InSession(threads[t]) {
          StaysOutOneMore(seen, |old(run)|, t, View());
        }
        steps := steps - 1;
      }
    }

    /** The decrement of ccat_cdev_open; if it does not win, someone else held the device or was backing out. */
    method Claim(t: nat) returns (won: bool)
      requires Valid() && t < |threads| && threads[t] == Outside
      modifies this, port
      ensures Valid() && old(run) <= run && |threads| == |old(threads)|
      ensures threads[t] == if won then Won else BackingOut
      ensures if won then WonSince(run, |old(run)|, t) else ContendedSince(run, |old(run)| - 1, t)
      ensures |threads| == 1 ==> won
      ensures StaysOut(run, |old(run)|, t)
    {
      Others(t);
      ghost var seen := run;
      OpenWinsIff(run, |run| - 1, t);
      assert Contended(seen[|seen| - 1], t) ==> ContendedSince(seen, |old(run)| - 1, t);
      Do(Decrement(t));
      won := inUse == 0;
      StaysOutOneMore(seen, |old(run)|, t, View());
      SinceLonger(seen, |old(run)| - 1, t, run);
      assert won ==> HasWon(run[|seen|], t);
      if !won {
        ContendedNeedsTwo(run, |old(run)| - 1, t);
      }
    }

    /** The increment of ccat_cdev_open after a lost decrement. */
    method BackOut(t: nat)
      requires Valid() && t < |threads| && threads[t] == BackingOut
      modifies this, port
      ensures Valid() && old(run) <= run && |threads| == |old(threads)| && threads[t] == Outside
      ensures StaysOut(run, |old(run)|, t)
    {
      Others(t);
      ghost var seen := run;
      Do(Undo(t));
      StaysOutOneMore(seen, |old(run)|, t, View());
    }

    /** The allocation of ccat_cdev_open, by the thread that won. */
    method Prepare(t: nat, gotMemory: bool) returns (r: OpenResult)
      requires Valid() && t < |threads| && threads[t] == Won
      modifies this, port
      ensures Valid() && old(run) <= run && |threads| == |old(threads)|
      ensures if gotMemory
              then r.Granted? && threads[t] == Using(r.session, []) && |released| == r.session
              else r == NoMemory && threads[t] == Outside && StaysOut(run, |old(run)|, t)
    {
      Others(t);
      if !gotMemory {
        ghost var seen := run;
        Do(AllocationFails(t));
        StaysOutOneMore(seen, |old(run)|, t, View());
        return NoMemory;
      }
      r := Granted(sessions);
      Do(Allocate(t));
      RunInv(run, |run| - 1);
    }

    /**
     * ccat_cdev_open by thread `t`; `gotMemory` is the outcome of kzalloc. Success means that `t` alone holds the
     * device; EBUSY that at some moment of the call another thread held it or was backing out; ENOMEM that it was
     * won before the allocation failed.
     */
    method Open(t: nat, gotMemory: bool) returns (r: OpenResult)
      requires Valid() && t < |threads| && threads[t] == Outside
      modifies this, port
      ensures Valid() && old(run) <= run && |threads| == |old(threads)|
      ensures r.Granted? ==>
                && gotMemory && threads[t] == Using(r.session, []) && |released| == r.session
                && forall u :: 0 <= u < |threads| && u != t ==> !Holds(threads[u])
      ensures !r.Granted? ==> threads[t] == Outside && StaysOut(run, |old(run)|, t)
      ensures r == NoMemory ==> !gotMemory && WonSince(run, |old(run)|, t)
      ensures r == Busy ==> ContendedSince(run, |old(run)| - 1, t)
      ensures |threads| == 1 ==> r != Busy
    {
      var won := Claim(t);
      ghost var seen := run;
      if won {
        r := Prepare(t, gotMemory);
        if r.Granted? {
          HeldAlone(t);
          return;
        }
      } else {
        BackOut(t);
        r := Busy;
      }
      SeenStands(seen, |old(run)| - 1, t, run);
    }

    lemma HeldAlone(t: nat)
      requires Valid() && t < |threads| && Holds(threads[t])
      ensures forall u :: 0 <= u < |threads| && u != t ==> !Holds(threads[u])
    {
      RunInv(run, |run| - 1);
      Alone(View(), t);
    }

    /** The file operations of thread `t`, one after the other; nothing reaches the flash but its own reads. */
    method Use(t: nat, ops: seq<Op>)
      requires Valid() && t < |threads| && threads[t].Using? && threads[t].ops == []
      modifies this, port
      ensures Valid() && old(run) <= run && |threads| == |old(threads)|
      ensures threads[t] == Using(old(threads)[t].session, ops)
      ensures Cycles(port.log) == Cycles(old(port.log)) && released == old(released)
      ensures port.Image() == old(port.Image())
    {
      ghost var session := threads[t].session;
      for i := 0 to |ops|
        invariant Valid() && old(run) <= run && |threads| == |old(threads)|
        invariant threads[t] == Using(session, ops[..i])
        invariant Cycles(port.log) == Cycles(old(port.log)) && released == old(released)
        invariant port.Image() == old(port.Image())
      {
        Others(t);
        Do(Operate(t, ops[i]));
        assert ops[..i + 1] == ops[..i] + [ops[i]];
      }
    }

    /** All cycles of a release, with any steps of the other threads in between. */
    method IssueAll(t: nat, session: nat, ops: seq<Op>)
      requires Valid() && t < |threads| && threads[t] == Releasing(session, ops, 0)
      modifies this, port
      ensures Valid() && old(run) <= run && |threads| == |old(threads)| && released == old(released)
      ensures threads[t] == Releasing(session, ops, |CyclesOf(ops)|)
    {
      var count, k := |CyclesOf(ops)|, 0;
      while k < count
        invariant Valid() && old(run) <= run && |threads| == |old(threads)| && released == old(released)
        invariant k <= count && threads[t] == Releasing(session, ops, k)
      {
        Others(t);
        Do(Issue(t));
        k := k + 1;
      }
    }

    /** With no release under way, the cycles and the contents are those of the released sessions in a row. */
    lemma SettledNow()
      requires Valid() && NobodyReleasing(threads)
      ensures |origin| >= CCAT_FLASH_SIZE && Cycles(port.log) == AllCycles(released)
      ensures port.Image() == LastImage(origin, released)
    {
      FlashedInSessionOrder(run, |run| - 1);
      FlashHoldsSessions(run, |run| - 1);
    }

    /**
     * ccat_update_release by thread `t`: the cycles of its session, then the return of the device. Whatever the
     * other threads do meanwhile, no other cycle comes between them, and the flash ends with the session's image.
     */
    method Release(t: nat)
      requires Valid() && t < |threads| && threads[t].Using?
      modifies this, port
      ensures Valid() && old(run) <= run && |threads| == |old(threads)| && threads[t] == Outside
      ensures var ops := old(threads)[t].ops;
              && released == old(released) + [ops]
              && Cycles(port.log) == Cycles(old(port.log)) + CyclesOf(ops)
              && |old(port.Image())| >= CCAT_FLASH_SIZE
              && port.Image() == ImageAfter(old(port.Image()), Replay(ops))
    {
      var session, ops := threads[t].session, threads[t].ops;
      HeldAlone(t);
      SettledNow();
      OneMoreSession(origin, released, ops);
      Do(BeginRelease(t));
      IssueAll(t, session, ops);
      Others(t);
      HeldAlone(t);
      Do(Return(t));
      SettledNow();
    }

    /**
     * A whole session of thread `t` amid the others: if the open succeeds, its operations are released under its
     * session number, and what it wrote is what the flash then holds. It fails only with the device contended or
     * without memory, and then `t` has never been in a session, so that no cycle was its own.
     */
    method RunThread(t: nat, gotMemory: bool, ops: seq<Op>) returns (r: OpenResult)
      requires Valid() && t < |threads| && threads[t] == Outside
      modifies this, port
      ensures Valid() && old(run) <= run && |threads| == |old(threads)| && threads[t] == Outside
      ensures r.Granted? ==> gotMemory && |released| == r.session + 1 && released[r.session] == ops
      ensures r.Granted? && WroteSomething(ops) ==>
                |port.Image()| >= CCAT_FLASH_SIZE && port.Image() == Flashed(Replay(ops), |port.Image()|)
      ensures r == NoMemory ==> !gotMemory && WonSince(run, |old(run)|, t)
      ensures r == Busy ==> ContendedSince(run, |old(run)| - 1, t)
      ensures |threads| == 1 && gotMemory ==> r.Granted?
      ensures !r.Granted? ==> StaysOut(run, |old(run)|, t)
    {
      r := Open(t, gotMemory);
      if r.Granted? {
        Use(t, ops);
        Others(t);
        Release(t);
      }
    }
  }
}
