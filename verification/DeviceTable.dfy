/** The table of character devices of one class, with its reference-counted class and device-number region. */
module DeviceTable {

  const MINOR_BITS: nat := 0x10_0000

  /** MKDEV; zero stands for a free table entry. */
  function MakeDev(major: nat, minor: nat): nat {
    major * MINOR_BITS + minor
  }

  /** Major and minor number are recovered from a device number. */
  lemma MakeDevParts(major: nat, minor: nat)
    requires minor < MINOR_BITS
    ensures MakeDev(major, minor) % MINOR_BITS == minor && MakeDev(major, minor) / MINOR_BITS == major
  {
  }

  /**
   * What a probe ends in. NullClass is the dereference of an unassigned `ccdev->class` in the clean-up path,
   * MissingClass the use of a device class that could not be created.
   */
  datatype ProbeResult = Registered(slot: nat) | TableFull | InitFailed | NullClass | MissingClass

  datatype Request = Probe | Remove(slot: nat)

  function Occupied(devices: seq<nat>): nat {
    if devices == [] then 0 else Occupied(devices[1..]) + if devices[0] != 0 then 1 else 0
  }

  lemma {:induction false} OccupiedAfter(devices: seq<nat>, i: nat, dev: nat)
    requires i < |devices|
    ensures Occupied(devices[i := dev])
         == Occupied(devices) - (if devices[i] != 0 then 1 else 0) + if dev != 0 then 1 else 0
  {
    if i == 0 {
      assert devices[i := dev][1..] == devices[1..];
    } else {
      assert devices[i := dev][1..] == devices[1..][i - 1 := dev];
      OccupiedAfter(devices[1..], i - 1, dev);
    }
  }

  lemma {:induction false} OccupiedBounds(devices: seq<nat>)
    ensures Occupied(devices) <= |devices|
    ensures Occupied(devices) == |devices| <==> forall i :: 0 <= i < |devices| ==> devices[i] != 0
    ensures Occupied(devices) == 0 <==> forall i :: 0 <= i < |devices| ==> devices[i] == 0
  {
    if devices != [] {
      OccupiedBounds(devices[1..]);
      assert forall i :: 0 <= i < |devices| - 1 ==> devices[1..][i] == devices[i + 1];
      assert forall i :: 0 < i < |devices| ==> devices[i] == devices[1..][i - 1];
    }
  }

  class CcatClass {
    const devices: array<nat>
    // Which entries have had `class` assigned by a successful probe.
    const classAssigned: array<bool>
    var instances: nat
    var region: bool
    var classCreated: bool
    var major: nat

    /** Table entries are free or carry their own index as minor number. */
    ghost predicate Numbered()
      reads this, devices, classAssigned
    {
      && devices.Length == classAssigned.Length >= 1
      && (forall i :: 0 <= i < devices.Length && devices[i] != 0 ==>
            devices[i] == MakeDev(major, i) && classAssigned[i])
    }

    /** The table between two probes or removes. */
    ghost predicate Valid()
      reads this, devices, classAssigned
    {
      && Numbered()
      && instances == Occupied(devices[..])
      && region == classCreated == (instances > 0)
      && (instances > 0 ==> major > 0)
    }

    /** Registered devices have their index as minor number and the class's major number, so no two share a number. */
    lemma NumbersDistinct()
      requires Numbered() && devices.Length <= MINOR_BITS
      ensures forall i :: 0 <= i < devices.Length && devices[i] != 0 ==>
                devices[i] % MINOR_BITS == i && devices[i] / MINOR_BITS == major
      ensures forall i, j :: 0 <= i < j < devices.Length && devices[i] != 0 && devices[j] != 0 ==>
                devices[i] != devices[j]
    {
      forall i | 0 <= i < devices.Length && devices[i] != 0
        ensures devices[i] % MINOR_BITS == i && devices[i] / MINOR_BITS == major
      {
        MakeDevParts(major, i);
      }
    }

    constructor (count: nat)
      requires count >= 1
      ensures Valid() && fresh(devices) && fresh(classAssigned)
      ensures devices.Length == count && instances == 0
      ensures forall i :: 0 <= i < count ==> devices[i] == 0 && !classAssigned[i]
    {
      devices := new nat[count](i => 0);
      classAssigned := new bool[count](i => false);
      instances, region, classCreated, major := 0, false, false, 0;
      new;
      OccupiedBounds(devices[..]);
    }

    /**
     * ccat_class_init; `regionOk` and `classOk` are the outcomes of the two kernel calls the first instance makes.
     * A failure leaves neither region nor class behind, but the instance stays counted.
     */
    method ClassInit(regionOk: bool, classOk: bool) returns (ok: bool)
      requires Valid()
      modifies this
      ensures Numbered() && instances == old(instances) + 1
      ensures ok <==> old(instances) > 0 || (regionOk && classOk)
      ensures region == classCreated == ok
      ensures ok ==> major > 0
      ensures old(instances) > 0 ==> major == old(major)
    {
      instances := instances + 1;
      if instances == 1 {
        OccupiedBounds(devices[..]);
        if !regionOk {
          return false;
        }
        var m: nat :| m > 0;
        region, major := true, m;
        if !classOk {
          region := false;
          return false;
        }
        classCreated := true;
      }
      return true;
    }

    /** ccat_class_exit */
    method ClassExit()
      requires instances > 0
      modifies this`instances, this`region, this`classCreated
      ensures instances == old(instances) - 1
      ensures instances == 0 ==> !region && !classCreated
      ensures instances > 0 ==> region == old(region) && classCreated == old(classCreated)
    {
      instances := instances - 1;
      if instances == 0 {
        classCreated := false;
        region := false;
      }
    }

    /**
     * alloc_ccat_cdev: the first free entry, or nothing and an unchanged table. The outcome of ClassInit is not
     * looked at, so an entry may be handed out although there is no class.
     */
    method AllocCdev(regionOk: bool, classOk: bool) returns (found: bool, slot: nat)
      requires Valid()
      modifies this, devices
      ensures found <==> exists i :: 0 <= i < devices.Length && old(devices[i]) == 0
      ensures found ==>
                && slot < devices.Length && old(devices[slot]) == 0
                && (forall i :: 0 <= i < slot ==> old(devices[i]) != 0)
                && devices[..] == old(devices[..])[slot := MakeDev(major, slot)]
                && (slot < MINOR_BITS ==> devices[slot] % MINOR_BITS == slot && devices[slot] / MINOR_BITS == major)
                && instances == old(instances) + 1
                && region == classCreated == (old(instances) > 0 || (regionOk && classOk))
                && (classCreated ==> major > 0)
                && (old(instances) > 0 ==> major == old(major))
      ensures !found ==>
                && Valid() && devices[..] == old(devices[..])
                && instances == old(instances) && major == old(major)
    {
      OccupiedBounds(devices[..]);
      var ignored := ClassInit(regionOk, classOk);
      slot := 0;
      while slot < devices.Length
        invariant slot <= devices.Length && devices[..] == old(devices[..])
        invariant forall i :: 0 <= i < slot ==> devices[i] != 0
      {
        if devices[slot] == 0 {
          devices[slot] := MakeDev(major, slot);
          if slot < MINOR_BITS {
            MakeDevParts(major, slot);
          }
          return true, slot;
        }
        slot := slot + 1;
      }
      instances := instances - 1;
      return false, 0;
    }

    /** free_ccat_cdev */
    method FreeCdev(slot: nat)
      requires slot < devices.Length && instances > 0
      modifies this`instances, this`region, this`classCreated, devices
      ensures devices[..] == old(devices[..])[slot := 0]
      ensures instances == old(instances) - 1
      ensures instances == 0 ==> !region && !classCreated
      ensures instances > 0 ==> region == old(region) && classCreated == old(classCreated)
    {
      ClassExit();
      devices[slot] := 0;
    }

    /**
     * ccat_cdev_probe, where `succeeds` is the outcome of ccat_cdev_init. A full table refuses without change. The
     * first probe goes on without a class if and only if the class could not be created. A failing registration is
     * undone cleanly if and only if an earlier probe had succeeded on the same entry; otherwise the clean-up path
     * uses a class pointer nobody has assigned.
     */
    method ProbeDevice(regionOk: bool, classOk: bool, succeeds: bool) returns (r: ProbeResult)
      requires Valid()
      modifies this, devices, classAssigned
      ensures r == TableFull <==> old(instances) == devices.Length
      ensures r == MissingClass <==> old(instances) == 0 && !(regionOk && classOk)
      ensures r != NullClass && r != MissingClass ==> Valid()
      ensures r.Registered? <==> succeeds && old(instances) < devices.Length && r != MissingClass
      ensures r.Registered? ==>
                && r.slot < devices.Length && old(devices[r.slot]) == 0 && devices[r.slot] != 0
                && instances == old(instances) + 1
                && devices[..] == old(devices[..])[r.slot := MakeDev(major, r.slot)]
                && (forall i :: 0 <= i < r.slot ==> old(devices[i]) != 0)
      ensures r.Registered? && r.slot < MINOR_BITS ==>
                devices[r.slot] % MINOR_BITS == r.slot && devices[r.slot] / MINOR_BITS == major
      ensures r == TableFull || r == InitFailed ==> devices[..] == old(devices[..]) && instances == old(instances)
      ensures !succeeds && old(instances) < devices.Length && r != MissingClass ==>
                exists i :: FirstFree(old(devices[..]), i)
                            && r == if old(classAssigned[i]) then InitFailed else NullClass
    {
      OccupiedBounds(devices[..]);
      var found, slot := AllocCdev(regionOk, classOk);
      if !found {
        return TableFull;
      }
      if !classCreated {
        return MissingClass;
      }
      ghost var before := old(devices[..]);
      assert FirstFree(before, slot);
      OccupiedAfter(before, slot, MakeDev(major, slot));
      if !succeeds {
        if !classAssigned[slot] {
          return NullClass;
        }
        FreeCdev(slot);
        assert devices[..] == before;
        return InitFailed;
      }
      classAssigned[slot] := true;
      return Registered(slot);
    }

    /** ccat_cdev_remove of a registered device. */
    method RemoveDevice(slot: nat)
      requires Valid() && slot < devices.Length && devices[slot] != 0
      modifies this, devices
      ensures Valid() && devices[..] == old(devices[..])[slot := 0] && instances == old(instances) - 1
    {
      OccupiedBounds(devices[..]);
      OccupiedAfter(devices[..], slot, 0);
      FreeCdev(slot);
    }

    /** Which entries are in use. */
    ghost function Table(): (t: seq<bool>)
      reads this, devices
    {
      seq(devices.Length, i requires 0 <= i < devices.Length reads this, devices => devices[i] != 0)
    }

    /** A successful probe takes the first free entry, if there is one. */
    method ProbeOne()
      requires Valid()
      modifies this, devices, classAssigned
      ensures Valid() && Table() == Place(old(Table()), 0)
      ensures instances == if old(instances) == devices.Length then old(instances) else old(instances) + 1
      ensures TookFirstFree(old(devices[..]), devices[..])
    {
      ghost var before, devs := Table(), devices[..];
      OccupiedBounds(devs);
      var result := ProbeDevice(true, true, true);
      PlaceIsFirst(before, 0, if result.Registered? then result.slot else |before|);
      assert forall i :: 0 <= i < devices.Length ==> devices[i] == devices[..][i] && before[i] == (devs[i] != 0);
    }

    /** A successful probe, or a remove if the device is registered. */
    method ServeOne(r: Request)
      requires Valid()
      modifies this, devices, classAssigned
      ensures Valid() && Table() == Serve(old(Table()), r)
      ensures r.Probe? ==>
                && TookFirstFree(old(devices[..]), devices[..])
                && instances == if old(instances) == devices.Length then old(instances) else old(instances) + 1
      ensures r.Remove? ==>
                if r.slot < devices.Length && old(devices[r.slot]) != 0
                then devices[..] == old(devices[..])[r.slot := 0] && instances == old(instances) - 1
                else devices[..] == old(devices[..]) && instances == old(instances)
    {
      ghost var devs := devices[..];
      OccupiedBounds(devs);
      match r
      case Probe => ProbeOne();
      case Remove(slot) =>
        if slot < devices.Length && devices[slot] != 0 {
          RemoveDevice(slot);
          assert forall i :: 0 <= i < devices.Length ==> devices[i] == devs[slot := 0][i];
        }
    }

    /**
     * Any run of successful probes and of removes acts on the table as on a plain list of free and used entries: each
     * request turns the table the one before left (`tables`) into the next. In a table that minor numbers can index,
     * no two registered devices ever share a number.
     */
    method Operate(requests: seq<Request>) returns (ghost tables: seq<seq<nat>>)
      requires Valid()
      modifies this, devices, classAssigned
      ensures Valid() && Table() == Replay(old(Table()), requests)
      ensures |tables| == |requests| + 1 && tables[0] == old(devices[..]) && tables[|requests|] == devices[..]
      ensures forall k :: 0 <= k < |requests| ==> Acted(requests[k], tables[k], tables[k + 1])
      ensures devices.Length <= MINOR_BITS ==>
                && (forall i :: 0 <= i < devices.Length && devices[i] != 0 ==>
                      devices[i] % MINOR_BITS == i && devices[i] / MINOR_BITS == major)
                && (forall i, j :: 0 <= i < j < devices.Length && devices[i] != 0 && devices[j] != 0 ==>
                      devices[i] != devices[j])
    {
      tables := [devices[..]];
      for k := 0 to |requests|
        invariant Valid() && Table() == Replay(old(Table()), requests[..k])
        invariant |tables| == k + 1 && tables[0] == old(devices[..]) && tables[k] == devices[..]
        invariant forall i :: 0 <= i < k ==> Acted(requests[i], tables[i], tables[i + 1])
      {
        assert requests[..k + 1] == requests[..k] + [requests[k]];
        assert (requests[..k] + [requests[k]])[..k] == requests[..k];
        ServeOne(requests[k]);
        tables := tables + [devices[..]];
      }
      assert requests[..|requests|] == requests;
      if devices.Length <= MINOR_BITS {
        NumbersDistinct();
      }
    }
  }

  /** With a table of any size, a first registration that fails ends in the clean-up path's null pointer. */
  method FirstProbeFails(count: nat) returns (r: ProbeResult)
    requires count >= 1
    ensures r == NullClass
  {
    var table := new CcatClass(count);
    OccupiedBounds(table.devices[..]);
    r := table.ProbeDevice(true, true, false);
  }

  ghost predicate FirstFree(devices: seq<nat>, i: int) {
    0 <= i < |devices| && devices[i] == 0 && forall j :: 0 <= j < i ==> devices[j] != 0
  }

  /** The first free entry has got a number, or there was none and nothing changed. */
  ghost predicate TookFirstFree(before: seq<nat>, after: seq<nat>) {
    if forall i :: 0 <= i < |before| ==> before[i] != 0 then after == before
    else |after| == |before| &&
         exists i :: FirstFree(before, i) && after[i] != 0 && after == before[i := after[i]]
  }

  /** What a request makes of the table. */
  ghost predicate Acted(r: Request, before: seq<nat>, after: seq<nat>) {
    match r
    case Probe => TookFirstFree(before, after)
    case Remove(slot) => after == if slot < |before| then before[slot := 0] else before
  }

  /** A list of used entries with the first free one from `i` on taken, if there is one. */
  function Place(table: seq<bool>, i: nat): (t: seq<bool>)
    requires i <= |table|
    ensures |t| == |table|
    decreases |table| - i
  {
    if i == |table| then table
    else if table[i] then Place(table, i + 1)
    else table[i := true]
  }

  lemma {:induction false} PlaceIsFirst(table: seq<bool>, i: nat, slot: nat)
    requires i <= slot <= |table| && forall j :: i <= j < slot ==> table[j]
    requires slot < |table| ==> !table[slot]
    ensures Place(table, i) == if slot < |table| then table[slot := true] else table
    decreases |table| - i
  {
    if i < slot {
      PlaceIsFirst(table, i + 1, slot);
    }
  }

  function Serve(table: seq<bool>, r: Request): (t: seq<bool>)
    ensures |t| == |table|
  {
    match r
    case Probe => Place(table, 0)
    case Remove(slot) => if slot < |table| then table[slot := false] else table
  }

  function Replay(table: seq<bool>, requests: seq<Request>): (t: seq<bool>)
    ensures |t| == |table|
  {
    if requests == [] then table
    else Serve(Replay(table, requests[..|requests| - 1]), requests[|requests| - 1])
  }
}
