/** One device transaction as an object: private allocators loaded from the store, changed in place, and
    written back by the commit. Its methods do what the steps of the concurrent model do. */
module XenTransactions {
  import opened Bytes
  import opened DeviceIds
  import opened DiskNames
  import opened Results
  import opened Transactions

  class XenTransaction {
    const devalloc: DeviceIdAllocator
    const blkalloc: DeviceIdAllocator
    ghost const devVersion: nat
    ghost const blkVersion: nat
    ghost var results: seq<Device>
    var abort: bool

    ghost predicate Valid()
      reads this, devalloc, blkalloc
    {
      devalloc != blkalloc && devalloc.Valid() && blkalloc.Valid()
    }

    /** The attempt of the concurrent model that this object carries out. */
    ghost function State(): Attempt
      reads this, devalloc, blkalloc
    {
      Attempt(devalloc.Value(), devVersion, blkalloc.Value(), blkVersion, results)
    }

    /** A new transaction starts from what the two nodes hold, or from fresh allocators. */
    constructor (devNode: Node, blkNode: Node)
      ensures Valid() && fresh(devalloc) && fresh(blkalloc) && abort
      ensures State() == Attempt(Load(devNode), devNode.version, Load(blkNode), blkNode.version, [])
    {
      var devLoaded := LoadIdAllocator(devNode.value);
      var blkLoaded := LoadIdAllocator(blkNode.value);
      devalloc := new DeviceIdAllocator.FromValue(devLoaded);
      blkalloc := new DeviceIdAllocator.FromValue(blkLoaded);
      devVersion, blkVersion, results, abort := devNode.version, blkNode.version, [], true;
    }

    static method LoadIdAllocator(value: Option<seq<Byte>>) returns (a: IdState)
      ensures WellFormed(a) && forall v: nat :: a == Load(Node(value, v))
      // without a value of the right length all ids are free and the first one is next
      ensures value.None? || |value.value| != 516 ==>
                a.cursor == 0 && forall i :: 0 <= i < 4096 ==> !a.states[i]
    {
      if value.None? {
        return Fresh();
      }
      StoredIsSerialized(value.value);
      var loaded := DeviceIdAllocator.Deserialize(value.value);
      return if loaded.Some? then loaded.value else Fresh();
    }

    method AssignNextDevid() returns (r: Result<nat>)
      requires Valid()
      modifies devalloc
      ensures Valid()
      ensures var (a, id) := Allocated(old(devalloc.Value()));
              devalloc.Value() == a && r == if id.Some? then Ok(id.value) else Err(DevIdExhausted)
    {
      var id := devalloc.Allocate();
      return if id.Some? then Ok(id.value) else Err(DevIdExhausted);
    }

    method AssignNextBlkidx() returns (r: Result<nat>)
      requires Valid()
      modifies blkalloc
      ensures Valid()
      ensures var (a, id) := Allocated(old(blkalloc.Value()));
              blkalloc.Value() == a && r == if id.Some? then Ok(id.value) else Err(DevIdExhausted)
    {
      var id := blkalloc.Allocate();
      return if id.Some? then Ok(id.value) else Err(DevIdExhausted);
    }

    /** Ids for one device: a device id, and for a disk also a block index, its name and its number. */
    method AddDevice(disk: bool) returns (r: Result<Device>, name: string, number: nat)
      requires Valid()
      modifies this`results, devalloc, blkalloc
      ensures Valid()
      ensures r.Ok? <==> AddOne(old(State()), disk).Some?
      ensures r.Ok? ==> State() == AddOne(old(State()), disk).value && results == old(results) + [r.value]
      // every device takes a device id, and a disk alone takes a block index
      ensures r.Ok? ==>
                && (devalloc.Value(), Some(r.value.devid)) == Allocated(old(devalloc.Value()))
                && (r.value.blkid.Some? <==> disk)
                && (disk ==> (blkalloc.Value(), r.value.blkid) == Allocated(old(blkalloc.Value())))
      ensures !disk ==> blkalloc.Value() == old(blkalloc.Value())
      ensures r.Ok? && disk ==>
                && name == DiskName(r.value.blkid.value) && number == VirtualDevice(r.value.blkid.value)
                && DiskOfNumber(number) == Some((r.value.blkid.value, 0))
    {
      name, number := "", 0;
      var id := AssignNextDevid();
      if id.Err? {
        return Err(DevIdExhausted), name, number;
      }
      var device := Device(id.value, None);
      if disk {
        var idx := AssignNextBlkidx();
        if idx.Err? {
          return Err(DevIdExhausted), name, number;
        }
        device := Device(id.value, Some(idx.value));
        name := VbdBlkidxToDiskName(idx.value);
        NumberNamesDisk(idx.value, 0);
        number := if idx.value <= 5 then 202 * 0x100 + idx.value * 16 else 0x1000_0000 + idx.value * 256;
      }
      results := results + [device];
      return Ok(device), name, number;
    }

    /** Give back the ids of a device. */
    method ReleaseDevice(devid: nat, blkid: Option<nat>)
      requires Valid() && devid < DEVICE_COUNT && (blkid.Some? ==> blkid.value < DEVICE_COUNT)
      modifies this`results, devalloc, blkalloc
      ensures Valid() && State() == ReleaseOne(old(State()), Device(devid, blkid))
    {
      devalloc.Release(devid);
      if blkid.Some? {
        blkalloc.Release(blkid.value);
      }
      results := [Device(devid, blkid)];
    }

    /** What a commit writes to the two nodes. */
    method BeforeCommit() returns (dev: seq<Byte>, blk: seq<Byte>)
      requires Valid()
      modifies this`abort
      ensures Valid() && !abort && State() == old(State())
      ensures dev == Serialized(State().dev) && blk == Serialized(State().blk)
    {
      abort := false;
      dev := devalloc.Serialize();
      blk := blkalloc.Serialize();
    }
  }

  // ----- the retry loops -----

  /** What one transaction of a retry loop meets: the two nodes it reads, and whether its commit goes through. */
  datatype Round = Round(devNode: Node, blkNode: Node, granted: bool)

  function Start(round: Round): (w: Attempt)
    ensures WellFormed(w.dev) && WellFormed(w.blk)
  {
    LoadWellFormed(round.devNode);
    LoadWellFormed(round.blkNode);
    Attempt(Load(round.devNode), round.devNode.version, Load(round.blkNode), round.blkNode.version, [])
  }

  lemma LoadWellFormed(node: Node)
    ensures WellFormed(Load(node))
  {
    if node.value.Some? {
      StoredIsSerialized(node.value.value);
    }
  }

  datatype Outcome =
    | Done(results: seq<Device>, devStored: seq<Byte>, blkStored: seq<Byte>)
    | Exhausted
    | Retrying  // every commit so far was refused

  /** What a job does with the allocators its transaction has read. None when ids run out. */
  function Work(job: Job, w: Attempt): Option<Attempt>
    requires WellFormed(w.dev) && WellFormed(w.blk) && (job.Remove? ==> InRange(job.device))
  {
    match job
    case Add(disks) => AddAll(w, disks)
    case Remove(d) => Some(ReleaseOne(w, d))
  }

  /** The commit of the round was reached and refused. */
  predicate Refused(round: Round, job: Job)
    requires job.Remove? ==> InRange(job.device)
  {
    Work(job, Start(round)).Some? && !round.granted
  }

  /** What a retry loop has done after so many tries: all commits but the last one were refused, and outcome and
      stored state are those of the last transaction alone. */
  predicate LoopDone(job: Job, rounds: seq<Round>, outcome: Outcome, tries: nat)
    requires job.Remove? ==> InRange(job.device)
  {
    && tries <= |rounds|
    && match outcome
       case Retrying => tries == |rounds| && forall j :: 0 <= j < tries ==> Refused(rounds[j], job)
       case Exhausted =>
         && tries > 0 && (forall j :: 0 <= j < tries - 1 ==> Refused(rounds[j], job))
         && Work(job, Start(rounds[tries - 1])).None?
       case Done(results, dev, blk) =>
         && tries > 0 && (forall j :: 0 <= j < tries - 1 ==> Refused(rounds[j], job))
         && rounds[tries - 1].granted && Work(job, Start(rounds[tries - 1])).Some?
         && var w := Work(job, Start(rounds[tries - 1])).value;
         && results == w.results && WellFormed(w.dev) && WellFormed(w.blk)
         && dev == Serialized(w.dev) && blk == Serialized(w.blk)
  }

  lemma AddAllStep(w: Attempt, done: seq<bool>, disk: bool)
    requires WellFormed(w.dev) && WellFormed(w.blk) && AddAll(w, done).Some?
    ensures var w' := AddAll(w, done).value;
            && WellFormed(w'.dev) && WellFormed(w'.blk)
            && (AddOne(w', disk).None? ==> AddAll(w, done + [disk]).None?)
            && (AddOne(w', disk).Some? && WellFormed(AddOne(w', disk).value.dev)
                && WellFormed(AddOne(w', disk).value.blk) ==>
                  AddAll(w, done + [disk]) == AddOne(w', disk))
    decreases |done|
  {
    hide AddOne;
    if |done| == 0 {
      assert done + [disk] == [disk];
      assert [disk][1..] == [];
    } else {
      AddAllStep(AddOne(w, done[0]).value, done[1..], disk);
      assert (done + [disk])[1..] == done[1..] + [disk];
    }
  }

  lemma ExhaustedEarly(w: Attempt, done: seq<bool>, rest: seq<bool>)
    requires WellFormed(w.dev) && WellFormed(w.blk) && AddAll(w, done).None?
    ensures AddAll(w, done + rest).None?
    decreases |done|
  {
    hide AddOne;
    if |done| > 0 {
      assert (done + rest)[1..] == done[1..] + rest;
      match AddOne(w, done[0])
      case None =>
      case Some(w') =>
        if WellFormed(w'.dev) && WellFormed(w'.blk) {
          ExhaustedEarly(w', done[1..], rest);
        }
    }
  }

  /** One attempt of the loop in `init`: add every device in one transaction. */
  method AddDevices(round: Round, disks: seq<bool>) returns (tx: XenTransaction, added: seq<Device>, ok: bool)
    ensures fresh(tx) && fresh(tx.devalloc) && fresh(tx.blkalloc) && tx.Valid()
    ensures ok <==> AddAll(Start(round), disks).Some?
    ensures ok ==> tx.State() == AddAll(Start(round), disks).value && added == tx.results
  {
    hide AddOne, AddAll, Load;
    tx := new XenTransaction(round.devNode, round.blkNode);
    added := [];
    ok := true;
    assert AddAll(Start(round), []) == Some(Start(round)) by {
      StartsEmpty(Start(round));
    }
    assert disks[..0] == [];
    for i := 0 to |disks|
      invariant fresh(tx) && fresh(tx.devalloc) && fresh(tx.blkalloc) && tx.Valid()
      invariant AddAll(Start(round), disks[..i]) == Some(tx.State()) && added == tx.results
    {
      AddAllStep(Start(round), disks[..i], disks[i]);
      assert disks[..i + 1] == disks[..i] + [disks[i]];
      var device, _, _ := tx.AddDevice(disks[i]);
      if device.Err? {
        ok := false;
        ExhaustedEarly(Start(round), disks[..i + 1], disks[i + 1..]);
        assert disks[..i + 1] + disks[i + 1..] == disks;
        return;
      }
      added := added + [device.value];
    }
    assert disks[..|disks|] == disks;
  }

  lemma StartsEmpty(w: Attempt)
    requires WellFormed(w.dev) && WellFormed(w.blk)
    ensures AddAll(w, []) == Some(w)
  {
  }

  /** The loop in `init`: transactions are tried until a commit goes through, each with new allocators and new
      results. */
  method Init(rounds: seq<Round>, disks: seq<bool>) returns (outcome: Outcome, tries: nat)
    ensures LoopDone(Add(disks), rounds, outcome, tries)
  {
    hide AddAll, AddOne, Load, Serialized, Deserialized;
    tries := 0;
    while tries < |rounds|
      invariant tries <= |rounds| && forall j :: 0 <= j < tries ==> Refused(rounds[j], Add(disks))
    {
      var round := rounds[tries];
      tries := tries + 1;
      var tx, added, ok := AddDevices(round, disks);
      if !ok {
        return Exhausted, tries;
      }
      var dev, blk := tx.BeforeCommit();
      if round.granted {
        return Done(added, dev, blk), tries;
      }
    }
    return Retrying, tries;
  }

  /** The release loop in `destroy_device`. */
  method DestroyDevice(rounds: seq<Round>, devid: nat, blkid: Option<nat>) returns (outcome: Outcome, tries: nat)
    requires InRange(Device(devid, blkid))
    ensures LoopDone(Remove(Device(devid, blkid)), rounds, outcome, tries)
    // what is stored is the last transaction's own reading with the device's ids cleared
    ensures outcome.Done? ==>
              && Deserialized(outcome.devStored).Some? && Deserialized(outcome.blkStored).Some?
              && var w, dev, blk := Start(rounds[tries - 1]), Deserialized(outcome.devStored).value,
                                    Deserialized(outcome.blkStored).value;
                 && dev == w.dev.(states := w.dev.states[devid := false])
                 && blk == (if blkid.Some? then w.blk.(states := w.blk.states[blkid.value := false]) else w.blk)
  {
    hide Load, Serialized, Deserialized;
    tries := 0;
    while tries < |rounds|
      invariant tries <= |rounds| && forall j :: 0 <= j < tries ==> Refused(rounds[j], Remove(Device(devid, blkid)))
    {
      var round := rounds[tries];
      tries := tries + 1;
      var tx := new XenTransaction(round.devNode, round.blkNode);
      tx.ReleaseDevice(devid, blkid);
      var dev, blk := tx.BeforeCommit();
      if round.granted {
        StorageRoundTrip(tx.devalloc.Value());
        StorageRoundTrip(tx.blkalloc.Value());
        return Done([Device(devid, blkid)], dev, blk), tries;
      }
    }
    return Retrying, tries;
  }
}
