/** Concurrent device additions and removals of one domain over the store's optimistic transactions.
    Every step of every client is separate; the store lets a commit through only if the two allocator nodes
    are as the transaction read them, and may refuse any commit. */
module Transactions {
  import opened Bytes
  import opened DeviceIds
  import opened DiskNames
  import opened Results

  /** What `add_to_transaction` hands back: a device id, and a block index for disks. */
  datatype Device = Device(devid: nat, blkid: Option<nat>)

  /** A store node: its value, if written, and how often it has been committed. */
  datatype Node = Node(value: Option<seq<Byte>>, version: nat)

  datatype Store = Store(devNode: Node, blkNode: Node)

  /** What a client is to do: add devices (true for disks), or remove one. */
  datatype Job = Add(disks: seq<bool>) | Remove(device: Device)

  /** A transaction that has read both allocators: its private copies, the versions read, what it has done. */
  datatype Attempt = Attempt(dev: IdState, devVersion: nat, blk: IdState, blkVersion: nat, results: seq<Device>)

  datatype Phase =
    | Begun                                     // transaction open, nothing read
    | DevRead(dev: IdState, devVersion: nat)    // device allocator loaded
    | Working(attempt: Attempt)                 // both loaded
    | Committed(results: seq<Device>)
    | Dropped                                   // error or abort

  datatype Client = Client(job: Job, phase: Phase)

  datatype Domain = Domain(store: Store, clients: map<nat, Client>, live: set<Device>)

  function Load(node: Node): IdState {
    match node.value
    case None => Fresh()
    case Some(bytes) => match Deserialized(bytes) case None => Fresh() case Some(a) => a
  }

  /** Add one device: a device id first, then a block index if it is a disk. None when ids run out. */
  function AddOne(w: Attempt, disk: bool): Option<Attempt>
    requires WellFormed(w.dev) && WellFormed(w.blk)
  {
    var (dev, id) := Allocated(w.dev);
    if id == None then None
    else if !disk then Some(w.(dev := dev, results := w.results + [Device(id.value, None)]))
    else
      var (blk, idx) := Allocated(w.blk);
      if idx == None then None
      else Some(w.(dev := dev, blk := blk, results := w.results + [Device(id.value, idx)]))
  }

  /** Add the devices in order. None when ids run out on the way. */
  function AddAll(w: Attempt, disks: seq<bool>): Option<Attempt>
    requires WellFormed(w.dev) && WellFormed(w.blk)
    decreases |disks|
  {
    if |disks| == 0 then Some(w)
    else
      match AddOne(w, disks[0])
      case None => None
      case Some(w') => if WellFormed(w'.dev) && WellFormed(w'.blk) then AddAll(w', disks[1..]) else None
  }

  /** Release the ids of a device. */
  function ReleaseOne(w: Attempt, d: Device): Attempt
    requires WellFormed(w.dev) && WellFormed(w.blk) && d.devid < DEVICE_COUNT
    requires d.blkid.Some? ==> d.blkid.value < DEVICE_COUNT
  {
    w.(dev := Released(w.dev, d.devid),
       blk := if d.blkid.Some? then Released(w.blk, d.blkid.value) else w.blk,
       results := [d])
  }

  predicate Active(c: Client) {
    !c.phase.Committed? && !c.phase.Dropped?
  }

  predicate Finished(c: Client) {
    c.phase.Working? && match c.job
    case Add(disks) => |c.phase.attempt.results| == |disks|
    case Remove(d) => c.phase.attempt.results == [d]
  }

  datatype Event =
    | Join(c: nat, job: Job)
    | ReadDev(c: nat)
    | ReadBlk(c: nat)
    | Assign(c: nat)
    | Release(c: nat)
    | Drop(c: nat)
    | CommitOk(c: nat)
    | CommitAgain(c: nat)

  function With(s: Domain, c: nat, phase: Phase): Domain
    requires c in s.clients
  {
    s.(clients := s.clients[c := s.clients[c].(phase := phase)])
  }

  /** The store after a commit: both allocators are written back. */
  function Written(store: Store, w: Attempt): Store
    requires WellFormed(w.dev) && WellFormed(w.blk)
  {
    Store(Node(Some(Serialized(w.dev)), store.devNode.version + 1),
          Node(Some(Serialized(w.blk)), store.blkNode.version + 1))
  }

  ghost predicate Step(s: Domain, e: Event, s': Domain) {
    match e
    case Join(c, job) =>
      // a device is removed by one client at a time, and only while it exists
      && c !in s.clients
      && (job.Remove? ==> job.device in s.live
                          && forall x :: x in s.clients && Active(s.clients[x]) ==> s.clients[x].job != job)
      && s' == s.(clients := s.clients[c := Client(job, Begun)])
    case ReadDev(c) =>
      && c in s.clients && s.clients[c].phase.Begun?
      && s' == With(s, c, DevRead(Load(s.store.devNode), s.store.devNode.version))
    case ReadBlk(c) =>
      && c in s.clients && s.clients[c].phase.DevRead?
      && var p := s.clients[c].phase;
         s' == With(s, c, Working(Attempt(p.dev, p.devVersion, Load(s.store.blkNode), s.store.blkNode.version, [])))
    case Assign(c) =>
      && c in s.clients && s.clients[c].phase.Working? && s.clients[c].job.Add?
      && var w, disks := s.clients[c].phase.attempt, s.clients[c].job.disks;
      && |w.results| < |disks| && WellFormed(w.dev) && WellFormed(w.blk)
      && s' == With(s, c, match AddOne(w, disks[|w.results|]) case None => Dropped case Some(w') => Working(w'))
    case Release(c) =>
      && c in s.clients && s.clients[c].phase.Working? && s.clients[c].job.Remove?
      && var w, d := s.clients[c].phase.attempt, s.clients[c].job.device;
      && w.results == [] && WellFormed(w.dev) && WellFormed(w.blk)
      && d.devid < DEVICE_COUNT && (d.blkid.Some? ==> d.blkid.value < DEVICE_COUNT)
      && s' == With(s, c, Working(ReleaseOne(w, d)))
    case Drop(c) =>
      && c in s.clients && Active(s.clients[c])
      && s' == With(s, c, Dropped)
    case CommitOk(c) =>
      && c in s.clients && Finished(s.clients[c])
      && var client := s.clients[c];
         var w := client.phase.attempt;
      && w.devVersion == s.store.devNode.version && w.blkVersion == s.store.blkNode.version
      && WellFormed(w.dev) && WellFormed(w.blk)
      && s' == Domain(Written(s.store, w), s.clients[c := client.(phase := Committed(w.results))],
                      if client.job.Add? then s.live + Elements(w.results) else s.live - {client.job.device})
    case CommitAgain(c) =>
      // the client starts over with a new transaction and forgets what it had been given
      && c in s.clients && Finished(s.clients[c])
      && s' == With(s, c, Begun)
  }

  function Elements(ds: seq<Device>): set<Device> {
    set d | d in ds
  }

  // ----- the invariant -----

  predicate HasDev(ds: set<Device>, i: nat) {
    exists d :: d in ds && d.devid == i
  }

  predicate HasBlk(ds: set<Device>, i: nat) {
    exists d :: d in ds && d.blkid == Some(i)
  }

  predicate InRange(d: Device) {
    d.devid < DEVICE_COUNT && (d.blkid.Some? ==> d.blkid.value < DEVICE_COUNT)
  }

  /** No two devices of the set share a device id or a block index. */
  ghost predicate Unique(ds: set<Device>) {
    && (forall d :: d in ds ==> InRange(d))
    && (forall d, e :: d in ds && e in ds && d.devid == e.devid ==> d == e)
    && (forall d, e :: d in ds && e in ds && d.blkid.Some? && d.blkid == e.blkid ==> d == e)
  }

  predicate Usable(a: IdState) {
    WellFormed(a) && a.cursor < DEVICE_COUNT
  }

  /** The bitmaps hold exactly the ids of the set. */
  ghost predicate Matches(dev: IdState, blk: IdState, ds: set<Device>) {
    && Usable(dev) && Usable(blk)
    && (forall i :: 0 <= i < DEVICE_COUNT ==> (dev.states[i] <==> HasDev(ds, i)))
    && (forall i :: 0 <= i < DEVICE_COUNT ==> (blk.states[i] <==> HasBlk(ds, i)))
  }

  /** What the domain's devices will be if the client's transaction commits. */
  function Planned(job: Job, results: seq<Device>, live: set<Device>): set<Device> {
    match job
    case Add(_) => live + Elements(results)
    case Remove(d) => if results == [d] then live - {d} else live
  }

  predicate Apart(results: seq<Device>, live: set<Device>) {
    && (forall i :: 0 <= i < |results| ==> results[i] !in live)
    && (forall i, j :: 0 <= i < j < |results| ==> results[i] != results[j])
  }

  /** A transaction whose reads are still current carries the bitmaps of the devices it plans. */
  ghost predicate AttemptOk(s: Domain, job: Job, w: Attempt) {
    && Usable(w.dev) && Usable(w.blk)
    && w.devVersion <= s.store.devNode.version && w.blkVersion <= s.store.blkNode.version
    && (w.devVersion == s.store.devNode.version && w.blkVersion == s.store.blkNode.version ==>
          && Matches(w.dev, w.blk, Planned(job, w.results, s.live)) && Unique(Planned(job, w.results, s.live))
          && (job.Add? ==> Apart(w.results, s.live)))
    && (job.Remove? ==> w.results == [] || w.results == [job.device])
    && (job.Add? ==> KindsOk(w.results, job.disks))
  }

  /** So far each device is of the kind that was asked for: the disks, and they alone, have block indexes. */
  predicate KindsOk(results: seq<Device>, disks: seq<bool>) {
    |results| <= |disks| && forall k :: 0 <= k < |results| ==> (results[k].blkid.Some? <==> disks[k])
  }

  ghost predicate ClientOk(s: Domain, c: Client) {
    match c.phase
    case DevRead(dev, v) =>
      && Usable(dev) && v <= s.store.devNode.version
      && (v == s.store.devNode.version ==> dev == Load(s.store.devNode))
    case Working(w) => AttemptOk(s, c.job, w)
    case _ => true
  }

  predicate JobsApart(c: Client, x: Client) {
    Active(c) && Active(x) && c.job.Remove? ==> c.job != x.job
  }

  /** Versions of the two nodes move together, the stored bitmaps are exactly the live ids, the ids of live
      devices are unique, and every client's private state is consistent with what it read. */
  ghost predicate Inv(s: Domain) {
    && s.store.devNode.version == s.store.blkNode.version
    && Matches(Load(s.store.devNode), Load(s.store.blkNode), s.live)
    && Unique(s.live)
    && (forall c :: c in s.clients ==> ClientOk(s, s.clients[c]))
    && (forall c :: c in s.clients && Active(s.clients[c]) && s.clients[c].job.Remove? ==>
          s.clients[c].job.device in s.live)
    && (forall c, x :: c in s.clients && x in s.clients && c != x ==> JobsApart(s.clients[c], s.clients[x]))
  }

  ghost predicate Init(s: Domain) {
    s == Domain(Store(Node(None, 0), Node(None, 0)), map[], {})
  }

  lemma InitInv(s: Domain)
    requires Init(s)
    ensures Inv(s)
  {
  }

  lemma LoadWritten(store: Store, w: Attempt)
    requires WellFormed(w.dev) && WellFormed(w.blk)
    ensures Load(Written(store, w).devNode) == w.dev && Load(Written(store, w).blkNode) == w.blk
  {
    StorageRoundTrip(w.dev);
    StorageRoundTrip(w.blk);
  }

  /** One allocation sets one free bit. */
  lemma AllocatedBit(a: IdState)
    requires Usable(a)
    ensures var (b, r) := Allocated(a);
            && Usable(b)
            && (r.Some? ==> r.value < DEVICE_COUNT && !a.states[r.value] && b.states == a.states[r.value := true])
  {
    AllocatesFirstFree(a);
  }

  lemma AddOneUsable(w: Attempt, disk: bool)
    requires Usable(w.dev) && Usable(w.blk)
    ensures var r := AddOne(w, disk);
            r.Some? ==>
              && Usable(r.value.dev) && Usable(r.value.blk)
              && r.value.devVersion == w.devVersion && r.value.blkVersion == w.blkVersion
              && |r.value.results| == |w.results| + 1
              && var d := r.value.results[|w.results|];
              && r.value.results == w.results + [d] && InRange(d) && (d.blkid.Some? <==> disk)
              && !w.dev.states[d.devid] && r.value.dev.states == w.dev.states[d.devid := true]
              && if d.blkid.None? then r.value.blk == w.blk
                 else !w.blk.states[d.blkid.value] && r.value.blk.states == w.blk.states[d.blkid.value := true]
  {
    hide Allocated;
    AllocatedBit(w.dev);
    AllocatedBit(w.blk);
  }

  /** Adding one device keeps the private bitmaps in step with the planned devices. */
  lemma AddOneMatches(w: Attempt, disk: bool, live: set<Device>)
    requires Usable(w.dev) && Usable(w.blk) && AddOne(w, disk).Some?
    requires var ds := live + Elements(w.results);
             Matches(w.dev, w.blk, ds) && Unique(ds) && Apart(w.results, live)
    ensures var w' := AddOne(w, disk).value;
            var ds := live + Elements(w'.results);
            Matches(w'.dev, w'.blk, ds) && Unique(ds) && Apart(w'.results, live)
  {
    hide AddOne, Matches, Unique;
    AddOneUsable(w, disk);
    var w' := AddOne(w, disk).value;
    var d, ds := w'.results[|w.results|], live + Elements(w.results);
    assert live + Elements(w'.results) == ds + {d};
    NewDevice(w.dev, w.blk, w'.dev, w'.blk, ds, d);
    assert forall i :: 0 <= i < |w.results| ==> w.results[i] in ds;
  }

  /** A device with unused ids joins the set; the bitmaps gain exactly its ids. */
  lemma NewDevice(dev: IdState, blk: IdState, dev': IdState, blk': IdState, ds: set<Device>, d: Device)
    requires Matches(dev, blk, ds) && Unique(ds) && InRange(d) && Usable(dev') && Usable(blk')
    requires !dev.states[d.devid] && dev'.states == dev.states[d.devid := true]
    requires if d.blkid.None? then blk' == blk
             else !blk.states[d.blkid.value] && blk'.states == blk.states[d.blkid.value := true]
    ensures Matches(dev', blk', ds + {d}) && Unique(ds + {d}) && d !in ds
  {
    assert d in ds ==> HasDev(ds, d.devid);
    forall i: nat
      ensures HasDev(ds + {d}, i) <==> HasDev(ds, i) || i == d.devid
      ensures HasBlk(ds + {d}, i) <==> HasBlk(ds, i) || d.blkid == Some(i)
    {
      assert d in ds + {d};
      if HasDev(ds, i) {
        var e :| e in ds && e.devid == i;
        assert e in ds + {d};
      }
      if HasBlk(ds, i) {
        var e :| e in ds && e.blkid == Some(i);
        assert e in ds + {d};
      }
    }
    forall e | e in ds
      ensures e.devid != d.devid && (d.blkid.Some? ==> e.blkid != d.blkid)
    {
      assert HasDev(ds, e.devid);
      if e.blkid.Some? {
        assert HasBlk(ds, e.blkid.value);
      }
    }
  }

  /** Removing a device of the set clears exactly its ids. */
  lemma GoneDevice(dev: IdState, blk: IdState, ds: set<Device>, d: Device)
    requires Matches(dev, blk, ds) && Unique(ds) && d in ds
    ensures InRange(d)
    ensures var blk' := if d.blkid.Some? then Released(blk, d.blkid.value) else blk;
            Matches(Released(dev, d.devid), blk', ds - {d}) && Unique(ds - {d})
  {
    forall i: nat
      ensures HasDev(ds - {d}, i) <==> HasDev(ds, i) && i != d.devid
      ensures HasBlk(ds - {d}, i) <==> HasBlk(ds, i) && d.blkid != Some(i)
    {
      if HasDev(ds, i) && i != d.devid {
        var e :| e in ds && e.devid == i;
        assert e in ds - {d};
      }
      if HasBlk(ds, i) && d.blkid != Some(i) {
        var e :| e in ds && e.blkid == Some(i);
        assert e in ds - {d};
      }
    }
  }

  // ----- every step keeps the invariant -----

  /** Replacing the phase of one client leaves the rest of the domain as it was. */
  lemma PhaseStep(s: Domain, c: nat, phase: Phase)
    requires Inv(s) && c in s.clients && Active(s.clients[c])
    requires ClientOk(s, s.clients[c].(phase := phase)) && !phase.Committed?
    ensures Inv(With(s, c, phase))
  {
    hide Matches, Unique, AttemptOk, ClientOk;
    var s' := With(s, c, phase);
    forall x | x in s'.clients
      ensures ClientOk(s', s'.clients[x])
    {
      SameStore(s, s', s'.clients[x]);
      if x != c {
        assert ClientOk(s, s.clients[x]);
      }
    }
    forall x, y | x in s'.clients && y in s'.clients && x != y
      ensures JobsApart(s'.clients[x], s'.clients[y])
    {
      assert JobsApart(s.clients[x], s.clients[y]);
    }
  }

  /** A client's consistency depends on the store and the live devices only. */
  lemma SameStore(s: Domain, s': Domain, c: Client)
    requires s.store == s'.store && s.live == s'.live
    ensures ClientOk(s, c) <==> ClientOk(s', c)
  {
    hide Matches, Unique;
  }

  lemma JoinStep(s: Domain, c: nat, job: Job, s': Domain)
    requires Inv(s) && Step(s, Join(c, job), s')
    ensures Inv(s')
  {
    hide Matches, Unique, AttemptOk;
    forall x | x in s'.clients
      ensures ClientOk(s', s'.clients[x])
    {
      if x != c {
        assert ClientOk(s, s.clients[x]);
        SameStore(s, s', s.clients[x]);
      }
    }
    forall x, y | x in s'.clients && y in s'.clients && x != y
      ensures JobsApart(s'.clients[x], s'.clients[y])
    {
      if x != c && y != c {
        assert JobsApart(s.clients[x], s.clients[y]);
      }
    }
  }

  lemma ReadBlkStep(s: Domain, c: nat, s': Domain)
    requires Inv(s) && Step(s, ReadBlk(c), s')
    ensures Inv(s')
  {
    hide Unique;
    var p, job := s.clients[c].phase, s.clients[c].job;
    var w := Attempt(p.dev, p.devVersion, Load(s.store.blkNode), s.store.blkNode.version, []);
    assert ClientOk(s, s.clients[c]);
    assert Planned(job, [], s.live) == s.live by {
      assert s.live + Elements([]) == s.live;
    }
    hide Matches;
    PhaseStep(s, c, Working(w));
  }

  lemma AssignStep(s: Domain, c: nat, s': Domain)
    requires Inv(s) && Step(s, Assign(c), s')
    ensures Inv(s')
  {
    hide Unique, Matches, AddOne, Apart;
    var w, disks := s.clients[c].phase.attempt, s.clients[c].job.disks;
    assert ClientOk(s, s.clients[c]);
    var disk := disks[|w.results|];
    var r := AddOne(w, disk);
    AddOneUsable(w, disk);
    if r.Some? {
      if w.devVersion == s.store.devNode.version && w.blkVersion == s.store.blkNode.version {
        AddOneMatches(w, disk, s.live);
      }
      assert AttemptOk(s, s.clients[c].job, r.value);
      PhaseStep(s, c, Working(r.value));
    } else {
      PhaseStep(s, c, Dropped);
    }
  }

  lemma ReleaseStep(s: Domain, c: nat, s': Domain)
    requires Inv(s) && Step(s, Release(c), s')
    ensures Inv(s')
  {
    hide Unique, Matches;
    var w, d := s.clients[c].phase.attempt, s.clients[c].job.device;
    assert ClientOk(s, s.clients[c]);
    var w' := ReleaseOne(w, d);
    if w.devVersion == s.store.devNode.version && w.blkVersion == s.store.blkNode.version {
      GoneDevice(w.dev, w.blk, s.live, d);
    }
    assert AttemptOk(s, s.clients[c].job, w');
    PhaseStep(s, c, Working(w'));
  }

  lemma CommitStep(s: Domain, c: nat, s': Domain)
    requires Inv(s) && Step(s, CommitOk(c), s')
    ensures Inv(s')
  {
    hide Unique, Matches, Load, Apart;
    var client := s.clients[c];
    var w := client.phase.attempt;
    assert ClientOk(s, client);
    assert s'.live == Planned(client.job, w.results, s.live);
    LoadWritten(s.store, w);
    forall x | x in s'.clients
      ensures ClientOk(s', s'.clients[x])
    {
      if x != c {
        assert ClientOk(s, s.clients[x]);
        // reads made before this commit are out of date
        StaleClient(s, s', s.clients[x]);
      }
    }
    forall x, y | x in s'.clients && y in s'.clients && x != y
      ensures JobsApart(s'.clients[x], s'.clients[y])
    {
      assert JobsApart(s.clients[x], s.clients[y]);
    }
    forall x | x in s'.clients && Active(s'.clients[x]) && s'.clients[x].job.Remove?
      ensures s'.clients[x].job.device in s'.live
    {
      assert JobsApart(s.clients[x], s.clients[c]);
    }
  }

  lemma StaleClient(s: Domain, s': Domain, c: Client)
    requires ClientOk(s, c)
    requires s'.store.devNode.version > s.store.devNode.version && s'.store.blkNode.version > s.store.blkNode.version
    ensures ClientOk(s', c)
  {
    hide Matches, Unique, Load, Apart;
  }

  lemma StepInv(s: Domain, e: Event, s': Domain)
    requires Inv(s) && Step(s, e, s')
    ensures Inv(s')
  {
    hide Inv, Matches, Unique;
    match e
    case Join(c, job) => JoinStep(s, c, job, s');
    case ReadDev(c) => ReadDevStep(s, c, s');
    case ReadBlk(c) => ReadBlkStep(s, c, s');
    case Assign(c) => AssignStep(s, c, s');
    case Release(c) => ReleaseStep(s, c, s');
    case Drop(c) => PhaseStep(s, c, Dropped);
    case CommitOk(c) => CommitStep(s, c, s');
    case CommitAgain(c) => PhaseStep(s, c, Begun);
  }

  lemma ReadDevStep(s: Domain, c: nat, s': Domain)
    requires Inv(s) && Step(s, ReadDev(c), s')
    ensures Inv(s')
  {
    assert Usable(Load(s.store.devNode));
    hide Matches, Unique, Load;
    PhaseStep(s, c, DevRead(Load(s.store.devNode), s.store.devNode.version));
  }

  /** Adding all remaining devices at once, as the object does, is a run of single steps of the client. */
  lemma {:induction false} AddAllIsAssigned(s: Domain, c: nat, w: Attempt, disks: seq<bool>)
    returns (states: seq<Domain>)
    requires c in s.clients && s.clients[c] == Client(Add(disks), Working(w)) && Usable(w.dev) && Usable(w.blk)
    requires |w.results| <= |disks| && AddAll(w, disks[|w.results|..]).Some?
    ensures |states| == |disks| - |w.results| + 1 && states[0] == s
    ensures forall i :: 0 <= i < |states| - 1 ==> Step(states[i], Assign(c), states[i + 1])
    ensures var w' := AddAll(w, disks[|w.results|..]).value;
            states[|states| - 1] == With(s, c, Working(w')) && |w'.results| == |disks|
    decreases |disks| - |w.results|
  {
    hide AddOne;
    var n := |w.results|;
    if n == |disks| {
      assert s.clients[c := s.clients[c]] == s.clients;
      states := [s];
    } else {
      AddOneUsable(w, disks[n]);
      assert disks[n..][1..] == disks[n + 1..];
      var w1 := AddOne(w, disks[n]).value;
      var s1 := With(s, c, Working(w1));
      var rest := AddAllIsAssigned(s1, c, w1, disks);
      assert forall p :: With(s1, c, p) == With(s, c, p) by {
        assert forall p :: s1.clients[c := s1.clients[c].(phase := p)] == s.clients[c := s.clients[c].(phase := p)];
      }
      states := [s] + rest;
    }
  }

  /** The first device of a domain whose allocators have not been stored, or not in a readable form, gets device id
      0, and if it is a disk, block index 0. */
  lemma FirstIds(dev: Node, blk: Node, disk: bool)
    requires dev.value.None? || |dev.value.value| != 516
    requires blk.value.None? || |blk.value.value| != 516
    ensures WellFormed(Load(dev)) && WellFormed(Load(blk))
    ensures var w := AddOne(Attempt(Load(dev), dev.version, Load(blk), blk.version, []), disk);
            w.Some? && w.value.results == [Device(0, if disk then Some(0) else None)]
  {
    AllocatesFirstFree(Load(dev));
    AllocatesFirstFree(Load(blk));
    hide Allocated;
    assert Allocated(Load(dev)).1 == Some(0) && Allocated(Load(blk)).1 == Some(0) by {
      assert TakenBefore(Load(dev), 0) && TakenBefore(Load(blk), 0);
    }
  }

  // ----- whole runs -----

  /** A run from an empty domain: the states before and after each event. */
  ghost predicate Run(states: seq<Domain>, events: seq<Event>) {
    && |states| == |events| + 1 && Init(states[0])
    && forall i :: 0 <= i < |events| ==> Step(states[i], events[i], states[i + 1])
  }

  lemma {:induction false} RunInv(states: seq<Domain>, events: seq<Event>, n: nat)
    requires Run(states, events) && n < |states|
    ensures Inv(states[n])
  {
    hide Inv, Init, Step;
    if n == 0 {
      InitInv(states[0]);
    } else {
      RunInv(states, events, n - 1);
      StepInv(states[n - 1], events[n - 1], states[n]);
    }
  }

  /** However additions, removals, refusals and retries interleave: live devices have different device ids and
      different block indexes, and the committed bitmaps are exactly the ids of the live devices. */
  lemma CommittedIdsAreLive(states: seq<Domain>, events: seq<Event>, n: nat)
    requires Run(states, events) && n < |states|
    ensures Unique(states[n].live)
    ensures Matches(Load(states[n].store.devNode), Load(states[n].store.blkNode), states[n].live)
  {
    RunInv(states, events, n);
  }

  /** What a successful addition returns are devices nobody had before, all live from then on; none of them
      stems from an attempt the store refused. */
  lemma AddedDevicesAreNew(states: seq<Domain>, events: seq<Event>, n: nat, c: nat, k: nat)
    requires Run(states, events) && n < |events| && events[n] == CommitOk(c)
    requires c in states[n].clients && states[n].clients[c].job.Add?
    ensures c in states[n + 1].clients && states[n + 1].clients[c].phase.Committed?
    ensures var results := states[n + 1].clients[c].phase.results;
            && |results| == |states[n].clients[c].job.disks|
            && (k < |results| ==>
                  && results[k] !in states[n].live && results[k] in states[n + 1].live
                  && (results[k].blkid.Some? <==> states[n].clients[c].job.disks[k]))
  {
    RunInv(states, events, n);
    var s := states[n];
    assert Step(s, events[n], states[n + 1]);
    assert ClientOk(s, s.clients[c]);
    hide Matches, Unique, Load;
  }

  /** Live disks of a domain have different names and different virtual-device numbers. */
  lemma LiveDisksDistinct(states: seq<Domain>, events: seq<Event>, n: nat, d: Device, e: Device)
    requires Run(states, events) && n < |states|
    requires d in states[n].live && e in states[n].live && d != e && d.blkid.Some? && e.blkid.Some?
    ensures DiskName(d.blkid.value) != DiskName(e.blkid.value)
    ensures VirtualDevice(d.blkid.value) != VirtualDevice(e.blkid.value)
  {
    CommittedIdsAreLive(states, events, n);
    hide Matches, Step;
    assert d.blkid != e.blkid;
    if DiskName(d.blkid.value) == DiskName(e.blkid.value) {
      NamesDistinct(d.blkid.value, e.blkid.value);
    }
    DeviceRangesApart(d.blkid.value, e.blkid.value);
  }
}
