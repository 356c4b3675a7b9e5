/**
 How a driver that is installed registers its discovery parameters, and what that makes of the device:
 a responder of the discovery protocol, on a bus on which it is found.
 */
module Registration {
  import opened Bytes
  import opened Uids
  import opened Packets
  import opened Responders
  import opened ResponderRuns
  import opened DiscoveryExact
  import opened Wired
  import D = Discovery
  import Parameters

  /** A registration: the definition is set only if the parameter could be added. */
  function Define(r: Responder, pid: Word, added: (Parameters.Table, bool), def: Definition): Responder {
    var u := r.(table := added.0);
    if added.1 then u.(definitions := u.definitions[pid := def]) else u
  }

  function RegisterUniqueBranch(r: Responder): Responder {
    Define(r, PID_DISC_UNIQUE_BRANCH,
           Parameters.Add(r.table, PID_DISC_UNIQUE_BRANCH, Parameters.Static, None, 0, true), BRANCH_DEFINITION)
  }

  /** Registers muting, or un-muting, whose counterpart may have been registered before. */
  function RegisterFlag(r: Responder, pid: Word, other: Word): Responder
    requires pid > 0 && other > 0 && Parameters.IsMemory(r.table, Parameters.DataOf(r.table, other), 1)
  {
    Define(r, pid, Parameters.AddFlag(r.table, pid, other, true), FLAG_DEFINITION)
  }

  /** Are there no discovery parameters yet, and slots for three? */
  ghost predicate CanRegister(r: Responder) {
    && Responders.Valid(r)
    && Parameters.Find(r.table.entries, PID_DISC_UNIQUE_BRANCH, 0) == None
    && Parameters.Find(r.table.entries, PID_DISC_MUTE, 0) == None
    && Parameters.Find(r.table.entries, PID_DISC_UN_MUTE, 0) == None
    && exists i, j, k :: 0 <= i < j < k < |r.table.entries| &&
         IsUnused(r.table, i) && IsUnused(r.table, j) && IsUnused(r.table, k)
  }

  predicate IsUnused(t: Parameters.Table, i: nat)
    requires i < |t.entries|
  {
    t.entries[i].pid == 0
  }

  lemma {:induction false} UniqueBranchIsRegistered(r: Responder)
    requires CanRegister(r)
    ensures var u := RegisterUniqueBranch(r);
            && u == r.(table := u.table, definitions := r.definitions[PID_DISC_UNIQUE_BRANCH := BRANCH_DEFINITION])
            && u.table.heap == r.table.heap
            && Parameters.Find(u.table.entries, PID_DISC_UNIQUE_BRANCH, 0).Some?
            && Parameters.Find(u.table.entries, PID_DISC_MUTE, 0) == None
            && Parameters.Find(u.table.entries, PID_DISC_UN_MUTE, 0) == None
            && exists i, j :: 0 <= i < j < |u.table.entries| &&
                 u.table.entries[i].pid == 0 && u.table.entries[j].pid == 0
  {
    var i, j, k :| 0 <= i < j < k < |r.table.entries| && IsUnused(r.table, i) && IsUnused(r.table, j) &&
        IsUnused(r.table, k);
    var u, at := RegisterUniqueBranch(r), Parameters.FindSlot(r.table.entries, PID_DISC_UNIQUE_BRANCH, 0).value;
    Parameters.FindNew(r.table.entries, PID_DISC_UNIQUE_BRANCH, u.table.entries[at], 0);
    Parameters.AddKeepsFind(r.table, PID_DISC_UNIQUE_BRANCH, Parameters.Static, None, 0, true, PID_DISC_MUTE);
    Parameters.AddKeepsFind(r.table, PID_DISC_UNIQUE_BRANCH, Parameters.Static, None, 0, true, PID_DISC_UN_MUTE);
    assert u.table.entries[j].pid == 0 && u.table.entries[k].pid == 0;
  }

  lemma {:induction false} FlagsAreRegistered(r: Responder)
    requires Responders.Valid(r) && Parameters.Find(r.table.entries, PID_DISC_UNIQUE_BRANCH, 0).Some?
    requires IsDefined(r.definitions, PID_DISC_UNIQUE_BRANCH, BRANCH_DEFINITION)
    requires Parameters.Find(r.table.entries, PID_DISC_MUTE, 0) == None &&
             Parameters.Find(r.table.entries, PID_DISC_UN_MUTE, 0) == None
    requires exists i, j :: 0 <= i < j < |r.table.entries| && r.table.entries[i].pid == 0 && r.table.entries[j].pid == 0
    ensures var u := RegisterFlag(r, PID_DISC_MUTE, PID_DISC_UN_MUTE);
            && Parameters.IsMemory(u.table, Parameters.DataOf(u.table, PID_DISC_MUTE), 1)
            && var v := RegisterFlag(u, PID_DISC_UN_MUTE, PID_DISC_MUTE);
               IsRegistered(v, |r.table.heap|) && v.table.heap == r.table.heap + [[0]]
               && v == r.(table := v.table, definitions := v.definitions)
  {
    var u := RegisterFlag(r, PID_DISC_MUTE, PID_DISC_UN_MUTE);
    Parameters.FlagIsShared(r.table, PID_DISC_MUTE, PID_DISC_UN_MUTE);
    Parameters.AddKeepsFind(r.table, PID_DISC_MUTE, Parameters.Dynamic, None, 1, true, PID_DISC_UNIQUE_BRANCH);
    Parameters.AddKeepsFind(u.table, PID_DISC_UN_MUTE, Parameters.Static, Parameters.DataOf(u.table, PID_DISC_MUTE),
        1, true, PID_DISC_UNIQUE_BRANCH);
  }

  /** The registration of another parameter. `memory` says if there is some for its data. */
  datatype Registration = Registration(
    pid: Word,
    kind: Parameters.Kind,
    data: Option<nat>,
    size: nat,
    memory: bool,
    definition: Definition
  )

  /** Is it none of the discovery parameters, and are its data in memory? */
  predicate IsOther(t: Parameters.Table, g: Registration) {
    g.pid > 0 && g.pid != PID_DISC_UNIQUE_BRANCH && g.pid != PID_DISC_MUTE && g.pid != PID_DISC_UN_MUTE &&
    Parameters.IsMemory(t, g.data, g.size)
  }

  predicate AreOther(t: Parameters.Table, others: seq<Registration>) {
    forall i :: 0 <= i < |others| ==> IsOther(t, others[i])
  }

  function Register(r: Responder, g: Registration): Responder
    requires IsOther(r.table, g)
  {
    Define(r, g.pid, Parameters.Add(r.table, g.pid, g.kind, g.data, g.size, g.memory), g.definition)
  }

  /** What was in memory stays as it is. */
  predicate KeepsMemory(t: Parameters.Table, u: Parameters.Table) {
    |t.heap| <= |u.heap| && forall c :: 0 <= c < |t.heap| ==> u.heap[c] == t.heap[c]
  }

  lemma {:induction false} AddKeepsMemory(t: Parameters.Table, g: Registration, pid: Word)
    requires IsOther(t, g) && pid > 0 && pid != g.pid
    ensures var u := Parameters.Add(t, g.pid, g.kind, g.data, g.size, g.memory).0;
            && KeepsMemory(t, u) && Parameters.Find(u.entries, pid, 0) == Parameters.Find(t.entries, pid, 0)
            && Parameters.DataOf(u, pid) == Parameters.DataOf(t, pid)
            && Parameters.SizeOf(u, pid) == Parameters.SizeOf(t, pid)
  {
    Parameters.AddKeepsFind(t, g.pid, g.kind, g.data, g.size, g.memory, pid);
  }

  lemma {:induction false} RegisteredHasFlag(r: Responder, cell: nat)
    requires IsRegistered(r, cell)
    ensures Parameters.HasData(r.table, PID_DISC_MUTE)
    ensures IsMuted(r.table) <==> r.table.heap[cell][0] != 0
  {
  }

  /** Registering another parameter changes nothing about the discovery parameters. */
  lemma {:induction false} RegisterKeepsRegistered(r: Responder, cell: nat, g: Registration)
    requires IsRegistered(r, cell) && IsOther(r.table, g)
    ensures var u := Register(r, g);
            && IsRegistered(u, cell) && u.table.heap[cell] == r.table.heap[cell] && KeepsMemory(r.table, u.table)
            && u == r.(table := u.table, definitions := u.definitions)
  {
    AddKeepsMemory(r.table, g, PID_DISC_UNIQUE_BRANCH);
    AddKeepsMemory(r.table, g, PID_DISC_MUTE);
    AddKeepsMemory(r.table, g, PID_DISC_UN_MUTE);
  }

  lemma {:induction false} OthersStay(t: Parameters.Table, u: Parameters.Table, others: seq<Registration>, i: nat)
    requires AreOther(t, others) && KeepsMemory(t, u) && i < |others|
    ensures IsOther(u, others[i])
  {
    assert IsOther(t, others[i]);
  }

  /** Any number of other parameters, in any order. */
  ghost function RegisterAll(r: Responder, cell: nat, others: seq<Registration>): (u: Responder)
    requires IsRegistered(r, cell) && AreOther(r.table, others)
    ensures IsRegistered(u, cell) && u.table.heap[cell] == r.table.heap[cell] && KeepsMemory(r.table, u.table)
    ensures u == r.(table := u.table, definitions := u.definitions)
  {
    if others == [] then r
    else
      var before := RegisterAll(r, cell, others[..|others| - 1]);
      OthersStay(r.table, before.table, others, |others| - 1);
      RegisterKeepsRegistered(before, cell, others[|others| - 1]);
      Register(before, others[|others| - 1])
  }

  /** The discovery parameters are registered in this order, with memory to be had. */
  ghost function RegisterDiscovery(r: Responder): (u: Responder)
    requires CanRegister(r)
    ensures IsRegistered(u, |r.table.heap|) && u.table.heap == r.table.heap + [[0]]
    ensures u == r.(table := u.table, definitions := u.definitions)
  {
    UniqueBranchIsRegistered(r);
    var branch := RegisterUniqueBranch(r);
    FlagsAreRegistered(branch);
    var mute := RegisterFlag(branch, PID_DISC_MUTE, PID_DISC_UN_MUTE);
    RegisterFlag(mute, PID_DISC_UN_MUTE, PID_DISC_MUTE)
  }

  /** Installing a driver: the discovery parameters first, and then any others. */
  ghost function Install(r: Responder, others: seq<Registration>): (u: Responder)
    requires CanRegister(r) && AreOther(r.table, others)
    ensures IsRegistered(u, |r.table.heap|) && u.uid == r.uid
    ensures Parameters.HasData(u.table, PID_DISC_MUTE) && !IsMuted(u.table)
  {
    var discovery := RegisterDiscovery(r);
    forall i | 0 <= i < |others|
      ensures IsOther(discovery.table, others[i])
    {
      OthersStay(r.table, discovery.table, others, i);
    }
    var u := RegisterAll(discovery, |r.table.heap|, others);
    RegisteredHasFlag(u, |r.table.heap|);
    u
  }

  // ---------- a bus of installed devices ----------

  /** Is the device at this address one on which a driver was installed? */
  ghost predicate IsInstalled(d: Device, a: Address) {
    exists base, others: seq<Registration> ::
      CanRegister(base) && AreOther(base.table, others) &&
      base.uid == FromValue(a) && d == Device(Install(base, others), |base.table.heap|)
  }

  lemma {:induction false} InstalledIsDevice(w: Wire, a: Address)
    requires a in w.devices && IsInstalled(w.devices[a], a) && !IsBroadcastAddress(a)
    ensures IsDevice(w, a)
  {
    ValueRoundTrip(a);
  }

  /** Devices that were just installed, whatever else they register, make a bus that meets what is assumed of one. */
  lemma {:induction false} InstalledWireIsWired(w: Wire)
    requires GetsOneOfThreeThrough(w)
    requires forall a :: a in w.devices ==> IsInstalled(w.devices[a], a) && !IsBroadcastAddress(a)
    ensures IsWired(w)
  {
    forall a | a in w.devices
      ensures IsDevice(w, a)
    {
      InstalledIsDevice(w, a);
    }
  }

  /**
   On a bus of installed drivers, even if it loses up to two of three equal requests or replies, discovery
   finds all that hear the first request, and nothing but their addresses.
   */
  lemma {:induction false} InstalledDevicesAreFound(w: Wire, root: D.Range)
    requires GetsOneOfThreeThrough(w) && D.IsRoot(root)
    requires forall a :: a in w.devices ==> IsInstalled(w.devices[a], a) && !IsBroadcastAddress(a)
    ensures IsWired(w)
    ensures var found := D.Search(BusOf(w), D.UN_MUTE_ALL, root).found;
            && Ascending(found)
            && (forall a :: a in found ==> a in w.devices)
            && (forall a :: a in w.devices && w.hears(D.UN_MUTE_ALL, a) ==> a in found)
            && ((forall a :: a in w.devices ==> w.hears(D.UN_MUTE_ALL, a)) ==> |found| == |w.devices|)
  {
    InstalledWireIsWired(w);
    EveryDeviceIsFound(w, root);
  }

  ghost function InstalledAt(base: Responder, others: seq<Registration>, a: Address): (d: Device)
    requires CanRegister(base) && AreOther(base.table, others)
    ensures IsRegistered(d.responder, d.cell) && d.responder.uid == FromValue(a)
  {
    Device(Install(base.(uid := FromValue(a)), others), |base.table.heap|)
  }

  /** Devices that were just installed, one at each address, on a wire that loses nothing. */
  ghost function InstalledWire(
      addresses: set<Address>, base: Responder, others: seq<Registration>, src: Uid, port: Byte): (w: Wire)
    requires CanRegister(base) && AreOther(base.table, others)
    ensures w.devices.Keys == addresses && forall log, a :: w.hears(log, a)
  {
    Wire(map a | a in addresses :: InstalledAt(base, others, a),
         src, port, log => 0, (log, a) => true, log => true, log => PREAMBLE_MAX, log => D.Invalid, log => D.NoReply,
         seq(BUFFER_SIZE, _ => 0))
  }

  lemma {:induction false} LossFreeWire(
      addresses: set<Address>, base: Responder, others: seq<Registration>, src: Uid, port: Byte)
    requires CanRegister(base) && AreOther(base.table, others) && port > 0
    requires forall a :: a in addresses ==> !IsBroadcastAddress(a)
    ensures IsWired(InstalledWire(addresses, base, others, src, port))
  {
    var w := InstalledWire(addresses, base, others, src, port);
    forall a | a in w.devices
      ensures IsDevice(w, a)
    {
      ValueRoundTrip(a);
    }
    LossFreeIsWired(w);
  }

  lemma {:induction false} AllThatHearAreFound(w: Wire, root: D.Range)
    requires IsWired(w) && D.IsRoot(root) && forall a :: a in w.devices ==> w.hears(D.UN_MUTE_ALL, a)
    ensures var found := D.Search(BusOf(w), D.UN_MUTE_ALL, root).found;
            Ascending(found) && (forall a :: a in found <==> a in w.devices) && |found| == |w.devices|
  {
    EveryDeviceIsFound(w, root);
  }

  /** On a wire without loss, discovery finds exactly the addresses at which drivers were installed. */
  lemma {:induction false} AllInstalledAreFound(
      addresses: set<Address>, base: Responder, others: seq<Registration>, src: Uid, port: Byte, root: D.Range)
    requires CanRegister(base) && AreOther(base.table, others) && port > 0
    requires D.IsRoot(root) && forall a :: a in addresses ==> !IsBroadcastAddress(a)
    ensures IsWired(InstalledWire(addresses, base, others, src, port))
    ensures var found := D.Search(BusOf(InstalledWire(addresses, base, others, src, port)), D.UN_MUTE_ALL, root).found;
            Ascending(found) && (forall a :: a in found <==> a in addresses) && |found| == |addresses|
  {
    LossFreeWire(addresses, base, others, src, port);
    AllThatHearAreFound(InstalledWire(addresses, base, others, src, port), root);
  }
}
