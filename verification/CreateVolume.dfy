/**
 CreateVolume requests around the name holder and the address allocator (pkg/driver/controller.go,
 pkg/driver/utils.go).

 A request takes the instance name, looks for the instance, and if there is none reserves an address and
 creates it.  Deferred calls give up the address and then the name on every exit.  Requests interleave at
 every critical section and at every call to the cloud, and may repeat the same name.
 */
module CreateVolume {
  import opened Ipv4
  import opened Wrappers
  import A = IPAllocator

  class InstanceNameHolder {
    var creatingInstanceNames: set<string>

    constructor ()
      ensures creatingInstanceNames == {}
    {
      creatingInstanceNames := {};
    }

    method SetCreating(name: string) returns (r: Result<()>)
      modifies this
      ensures r.Ok? <==> name !in old(creatingInstanceNames)
      ensures creatingInstanceNames == old(creatingInstanceNames) + {name}
    {
      if name in creatingInstanceNames {
        return Err("Instance is about to create in other Create request");
      }
      creatingInstanceNames := creatingInstanceNames + {name};
      return Ok(());
    }

    method UnsetCreating(name: string)
      modifies this
      ensures creatingInstanceNames == old(creatingInstanceNames) - {name}
    {
      creatingInstanceNames := creatingInstanceNames - {name};
    }
  }

  // ---------- the system ----------

  /**
   Where a request is: before SetCreating; holding the name; knowing whether the instance exists; with the
   addresses of all instances read; with an address reserved; with the instance created; on the way out, first
   to release the address, then to give up the name.
   */
  datatype Phase =
    | Started
    | Named
    | Checked(found: bool)
    | Listed(addresses: set<IP>)
    | Reserved
    | Created
    | Exiting
    | Released

  datatype Call = Call(name: string, phase: Phase, ip: Option<IP>)

  /** An instance; fromAllocator tells whether its address came from the allocator or from the cloud. */
  datatype Instance = Instance(address: IP, fromAllocator: bool)

  /** names is the content of the name holder, pending that of the allocator. */
  datatype State = State(names: set<string>, pending: set<IP>, calls: map<nat, Call>, instances: map<string, Instance>)

  datatype Event =
    | Arrive(id: nat, name: string)
    | SetCreating(id: nat)
    | GetNas(id: nat)
    | ListNas(id: nat)
    | Pick(id: nat, ip: IP)
    | CreateNas(id: nat, given: IP)     // given is the address that the cloud chooses when none is asked for
    | Exit(id: nat)                     // any return, with or without an error
    | ReleaseIP(id: nat)
    | UnsetCreating(id: nat)
    | DeleteNas(name: string)           // a DeleteVolume request
    | OtherNas(name: string, instance: Instance)

  ghost function Addresses(s: State): (a: set<IP>) {
    set n | n in s.instances :: s.instances[n].address
  }

  ghost predicate Enabled(s: State, e: Event) {
    match e
    case Arrive(id, name) => id !in s.calls
    case SetCreating(id) => id in s.calls && s.calls[id].phase.Started?
    case GetNas(id) => id in s.calls && s.calls[id].phase.Named?
    case ListNas(id) => id in s.calls && s.calls[id].phase == Checked(false)
    case Pick(id, ip) =>
      id in s.calls && s.calls[id].phase.Listed? && ip !in s.calls[id].phase.addresses && ip !in s.pending
    case CreateNas(id, given) => id in s.calls && (s.calls[id].phase.Reserved? || s.calls[id].phase == Checked(false))
    case Exit(id) => id in s.calls && !s.calls[id].phase.Started? && !s.calls[id].phase.Exiting? && !s.calls[id].phase.Released?
    case ReleaseIP(id) => id in s.calls && s.calls[id].phase.Exiting?
    case UnsetCreating(id) => id in s.calls && s.calls[id].phase.Released?
    case DeleteNas(name) => true
    case OtherNas(name, instance) => name !in s.instances
  }

  ghost function Moved(s: State, id: nat, phase: Phase): (t: State)
    requires id in s.calls
  {
    s.(calls := s.calls[id := s.calls[id].(phase := phase)])
  }

  ghost function Next(s: State, e: Event): (t: State)
    requires Enabled(s, e)
  {
    match e
    case Arrive(id, name) => s.(calls := s.calls[id := Call(name, Started, None)])
    case SetCreating(id) =>
      if s.calls[id].name in s.names then s.(calls := s.calls - {id})
      else Moved(s, id, Named).(names := s.names + {s.calls[id].name})
    case GetNas(id) => Moved(s, id, Checked(s.calls[id].name in s.instances))
    case ListNas(id) => Moved(s, id, Listed(Addresses(s)))
    case Pick(id, ip) =>
      s.(calls := s.calls[id := Call(s.calls[id].name, Reserved, Some(ip))], pending := s.pending + {ip})
    case CreateNas(id, given) =>
      var c := s.calls[id];
      var instance := if c.ip.Some? then Instance(c.ip.value, true) else Instance(given, false);
      Moved(s, id, Created).(instances := s.instances[c.name := instance])
    case Exit(id) => Moved(s, id, Exiting)
    case ReleaseIP(id) =>
      var c := s.calls[id];
      s.(calls := s.calls[id := Call(c.name, Released, None)],
         pending := if c.ip.Some? then s.pending - {c.ip.value} else s.pending)
    case UnsetCreating(id) => s.(calls := s.calls - {id}, names := s.names - {s.calls[id].name})
    case DeleteNas(name) => s.(instances := s.instances - {name})
    case OtherNas(name, instance) => s.(instances := s.instances[name := instance])
  }

  /** Nobody else creates an instance under a name that a request is creating, or with an allocator's address. */
  ghost predicate Assumed(s: State, e: Event) {
    e.OtherNas? ==> !e.instance.fromAllocator && forall id :: id in s.calls ==> s.calls[id].name != e.name
  }

  // ---------- names and reservations ----------

  /** The request is past SetCreating. */
  predicate Holds(c: Call) {
    !c.phase.Started?
  }

  predicate MayCreate(c: Call) {
    c.phase == Checked(false) || c.phase.Listed? || c.phase.Reserved?
  }

  /** An address is kept from its reservation until its release. */
  ghost predicate CallInv(s: State, c: Call) {
    && (Holds(c) ==> c.name in s.names)
    && (c.ip.Some? ==> c.ip.value in s.pending && (c.phase.Reserved? || c.phase.Created? || c.phase.Exiting?))
    && (c.phase.Reserved? ==> c.ip.Some?)
    && (MayCreate(c) ==> c.name !in s.instances)
  }

  /** No two requests past SetCreating have the same name. */
  ghost predicate NamesDistinct(s: State) {
    forall i, j :: i in s.calls && j in s.calls && Holds(s.calls[i]) && Holds(s.calls[j]) && s.calls[i].name == s.calls[j].name ==> i == j
  }

  /** No two requests have the same address reserved. */
  ghost predicate ReservationsDistinct(s: State) {
    forall i, j :: i in s.calls && j in s.calls && s.calls[i].ip.Some? && s.calls[i].ip == s.calls[j].ip ==> i == j
  }

  ghost predicate Inv(s: State) {
    && (forall id :: id in s.calls ==> CallInv(s, s.calls[id]))
    && NamesDistinct(s)
    && ReservationsDistinct(s)
  }

  lemma StepKeepsCalls(s: State, e: Event)
    requires Inv(s) && Enabled(s, e) && Assumed(s, e)
    ensures forall id :: id in Next(s, e).calls ==> CallInv(Next(s, e), Next(s, e).calls[id])
  {
    var t := Next(s, e);
    forall id | id in t.calls
      ensures CallInv(t, t.calls[id])
    {
      assert id in s.calls ==> CallInv(s, s.calls[id]);
    }
  }

  lemma StepKeepsNames(s: State, e: Event)
    requires Inv(s) && Enabled(s, e)
    ensures NamesDistinct(Next(s, e))
  {
    assert forall id :: id in s.calls ==> CallInv(s, s.calls[id]);
  }

  lemma StepKeepsReservations(s: State, e: Event)
    requires Inv(s) && Enabled(s, e)
    ensures ReservationsDistinct(Next(s, e))
  {
    assert forall id :: id in s.calls ==> CallInv(s, s.calls[id]);
  }

  lemma StepKeepsInv(s: State, e: Event)
    requires Inv(s) && Enabled(s, e) && Assumed(s, e)
    ensures Inv(Next(s, e))
  {
    StepKeepsCalls(s, e);
    StepKeepsNames(s, e);
    StepKeepsReservations(s, e);
  }

  /** Every name and every address that is held belongs to a request in flight. */
  ghost predicate NoLeak(s: State) {
    && (forall n :: n in s.names ==> exists id :: HoldsName(s, id, n))
    && (forall ip :: ip in s.pending ==> exists id :: HoldsAddress(s, id, ip))
  }

  ghost predicate HoldsName(s: State, id: nat, n: string) {
    id in s.calls && Holds(s.calls[id]) && s.calls[id].name == n
  }

  ghost predicate HoldsAddress(s: State, id: nat, ip: IP) {
    id in s.calls && s.calls[id].ip == Some(ip)
  }

  /** A held name keeps its request, and a new one belongs to the request that took it. */
  lemma StepLeaksNoName(s: State, e: Event, n: string, id: nat)
    requires Inv(s) && Enabled(s, e) && n in Next(s, e).names
    requires if n in s.names then HoldsName(s, id, n) else e == SetCreating(id)
    ensures HoldsName(Next(s, e), id, n)
  {
  }

  lemma StepLeaksNoAddress(s: State, e: Event, ip: IP, id: nat)
    requires Inv(s) && Enabled(s, e) && ip in Next(s, e).pending
    requires if ip in s.pending then HoldsAddress(s, id, ip) else e == Pick(id, ip)
    ensures HoldsAddress(Next(s, e), id, ip)
  {
    assert CallInv(s, s.calls[id]);
  }

  lemma StepLeaksNothing(s: State, e: Event)
    requires Inv(s) && NoLeak(s) && Enabled(s, e)
    ensures NoLeak(Next(s, e))
  {
    forall n | n in Next(s, e).names
      ensures exists id :: HoldsName(Next(s, e), id, n)
    {
      var id: nat :| if n in s.names then HoldsName(s, id, n) else e == SetCreating(id);
      StepLeaksNoName(s, e, n, id);
    }
    forall ip | ip in Next(s, e).pending
      ensures exists id :: HoldsAddress(Next(s, e), id, ip)
    {
      var id: nat :| if ip in s.pending then HoldsAddress(s, id, ip) else e == Pick(id, ip);
      StepLeaksNoAddress(s, e, ip, id);
    }
  }

  // ---------- addresses of instances ----------

  /** No two instances with an address from the allocator share it. */
  ghost predicate InstancesDistinct(s: State) {
    forall m, n :: m in s.instances && n in s.instances && Clash(s.instances[m], s.instances[n]) ==> m == n
  }

  /** And no reserved address is in use yet. */
  ghost predicate AddressesDistinct(s: State) {
    && InstancesDistinct(s)
    && (forall id :: id in s.calls && s.calls[id].phase.Reserved? ==> Unused(s, s.calls[id].ip))
  }

  ghost predicate Clash(a: Instance, b: Instance) {
    a.fromAllocator && b.fromAllocator && a.address == b.address
  }

  ghost predicate Unused(s: State, ip: Option<IP>) {
    forall n :: n in s.instances && s.instances[n].fromAllocator ==> Some(s.instances[n].address) != ip
  }

  /** The list that the request has read still shows every address that is in use and no longer pending. */
  ghost predicate ListIsCurrent(s: State, id: nat) {
    id in s.calls && s.calls[id].phase.Listed? ==>
      forall n :: n in s.instances && s.instances[n].fromAllocator ==>
        s.instances[n].address in s.calls[id].phase.addresses || s.instances[n].address in s.pending
  }

  ghost predicate UpToDate(s: State, e: Event) {
    e.Pick? ==> ListIsCurrent(s, e.id)
  }

  /** So it is when listing and picking are one step. */
  lemma ListThenPickIsUpToDate(s: State, id: nat, ip: IP)
    requires Enabled(s, ListNas(id))
    ensures UpToDate(Next(s, ListNas(id)), Pick(id, ip))
  {
  }

  /** The request picks the address and creates its instance with it. */
  ghost function PickedAndCreated(s: State, id: nat, ip: IP): (t: State)
    requires Enabled(s, Pick(id, ip))
  {
    Next(Next(s, Pick(id, ip)), CreateNas(id, ip))
  }

  /** The new instance shares its address exactly if another one uses the address that was picked. */
  lemma PickIsSafeIff(s: State, id: nat, ip: IP)
    requires Inv(s) && InstancesDistinct(s) && Enabled(s, Pick(id, ip))
    ensures InstancesDistinct(PickedAndCreated(s, id, ip)) <==> Unused(s, Some(ip))
  {
    var name, t := s.calls[id].name, PickedAndCreated(s, id, ip);
    assert CallInv(s, s.calls[id]);
    assert t.instances == s.instances[name := Instance(ip, true)];
    if n :| n in s.instances && s.instances[n].fromAllocator && s.instances[n].address == ip {
      assert Clash(t.instances[n], t.instances[name]) && n != name;
    }
  }

  /** Whatever address the request may pick, no two instances come to share one, if and only if its list is current. */
  lemma PickKeepsAddressesIff(s: State, id: nat)
    requires Inv(s) && InstancesDistinct(s) && id in s.calls && s.calls[id].phase.Listed?
    ensures (forall ip :: Enabled(s, Pick(id, ip)) ==> InstancesDistinct(PickedAndCreated(s, id, ip))) <==> ListIsCurrent(s, id)
  {
    forall ip | Enabled(s, Pick(id, ip))
      ensures InstancesDistinct(PickedAndCreated(s, id, ip)) <==> Unused(s, Some(ip))
    {
      PickIsSafeIff(s, id, ip);
    }
    if n :| n in s.instances && s.instances[n].fromAllocator
            && s.instances[n].address !in s.calls[id].phase.addresses && s.instances[n].address !in s.pending
    {
      assert Enabled(s, Pick(id, s.instances[n].address)) && !Unused(s, Some(s.instances[n].address));
    }
  }

  lemma StepKeepsAddresses(s: State, e: Event)
    requires Inv(s) && AddressesDistinct(s) && Enabled(s, e) && Assumed(s, e) && UpToDate(s, e)
    ensures AddressesDistinct(Next(s, e))
  {
    var t := Next(s, e);
    if e.CreateNas? {
      assert CallInv(s, s.calls[e.id]);
    }
    forall id | id in t.calls && t.calls[id].phase.Reserved?
      ensures Unused(t, t.calls[id].ip)
    {
      assert id in s.calls && CallInv(s, s.calls[id]);
    }
  }

  // ---------- the objects take these steps ----------

  /** SetCreating of the name holder is the step of the same name. */
  method TakeName(holder: InstanceNameHolder, name: string, ghost s: State, ghost id: nat) returns (r: Result<()>)
    requires Enabled(s, SetCreating(id)) && s.calls[id].name == name && holder.creatingInstanceNames == s.names
    modifies holder
    ensures holder.creatingInstanceNames == Next(s, SetCreating(id)).names
    ensures r.Ok? <==> id in Next(s, SetCreating(id)).calls
  {
    r := holder.SetCreating(name);
  }

  /** A successful reservation is a pick, of the least address that could be picked; a failed one means that none could. */
  method ReserveIP(allocator: A.IPAllocator, cidr: Option<IPNet>, reserved: set<IP>, ghost s: State, ghost id: nat)
    returns (r: Result<IP>)
    requires id in s.calls && s.calls[id].phase == Listed(reserved) && allocator.pendingIPs == s.pending
    modifies allocator
    ensures r.Ok? ==> Enabled(s, Pick(id, r.value)) && allocator.pendingIPs == Next(s, Pick(id, r.value)).pending
    ensures r.Ok? ==> cidr.Some? && Lo(cidr.value) <= Val(r.value) <= Hi(cidr.value)
    ensures r.Ok? ==> forall ip: IP :: Lo(cidr.value) <= Val(ip) < Val(r.value) ==> !Enabled(s, Pick(id, ip))
    ensures r.Err? ==> allocator.pendingIPs == s.pending
    ensures r.Err? && cidr.Some? ==> forall ip: IP :: Lo(cidr.value) <= Val(ip) <= Hi(cidr.value) ==> !Enabled(s, Pick(id, ip))
  {
    r := allocator.GetUnreservedIP(cidr, reserved);
  }

  /** The deferred calls, the last one first, are the steps ReleaseIP and UnsetCreating. */
  method Leave(holder: InstanceNameHolder, allocator: A.IPAllocator, name: string, ip: Option<IP>, ghost s: State, ghost id: nat)
    requires Enabled(s, ReleaseIP(id)) && s.calls[id].name == name && s.calls[id].ip == ip
    requires holder.creatingInstanceNames == s.names && allocator.pendingIPs == s.pending
    modifies holder, allocator
    ensures var t := Next(Next(s, ReleaseIP(id)), UnsetCreating(id));
            holder.creatingInstanceNames == t.names && allocator.pendingIPs == t.pending && id !in t.calls
  {
    allocator.ReleaseIP(ip);
    holder.UnsetCreating(name);
  }

  // ---------- runs ----------

  /** The controller starts with nothing held, over any instances. */
  ghost predicate Init(s: State) {
    s.names == {} && s.pending == {} && s.calls == map[]
  }

  ghost predicate IsRun(run: seq<State>, events: seq<Event>) {
    && |run| == |events| + 1 && Init(run[0])
    && forall i :: 0 <= i < |events| ==>
         Enabled(run[i], events[i]) && Assumed(run[i], events[i]) && run[i + 1] == Next(run[i], events[i])
  }

  lemma {:induction false} RunKeepsInv(run: seq<State>, events: seq<Event>, k: nat)
    requires IsRun(run, events) && k < |run|
    ensures Inv(run[k]) && NoLeak(run[k])
  {
    if k > 0 {
      RunKeepsInv(run, events, k - 1);
      StepKeepsInv(run[k - 1], events[k - 1]);
      StepLeaksNothing(run[k - 1], events[k - 1]);
    }
  }

  /**
   In every run, repeated requests included: one request per name is past SetCreating, CreateNasInstance is
   never issued for a name that exists, and reservations in flight are pairwise distinct.
   */
  lemma CreateOnce(run: seq<State>, events: seq<Event>, k: nat)
    requires IsRun(run, events) && k < |events|
    ensures NamesDistinct(run[k]) && ReservationsDistinct(run[k])
    ensures forall i, j :: i in run[k].calls && j in run[k].calls && run[k].calls[i].name == run[k].calls[j].name ==>
              i == j || run[k].calls[i].phase.Started? || run[k].calls[j].phase.Started?
    ensures forall i, j :: i in run[k].calls && j in run[k].calls && run[k].calls[i].ip == run[k].calls[j].ip ==>
              i == j || run[k].calls[i].ip.None?
    ensures events[k].CreateNas? ==> run[k].calls[events[k].id].name !in run[k].instances
  {
    RunKeepsInv(run, events, k);
    if events[k].CreateNas? {
      assert CallInv(run[k], run[k].calls[events[k].id]);
    }
  }

  /** A request keeps its name until its own UnsetCreating, and its address until its own ReleaseIP. */
  lemma StepKeepsHolds(s: State, e: Event, j: nat)
    requires Inv(s) && Enabled(s, e) && Assumed(s, e) && j in s.calls && Holds(s.calls[j]) && e != UnsetCreating(j)
    ensures HoldsName(Next(s, e), j, s.calls[j].name) && s.calls[j].name in Next(s, e).names
    ensures s.calls[j].ip.Some? && e != ReleaseIP(j) ==>
              HoldsAddress(Next(s, e), j, s.calls[j].ip.value) && s.calls[j].ip.value in Next(s, e).pending
  {
    StepKeepsCalls(s, e);
    assert CallInv(s, s.calls[j]);
    assert CallInv(Next(s, e), Next(s, e).calls[j]);
  }

  /** In every run each exit gives up its own address and name, and every other request keeps what it holds. */
  lemma ExitsGiveUpTheirOwn(run: seq<State>, events: seq<Event>, k: nat, j: nat)
    requires IsRun(run, events) && k < |events| && j in run[k].calls && Holds(run[k].calls[j])
    ensures events[k] == ReleaseIP(j) && run[k].calls[j].ip.Some? ==> run[k].calls[j].ip.value !in run[k + 1].pending
    ensures events[k] == UnsetCreating(j) ==> run[k].calls[j].name !in run[k + 1].names
    ensures events[k] != UnsetCreating(j) ==>
              HoldsName(run[k + 1], j, run[k].calls[j].name) && run[k].calls[j].name in run[k + 1].names
    ensures events[k] != ReleaseIP(j) && run[k].calls[j].ip.Some? ==>
              HoldsAddress(run[k + 1], j, run[k].calls[j].ip.value) && run[k].calls[j].ip.value in run[k + 1].pending
  {
    RunKeepsInv(run, events, k);
    assert CallInv(run[k], run[k].calls[j]);
    if events[k] != UnsetCreating(j) {
      StepKeepsHolds(run[k], events[k], j);
    }
  }

  /** When every pick goes by an up-to-date list, no two instances ever share an address from the allocator. */
  lemma {:induction false} AddressesUnique(run: seq<State>, events: seq<Event>, k: nat)
    requires IsRun(run, events) && k < |run|
    requires AddressesDistinct(run[0]) && forall i :: 0 <= i < |events| ==> UpToDate(run[i], events[i])
    ensures AddressesDistinct(run[k])
    ensures forall m, n :: m in run[k].instances && n in run[k].instances && m != n ==>
              var a, b := run[k].instances[m], run[k].instances[n];
              a.address != b.address || !a.fromAllocator || !b.fromAllocator
  {
    if k > 0 {
      AddressesUnique(run, events, k - 1);
      RunKeepsInv(run, events, k - 1);
      StepKeepsAddresses(run[k - 1], events[k - 1]);
    }
  }

  // ---------- a stale list ----------

  lemma Extend(run: seq<State>, events: seq<Event>, e: Event) returns (run': seq<State>, events': seq<Event>)
    requires IsRun(run, events) && Enabled(run[|events|], e) && Assumed(run[|events|], e)
    ensures IsRun(run', events') && |events'| == |events| + 1
    ensures run'[|events'|] == Next(run[|events|], e)
  {
    run', events' := run + [Next(run[|events|], e)], events + [e];
  }

  /** A request for a new name goes on until it has read the addresses. */
  lemma ReadAddresses(run: seq<State>, events: seq<Event>, id: nat, name: string) returns (run': seq<State>, events': seq<Event>)
    requires IsRun(run, events)
    requires var s := run[|events|]; id !in s.calls && name !in s.names && name !in s.instances
    ensures IsRun(run', events')
    ensures var s := run[|events|];
            run'[|events'|] == s.(names := s.names + {name}, calls := s.calls[id := Call(name, Listed(Addresses(s)), None)])
  {
    var s := run[|events|];
    run', events' := Extend(run, events, Arrive(id, name));
    run', events' := Extend(run', events', SetCreating(id));
    run', events' := Extend(run', events', GetNas(id));
    run', events' := Extend(run', events', ListNas(id));
    assert run'[|events'|].calls == s.calls[id := Call(name, Listed(Addresses(s)), None)];
  }

  /** And then reserves an address, creates the instance and releases the address. */
  lemma CreateAndRelease(run: seq<State>, events: seq<Event>, id: nat, ip: IP) returns (run': seq<State>, events': seq<Event>)
    requires IsRun(run, events) && Enabled(run[|events|], Pick(id, ip))
    ensures IsRun(run', events')
    ensures var s := run[|events|]; var c := s.calls[id];
            run'[|events'|] == s.(calls := s.calls[id := Call(c.name, Released, None)],
                                  instances := s.instances[c.name := Instance(ip, true)])
  {
    var s := run[|events|];
    run', events' := Extend(run, events, Pick(id, ip));
    run', events' := Extend(run', events', CreateNas(id, ip));
    run', events' := Extend(run', events', Exit(id));
    run', events' := Extend(run', events', ReleaseIP(id));
    assert run'[|events'|].calls == s.calls[id := Call(s.calls[id].name, Released, None)];
    assert run'[|events'|].pending == s.pending;
  }

  /** Without the assumption two instances can get the same address: both requests list before either picks. */
  lemma StaleListSharesAddress(a: string, b: string, ip: IP) returns (run: seq<State>, events: seq<Event>)
    requires a != b
    ensures IsRun(run, events) && !AddressesDistinct(run[|events|])
  {
    run, events := [State({}, {}, map[], map[])], [];
    run, events := ReadAddresses(run, events, 0, a);
    run, events := ReadAddresses(run, events, 1, b);
    run, events := CreateAndRelease(run, events, 0, ip);
    run, events := CreateAndRelease(run, events, 1, ip);
    var s := run[|events|];
    assert Clash(s.instances[a], s.instances[b]);
  }
}
