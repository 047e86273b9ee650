/**
 Shared CreateVolume requests as a whole system: the queue, the search for an instance, the creation of the
 instance, the appearance of the persistent volume, and whatever else happens to volumes and instances in
 between (pkg/driver/controller.go, pkg/driver/shared_utils.go).

 Every call to the API server or to the cloud is a step of its own, so other things happen between them.
 The result is that the volumes on a shared instance never add up to more than the instance holds.
 */
module SharedCreate {
  import opened Capacity
  import opened SharedNas
  import opened Strings
  import opened VolumeHandle
  import opened Wrappers
  import F = InFlight

  // ---------- which volumes are on an instance ----------

  datatype Config = Config(region: string, clusterUID: string) {
    ghost function Base(): (s: string) {
      SharedNas.Base(clusterUID)
    }

    /** Names are free of '/', and the region does not look like a shared instance. */
    ghost predicate Good() {
      SlashFree(region) && SlashFree(clusterUID) && !Contains(region, Base())
    }
  }

  /** The volume is on the instance: its handle names it. */
  ghost predicate OnNas(pv: PV, id: string) {
    pv.handle.Some? && |Split(pv.handle.value)| == 3 && Split(pv.handle.value)[1] == id
  }

  ghost function On(id: string): (on: PV -> bool) {
    pv => OnNas(pv, id)
  }

  ghost function SumOn(pvs: seq<PV>, id: string): (bytes: int) {
    SumIf(pvs, On(id))
  }

  /** A volume that this driver made: its handle is the region, an instance, and its own name. */
  ghost predicate Ours(c: Config, pv: PV) {
    && pv.handle.Some? && |Split(pv.handle.value)| == 3
    && Split(pv.handle.value)[0] == c.region && Split(pv.handle.value)[2] == pv.name
    && !Contains(pv.name, c.Base()) && CapOf(pv) >= 0
  }

  /** Only volumes of this driver have handles that look like a shared instance. */
  ghost predicate NoStrays(c: Config, pvs: seq<PV>) {
    forall pv :: pv in pvs && Mentions(pv, c.Base()) ==> Ours(c, pv)
  }

  lemma BaseInPrefix(c: Config, instanceType: string, i: nat)
    requires 1 <= i <= MAX_SHARED
    ensures Contains(IndexPrefix(c.clusterUID, instanceType, i), c.Base())
  {
    ContainsPrefix(c.Base(), instanceType + IndexText(i));
    assert IndexPrefix(c.clusterUID, instanceType, i) == c.Base() + (instanceType + IndexText(i));
  }

  /** The handle of a volume contains everything that the name of its instance contains. */
  lemma OnMentions(pv: PV, id: string, sub: string)
    requires OnNas(pv, id) && Contains(id, sub)
    ensures Mentions(pv, sub)
  {
    var h := pv.handle.value;
    var t := Split(h);
    SplitThree(h);
    assert h == t[0] + [SEP] + id + ([SEP] + t[2]);
    ContainsInside(t[0] + [SEP], id, [SEP] + t[2], sub);
  }

  /** And the text of a shared instance, found in a handle, is in the name of the instance. */
  lemma MentionsNas(c: Config, pv: PV, sub: string)
    requires c.Good() && Ours(c, pv) && SlashFree(sub) && Contains(sub, c.Base()) && Mentions(pv, sub)
    ensures Contains(Split(pv.handle.value)[1], sub)
  {
    var h := pv.handle.value;
    var t := Split(h);
    SplitThree(h);
    VolumeIDIs(t[0], t[1]);
    assert h == Handle(t[0], t[1], Some(t[2]));
    ContainsInHandle(t[0], t[1], Some(t[2]), sub);
    if Contains(c.region, sub) {
      ContainsTransitive(c.region, sub, c.Base());
    }
    if Contains(pv.name, sub) {
      ContainsTransitive(pv.name, sub, c.Base());
    }
  }

  /** What the driver counts as reserved under a prefix covers what is on any instance with that prefix. */
  lemma ReservedCovers(c: Config, pvs: seq<PV>, id: string, prefix: string)
    requires NoStrays(c, pvs) && Contains(id, prefix) && Contains(prefix, c.Base())
    ensures SumOn(pvs, id) <= ReservedCap(pvs, prefix)
  {
    forall pv | pv in pvs
      ensures On(id)(pv) ==> Mentioning(prefix)(pv)
      ensures Mentioning(prefix)(pv) ==> CapOf(pv) >= 0
    {
      if OnNas(pv, id) {
        OnMentions(pv, id, prefix);
      }
      if Mentions(pv, prefix) {
        ContainsTransitive(pv.handle.value, prefix, c.Base());
      }
    }
    SumIfMonotone(pvs, On(id), Mentioning(prefix));
  }

  // ---------- the system ----------

  /** A request that got through the queue: sizes in bytes and GiB, the instance type as text and as number. */
  datatype Request = Request(name: string, capBytes: int, sharedGiB: int, instanceType: string, typeCode: int) {
    ghost function Prefix(c: Config, i: nat): (s: string)
      requires 1 <= i <= MAX_SHARED
    {
      IndexPrefix(c.clusterUID, instanceType, i)
    }

    ghost predicate Plain(c: Config) {
      SlashFree(name) && !Contains(name, c.Base()) && SlashFree(instanceType) && capBytes >= 0
    }

    /** Nine allocation steps hold the volume, whatever size is asked for the instance. */
    ghost predicate InSteps() {
      capBytes <= GbToBytes(MAX_STEPS * Unit(typeCode))
    }

    /** The GiB that a new instance for this request gets. */
    ghost predicate Gets(gib: int) {
      IsAllocation(GbToBytes(sharedGiB), typeCode, gib)
    }
  }

  /**
   Where CreateVolume is: about to read the reserved capacity of number i, having read it, having read the
   instance name, having chosen the instance, having found or created it, having answered, and with its
   volume in the list but the event not yet handled.
   */
  datatype Phase =
    | Scanning(i: nat)
    | Reserved(i: nat, bytes: int)
    | Named(i: nat, bytes: int, nas: string)
    | Placed(nas: string)
    | Provisioned(nas: string)
    | Responded(nas: string)
    | Listed(nas: string)

  datatype Job = Job(req: Request, phase: Phase)

  /** jobs holds the calls that have the slot of the queue. */
  datatype State = State(flight: F.State, jobs: map<nat, Job>, pvs: seq<PV>, instances: seq<Nas>)

  datatype Event =
    | Enter(e: F.Event)                        // a step of a request that does not have the slot
    | Begin(id: nat, req: Request)             // it is marked as operating
    | ReadReserved(id: nat)
    | ReadName(id: nat)
    | ChooseNew(id: nat, suffix: string)
    | CheckRoom(id: nat)
    | Provision(id: nat, gib: int)             // GetNasInstance, then compare or CreateNasInstance
    | Respond(id: nat)
    | Fail(id: nat)                            // any error exit
    | PvAppears(id: nat, k: nat)               // the provisioner records the answer, anywhere in the list
    | PvAdded(name: string)                    // the informer event
    | RemovePv(k: nat)                         // a volume is deleted
    | AddOtherPv(k: nat, pv: PV)               // a volume of another kind is recorded
    | CloudChanges(instances: seq<Nas>)        // instances are deleted, change status, or others are created

  predicate Has(s: State, id: nat) {
    id in s.jobs && F.At(s.flight, id, F.Holding)
  }

  predicate ValidIndex(i: nat) {
    1 <= i <= MAX_SHARED
  }

  ghost predicate Enabled(c: Config, s: State, e: Event) {
    match e
    case Enter(f) => F.Outside(f) && F.Enabled(s.flight, f)
    case Begin(id, req) => F.Enabled(s.flight, F.Marked(id)) && s.flight.calls[id].name == req.name
    case ReadReserved(id) =>
      Has(s, id) && var j := s.jobs[id];
      j.phase.Scanning? && ValidIndex(j.phase.i) && j.req.capBytes <= GbToBytes(j.req.sharedGiB)
    case ReadName(id) =>
      Has(s, id) && var j := s.jobs[id];
      j.phase.Reserved? && ValidIndex(j.phase.i) && j.phase.bytes != 0 && NameFromPv(s.pvs, j.req.Prefix(c, j.phase.i)).Some?
    case ChooseNew(id, suffix) =>
      Has(s, id) && var j := s.jobs[id];
      j.phase.Reserved? && ValidIndex(j.phase.i) && j.phase.bytes == 0
    case CheckRoom(id) =>
      Has(s, id) && var j := s.jobs[id];
      j.phase.Named? && var n := Lookup(s.instances, j.phase.nas);
      n.Some? && (j.req.capBytes <= CapacityBytes(n.value) - j.phase.bytes || j.phase.i < MAX_SHARED)
    case Provision(id, gib) =>
      Has(s, id) && var j := s.jobs[id];
      j.phase.Placed? && j.req.Gets(gib) &&
      var n := Lookup(s.instances, j.phase.nas);
      n.Some? ==> n.value.storage == Some(gib)
    case Respond(id) => Has(s, id) && s.jobs[id].phase.Provisioned?
    case Fail(id) => Has(s, id) && !s.jobs[id].phase.Responded? && !s.jobs[id].phase.Listed?
    case PvAppears(id, k) => Has(s, id) && s.jobs[id].phase.Responded? && k <= |s.pvs|
    case PvAdded(name) => true
    case RemovePv(k) => k < |s.pvs|
    case AddOtherPv(k, pv) => k <= |s.pvs|
    case CloudChanges(instances) => true
  }

  ghost function NewPv(c: Config, req: Request, nas: string): (pv: PV) {
    PV(req.name, Some(Handle(c.region, nas, Some(req.name))), Some(req.capBytes))
  }

  ghost function Moved(s: State, id: nat, phase: Phase): (t: State)
    requires id in s.jobs
  {
    s.(jobs := s.jobs[id := s.jobs[id].(phase := phase)])
  }

  ghost function Next(c: Config, s: State, e: Event): (t: State)
    requires Enabled(c, s, e)
  {
    match e
    case Enter(f) => s.(flight := F.Next(s.flight, f))
    case Begin(id, req) => s.(flight := F.Next(s.flight, F.Marked(id)), jobs := s.jobs[id := Job(req, Scanning(1))])
    case ReadReserved(id) =>
      var j := s.jobs[id];
      Moved(s, id, Reserved(j.phase.i, ReservedCap(s.pvs, j.req.Prefix(c, j.phase.i))))
    case ReadName(id) =>
      var j := s.jobs[id];
      Moved(s, id, Named(j.phase.i, j.phase.bytes, NameFromPv(s.pvs, j.req.Prefix(c, j.phase.i)).value))
    case ChooseNew(id, suffix) =>
      var j := s.jobs[id];
      Moved(s, id, Placed(NameFor(Empty, s.instances, j.req.Prefix(c, j.phase.i), suffix)))
    case CheckRoom(id) =>
      var j := s.jobs[id];
      var n := Lookup(s.instances, j.phase.nas).value;
      Moved(s, id, if j.req.capBytes <= CapacityBytes(n) - j.phase.bytes then Placed(j.phase.nas) else Scanning(j.phase.i + 1))
    case Provision(id, gib) =>
      var nas := s.jobs[id].phase.nas;
      var t := Moved(s, id, Provisioned(nas));
      if Lookup(s.instances, nas).Some? then t else t.(instances := s.instances + [Nas(nas, false, Some(gib))])
    case Respond(id) => Moved(s, id, Responded(s.jobs[id].phase.nas))
    case Fail(id) => s.(flight := F.Next(s.flight, F.Exit(id)), jobs := s.jobs - {id})
    case PvAppears(id, k) =>
      var j := s.jobs[id];
      Moved(s, id, Listed(j.phase.nas)).(pvs := s.pvs[..k] + [NewPv(c, j.req, j.phase.nas)] + s.pvs[k..])
    case PvAdded(name) =>
      s.(flight := F.Next(s.flight, F.Finished(name)),
         jobs := map id | id in s.jobs && s.jobs[id].req.name != name :: s.jobs[id])
    case RemovePv(k) => s.(pvs := s.pvs[..k] + s.pvs[k + 1..])
    case AddOtherPv(k, pv) => s.(pvs := s.pvs[..k] + [pv] + s.pvs[k..])
    case CloudChanges(instances) => s.(instances := instances)
  }

  /** What the environment is relied on for, apart from sizes. */
  ghost predicate Plausible(c: Config, s: State, e: Event) {
    match e
    case Enter(f) => F.Harmless(s.flight, f)
    case Begin(id, req) => req.Plain(c)
    case ChooseNew(id, suffix) => SlashFree(suffix)
    case PvAdded(name) => forall id :: id in s.jobs && s.jobs[id].req.name == name ==> s.jobs[id].phase.Listed?
    case AddOtherPv(k, pv) => !Mentions(pv, c.Base())
    case CloudChanges(instances) =>
      && GoodInstances(instances)
      && (forall n :: n in instances && Contains(n.id, c.Base()) ==> Known(s.instances, n))
    case _ => true
  }

  /** What is relied on for sizes: nine allocation steps hold every volume, and chosen instances are spared. */
  ghost predicate Sized(s: State, e: Event) {
    match e
    case Begin(id, req) => req.InSteps()
    case CloudChanges(instances) =>
      forall id :: id in s.jobs && s.jobs[id].phase.Placed? ==> Spared(s.jobs[id], s.pvs, s.instances, instances)
    case _ => true
  }

  ghost predicate Assumed(c: Config, s: State, e: Event) {
    Plausible(c, s, e) && Sized(s, e)
  }

  /**
   The instance that the request has chosen is not deleted before the request has found it, unless it has the
   storage that the request would create it with, or a new one would do.
   */
  ghost predicate Spared(j: Job, pvs: seq<PV>, before: seq<Nas>, after: seq<Nas>)
    requires j.phase.Placed?
  {
    forall n :: n in before && n.id == j.phase.nas ==>
      || Known(after, n)
      || (n.storage.Some? && j.req.Gets(n.storage.value))
      || FitsNew(j.req, j.phase.nas, pvs)
  }

  /** A new instance of that name has room for the volume on top of what is listed on it. */
  ghost predicate FitsNew(req: Request, nas: string, pvs: seq<PV>) {
    forall gib :: req.Gets(gib) ==> SumOn(pvs, nas) + req.capBytes <= GbToBytes(gib)
  }

  /** An instance of that name and storage is in the list. */
  ghost predicate Known(instances: seq<Nas>, n: Nas) {
    exists m :: m in instances && m.id == n.id && m.storage == n.storage
  }

  /** Instance names are unique and plain. */
  ghost predicate GoodInstances(instances: seq<Nas>) {
    && (forall n :: n in instances ==> SlashFree(n.id))
    && (forall m, n :: m in instances && n in instances && m.id == n.id ==> m == n)
  }

  // ---------- the invariant ----------

  /** The volumes on every shared instance fit on it. */
  ghost predicate WithinCapacity(c: Config, pvs: seq<PV>, instances: seq<Nas>) {
    forall n :: n in instances && Contains(n.id, c.Base()) ==> SumOn(pvs, n.id) <= CapacityBytes(n)
  }

  ghost predicate ListsInv(c: Config, pvs: seq<PV>, instances: seq<Nas>) {
    NoStrays(c, pvs) && GoodInstances(instances) && WithinCapacity(c, pvs, instances)
  }

  ghost predicate SharedName(c: Config, nas: string) {
    SlashFree(nas) && Contains(nas, c.Base())
  }

  /** There is room for the volume on the instance on top of what is there. */
  ghost predicate Fitting(req: Request, nas: string, pvs: seq<PV>, n: Nas) {
    n.id == nas ==> SumOn(pvs, nas) + req.capBytes <= CapacityBytes(n)
  }

  ghost predicate JobInv(c: Config, j: Job, pvs: seq<PV>, instances: seq<Nas>) {
    && j.req.Plain(c) && j.req.InSteps()
    && (!j.phase.Scanning? ==> j.req.capBytes <= GbToBytes(j.req.sharedGiB))
    && match j.phase
       case Scanning(i) => true
       case Reserved(i, bytes) => ValidIndex(i) && ReservedCap(pvs, j.req.Prefix(c, i)) <= bytes
       case Named(i, bytes, nas) =>
         && ValidIndex(i) && ReservedCap(pvs, j.req.Prefix(c, i)) <= bytes
         && SlashFree(nas) && Contains(nas, j.req.Prefix(c, i))
       case Placed(nas) =>
         && SharedName(c, nas)
         && (FitsNew(j.req, nas, pvs) || exists n :: n in instances && n.id == nas && Fitting(j.req, nas, pvs, n))
       case Provisioned(nas) => SharedName(c, nas) && forall n :: n in instances ==> Fitting(j.req, nas, pvs, n)
       case Responded(nas) => SharedName(c, nas) && forall n :: n in instances ==> Fitting(j.req, nas, pvs, n)
       case Listed(nas) => true
  }

  /** The jobs are the calls that hold the slot. */
  ghost predicate FlightInv(s: State) {
    && F.Inv(s.flight)
    && (forall id :: id in s.jobs <==> F.At(s.flight, id, F.Holding))
    && (forall id :: id in s.jobs ==> s.flight.calls[id].name == s.jobs[id].req.name)
  }

  ghost predicate Inv(c: Config, s: State) {
    && c.Good()
    && FlightInv(s)
    && ListsInv(c, s.pvs, s.instances)
    && forall id :: id in s.jobs ==> JobInv(c, s.jobs[id], s.pvs, s.instances)
  }

  lemma OneJob(s: State, i: nat, j: nat)
    requires FlightInv(s) && i in s.jobs && j in s.jobs
    ensures i == j
  {
    F.AtMostOneActive(s.flight, i, j);
  }

  lemma SoleJobKeepsInv(c: Config, t: State, id: nat)
    requires c.Good() && FlightInv(t) && ListsInv(c, t.pvs, t.instances)
    requires id in t.jobs && JobInv(c, t.jobs[id], t.pvs, t.instances)
    ensures Inv(c, t)
  {
    forall k | k in t.jobs
      ensures k == id
    {
      OneJob(t, k, id);
    }
  }

  // ---------- steps that keep the lists ----------

  lemma EnterKeepsInv(c: Config, s: State, f: F.Event)
    requires Inv(c, s) && Enabled(c, s, Enter(f)) && Assumed(c, s, Enter(f))
    ensures Inv(c, Next(c, s, Enter(f)))
  {
    F.StepKeepsInv(s.flight, f);
    F.OutsideKeepsHolders(s.flight, f);
  }

  lemma BeginKeepsInv(c: Config, s: State, id: nat, req: Request)
    requires Inv(c, s) && Enabled(c, s, Begin(id, req)) && Assumed(c, s, Begin(id, req))
    ensures Inv(c, Next(c, s, Begin(id, req)))
  {
    F.StepKeepsInv(s.flight, F.Marked(id));
    F.MarkingAddsHolder(s.flight, id);
    SoleJobKeepsInv(c, Next(c, s, Begin(id, req)), id);
  }

  /** An exit and a volume event drop from the jobs what they drop from the flight. */
  lemma LeaveFlight(s: State, t: State, f: F.Event)
    requires FlightInv(s) && F.Enabled(s.flight, f) && t.flight == F.Next(s.flight, f)
    requires (f.Exit? && t.jobs == s.jobs - {f.id})
          || (f.Finished? && t.jobs == map id | id in s.jobs && s.jobs[id].req.name != f.name :: s.jobs[id])
    ensures FlightInv(t)
  {
    F.StepKeepsInv(s.flight, f);
  }

  lemma LeaveKeepsInv(c: Config, s: State, e: Event)
    requires Inv(c, s) && Enabled(c, s, e) && Assumed(c, s, e) && (e.Fail? || e.PvAdded?)
    ensures Inv(c, Next(c, s, e))
  {
    LeaveFlight(s, Next(c, s, e), if e.Fail? then F.Exit(e.id) else F.Finished(e.name));
  }

  /** A step that only moves one job on. */
  lemma MovedKeepsInv(c: Config, s: State, id: nat, phase: Phase)
    requires Inv(c, s) && id in s.jobs && JobInv(c, s.jobs[id].(phase := phase), s.pvs, s.instances)
    ensures Inv(c, Moved(s, id, phase))
  {
  }

  lemma ReadReservedKeepsInv(c: Config, s: State, id: nat)
    requires Inv(c, s) && Enabled(c, s, ReadReserved(id))
    ensures Inv(c, Next(c, s, ReadReserved(id)))
  {
    MovedKeepsInv(c, s, id, Next(c, s, ReadReserved(id)).jobs[id].phase);
  }

  lemma ReadNameKeepsInv(c: Config, s: State, id: nat)
    requires Inv(c, s) && Enabled(c, s, ReadName(id))
    ensures Inv(c, Next(c, s, ReadName(id)))
  {
    var j := s.jobs[id];
    var prefix := j.req.Prefix(c, j.phase.i);
    var h := FirstHandle(s.pvs, prefix).value;
    var pv :| pv in s.pvs && pv.handle == Some(h);
    BaseInPrefix(c, j.req.instanceType, j.phase.i);
    ContainsTransitive(h, prefix, c.Base());
    PrefixIsPlain(c, j.req, j.phase.i);
    MentionsNas(c, pv, prefix);
    JoinSplit(h);
    MovedKeepsInv(c, s, id, Next(c, s, ReadName(id)).jobs[id].phase);
  }

  lemma PrefixIsPlain(c: Config, req: Request, i: nat)
    requires c.Good() && req.Plain(c) && ValidIndex(i)
    ensures SlashFree(req.Prefix(c, i))
  {
  }

  lemma ChooseNewKeepsInv(c: Config, s: State, id: nat, suffix: string)
    requires Inv(c, s) && Enabled(c, s, ChooseNew(id, suffix)) && Assumed(c, s, ChooseNew(id, suffix))
    ensures Inv(c, Next(c, s, ChooseNew(id, suffix)))
  {
    var j := s.jobs[id];
    NewNameIsGood(c, j.req, j.phase.i, s.instances, suffix);
    NewNamePlaces(c, j, s.pvs, s.instances, NameFor(Empty, s.instances, j.req.Prefix(c, j.phase.i), suffix));
    MovedKeepsInv(c, s, id, Next(c, s, ChooseNew(id, suffix)).jobs[id].phase);
  }

  lemma NewNameIsGood(c: Config, req: Request, i: nat, instances: seq<Nas>, suffix: string)
    requires c.Good() && req.Plain(c) && ValidIndex(i) && GoodInstances(instances) && SlashFree(suffix)
    ensures var prefix := req.Prefix(c, i); var name := NameFor(Empty, instances, prefix, suffix);
            SlashFree(name) && Contains(name, prefix)
  {
    var prefix := req.Prefix(c, i);
    PrefixIsPlain(c, req, i);
    if NameFromNas(instances, prefix).None? {
      ContainsPrefix(prefix, "-" + suffix);
      assert prefix + "-" + suffix == prefix + ("-" + suffix);
    }
  }

  lemma NewNamePlaces(c: Config, j: Job, pvs: seq<PV>, instances: seq<Nas>, name: string)
    requires NoStrays(c, pvs) && JobInv(c, j, pvs, instances) && j.phase.Reserved? && j.phase.bytes == 0
    requires SlashFree(name) && Contains(name, j.req.Prefix(c, j.phase.i))
    ensures JobInv(c, j.(phase := Placed(name)), pvs, instances)
  {
    var prefix := j.req.Prefix(c, j.phase.i);
    BaseInPrefix(c, j.req.instanceType, j.phase.i);
    ContainsTransitive(name, prefix, c.Base());
    ReservedCovers(c, pvs, name, prefix);
    EmptyFitsNew(j.req, name, pvs);
  }

  /** On an instance without volumes, the first one fits. */
  lemma EmptyFitsNew(req: Request, nas: string, pvs: seq<PV>)
    requires req.InSteps() && req.capBytes <= GbToBytes(req.sharedGiB) && SumOn(pvs, nas) <= 0
    ensures FitsNew(req, nas, pvs)
  {
    forall gib | req.Gets(gib)
      ensures req.capBytes <= GbToBytes(gib)
    {
      FirstVolumeFitsIff(req, gib);
    }
  }

  /** A volume admitted to a new instance is at most its size exactly when nine allocation steps hold the volume. */
  lemma FirstVolumeFitsIff(req: Request, gib: int)
    requires req.capBytes <= GbToBytes(req.sharedGiB) && req.Gets(gib)
    ensures req.capBytes <= GbToBytes(gib) <==> req.InSteps()
  {
    var n :| IsSteps(GbToBytes(req.sharedGiB), req.typeCode, n) && gib == n * Unit(req.typeCode);
    AllocationCovers(GbToBytes(req.sharedGiB), req.typeCode, gib);
    assert n * Unit(req.typeCode) <= MAX_STEPS * Unit(req.typeCode);
  }

  /** Room left by what is reserved under the prefix is room left by what is on the instance. */
  lemma RoomIsFitting(c: Config, req: Request, i: nat, bytes: int, nas: string, pvs: seq<PV>, n: Nas)
    requires NoStrays(c, pvs) && ValidIndex(i) && ReservedCap(pvs, req.Prefix(c, i)) <= bytes
    requires Contains(nas, req.Prefix(c, i)) && req.capBytes <= CapacityBytes(n) - bytes
    ensures Contains(nas, c.Base()) && Fitting(req, nas, pvs, n)
  {
    var prefix := req.Prefix(c, i);
    BaseInPrefix(c, req.instanceType, i);
    ContainsTransitive(nas, prefix, c.Base());
    ReservedCovers(c, pvs, nas, prefix);
  }

  lemma CheckRoomKeepsInv(c: Config, s: State, id: nat)
    requires Inv(c, s) && Enabled(c, s, CheckRoom(id))
    ensures Inv(c, Next(c, s, CheckRoom(id)))
  {
    var j := s.jobs[id];
    var n := Lookup(s.instances, j.phase.nas).value;
    if j.req.capBytes <= CapacityBytes(n) - j.phase.bytes {
      RoomPlaces(c, j, s.pvs, s.instances, n);
    }
    MovedKeepsInv(c, s, id, Next(c, s, CheckRoom(id)).jobs[id].phase);
  }

  lemma RoomPlaces(c: Config, j: Job, pvs: seq<PV>, instances: seq<Nas>, n: Nas)
    requires NoStrays(c, pvs) && JobInv(c, j, pvs, instances) && j.phase.Named? && n in instances && n.id == j.phase.nas
    requires j.req.capBytes <= CapacityBytes(n) - j.phase.bytes
    ensures JobInv(c, j.(phase := Placed(j.phase.nas)), pvs, instances)
  {
    RoomIsFitting(c, j.req, j.phase.i, j.phase.bytes, j.phase.nas, pvs, n);
  }

  // ---------- steps that change the lists ----------

  /** The instance found has exactly the storage asked for, and so has the instance created. */
  lemma ProvisionedFits(c: Config, j: Job, pvs: seq<PV>, n: Nas, gib: int, instances: seq<Nas>)
    requires JobInv(c, j, pvs, instances) && j.phase.Placed? && n.id == j.phase.nas && n.storage == Some(gib)
    requires GoodInstances(instances) && (n in instances || forall m :: m in instances ==> m.id != n.id)
    requires j.req.Gets(gib)
    ensures Fitting(j.req, j.phase.nas, pvs, n)
  {
    if !FitsNew(j.req, n.id, pvs) {
      var m :| m in instances && m.id == n.id && Fitting(j.req, n.id, pvs, m);
      assert m == n;
    }
  }

  lemma ProvisionedLists(c: Config, j: Job, pvs: seq<PV>, instances: seq<Nas>, n: Nas, gib: int)
    requires ListsInv(c, pvs, instances) && JobInv(c, j, pvs, instances) && j.phase.Placed?
    requires j.req.Gets(gib)
    requires n == Nas(j.phase.nas, false, Some(gib)) && forall m :: m in instances ==> m.id != n.id
    ensures ListsInv(c, pvs, instances + [n])
  {
    ProvisionedFits(c, j, pvs, n, gib, instances);
  }

  lemma ProvisionKeepsInv(c: Config, s: State, id: nat, gib: int)
    requires Inv(c, s) && Enabled(c, s, Provision(id, gib))
    ensures Inv(c, Next(c, s, Provision(id, gib)))
  {
    var j, t := s.jobs[id], Next(c, s, Provision(id, gib));
    if Lookup(s.instances, j.phase.nas).None? {
      ProvisionedLists(c, j, s.pvs, s.instances, Nas(j.phase.nas, false, Some(gib)), gib);
    }
    ProvisionedJob(c, j, s.pvs, s.instances, t.instances, gib);
    assert FlightInv(t);
    SoleJobKeepsInv(c, t, id);
  }

  lemma ProvisionedJob(c: Config, j: Job, pvs: seq<PV>, instances: seq<Nas>, after: seq<Nas>, gib: int)
    requires JobInv(c, j, pvs, instances) && j.phase.Placed? && GoodInstances(instances) && j.req.Gets(gib)
    requires var found := Lookup(instances, j.phase.nas);
             if found.Some? then after == instances && found.value.storage == Some(gib)
             else after == instances + [Nas(j.phase.nas, false, Some(gib))]
    ensures JobInv(c, j.(phase := Provisioned(j.phase.nas)), pvs, after)
  {
    forall n | n in after && n.id == j.phase.nas
      ensures Fitting(j.req, j.phase.nas, pvs, n)
    {
      ProvisionedFits(c, j, pvs, n, gib, instances);
    }
  }

  /** What provisioning means: the size is the allocation for capacityParInstanceGiB, found or created. */
  lemma ProvisionMeans(c: Config, s: State, id: nat, gib: int)
    requires Enabled(c, s, Provision(id, gib))
    ensures var j, t := s.jobs[id], Next(c, s, Provision(id, gib));
            && IsAllocation(j.req.sharedGiB * 0x4000_0000, j.req.typeCode, gib)
            && t.pvs == s.pvs && id in t.jobs && t.jobs[id] == Job(j.req, Provisioned(j.phase.nas))
            && if exists n :: n in s.instances && n.id == j.phase.nas
               then t.instances == s.instances && exists n :: n in s.instances && n.id == j.phase.nas && n.storage == Some(gib)
               else t.instances == s.instances + [Nas(j.phase.nas, false, Some(gib))]
  {
  }

  /** And what is recorded: the volume under its own name, with the handle of its instance and the size asked for. */
  lemma PvAppearsMeans(c: Config, s: State, id: nat, k: nat)
    requires Enabled(c, s, PvAppears(id, k))
    ensures var j, t := s.jobs[id], Next(c, s, PvAppears(id, k));
            && |t.pvs| == |s.pvs| + 1 && t.pvs[..k] == s.pvs[..k] && t.pvs[k + 1..] == s.pvs[k..]
            && t.pvs[k].name == j.req.name && t.pvs[k].capacity == Some(j.req.capBytes)
            && t.pvs[k].handle == Some(c.region + "/" + j.phase.nas + "/" + j.req.name)
  {
    HandleText(c.region, s.jobs[id].phase.nas, s.jobs[id].req.name);
  }

  /** Recording the new volume takes up the room that was found for it, and no other. */
  lemma RecordedFits(c: Config, j: Job, pvs: seq<PV>, instances: seq<Nas>, k: nat, pvs': seq<PV>)
    requires c.Good() && ListsInv(c, pvs, instances) && JobInv(c, j, pvs, instances) && j.phase.Responded? && k <= |pvs|
    requires pvs' == pvs[..k] + [NewPv(c, j.req, j.phase.nas)] + pvs[k..]
    ensures ListsInv(c, pvs', instances)
  {
    var nas, pv := j.phase.nas, NewPv(c, j.req, j.phase.nas);
    HandleSplits(c.region, nas, Some(j.req.name));
    assert Ours(c, pv);
    assert pvs == pvs[..k] + pvs[k..];
    forall n | n in instances && Contains(n.id, c.Base())
      ensures SumOn(pvs', n.id) <= CapacityBytes(n)
    {
      SumIfSplit(pvs[..k], pv, pvs[k..], On(n.id));
      assert Fitting(j.req, nas, pvs, n);
    }
  }

  lemma PvAppearsKeepsInv(c: Config, s: State, id: nat, k: nat)
    requires Inv(c, s) && Enabled(c, s, PvAppears(id, k))
    ensures Inv(c, Next(c, s, PvAppears(id, k)))
  {
    var t := Next(c, s, PvAppears(id, k));
    RecordedFits(c, s.jobs[id], s.pvs, s.instances, k, t.pvs);
    SoleJobKeepsInv(c, t, id);
  }

  /** Volumes that leave, or that are not of this driver, never add to what is on a shared instance. */
  lemma PvsChangeKeepsInv(c: Config, s: State, t: State)
    requires Inv(c, s) && t == s.(pvs := t.pvs) && NoStrays(c, t.pvs)
    requires forall id :: Contains(id, c.Base()) ==> SumOn(t.pvs, id) <= SumOn(s.pvs, id)
    requires forall p :: Contains(p, c.Base()) ==> ReservedCap(t.pvs, p) <= ReservedCap(s.pvs, p)
    ensures Inv(c, t)
  {
    forall id | id in t.jobs
      ensures JobInv(c, t.jobs[id], t.pvs, t.instances)
    {
      JobSurvivesPvs(c, s.jobs[id], s.pvs, t.pvs, s.instances);
    }
  }

  lemma JobSurvivesPvs(c: Config, j: Job, pvs: seq<PV>, pvs': seq<PV>, instances: seq<Nas>)
    requires JobInv(c, j, pvs, instances)
    requires forall id :: Contains(id, c.Base()) ==> SumOn(pvs', id) <= SumOn(pvs, id)
    requires forall p :: Contains(p, c.Base()) ==> ReservedCap(pvs', p) <= ReservedCap(pvs, p)
    ensures JobInv(c, j, pvs', instances)
  {
    match j.phase {
      case Reserved(i, _) => BaseInPrefix(c, j.req.instanceType, i);
      case Named(i, _, _) => BaseInPrefix(c, j.req.instanceType, i);
      case Placed(nas) =>
        if FitsNew(j.req, nas, pvs) {
          assert FitsNew(j.req, nas, pvs');
        } else {
          var n :| n in instances && n.id == nas && Fitting(j.req, nas, pvs, n);
          assert Fitting(j.req, nas, pvs', n);
        }
      case Provisioned(nas) =>
        assert forall n :: n in instances ==> Fitting(j.req, nas, pvs, n);
      case Responded(nas) =>
        assert forall n :: n in instances ==> Fitting(j.req, nas, pvs, n);
      case _ =>
    }
  }

  /** What a volume adds to an instance or under a prefix is at most its capacity, and nothing if it is of another kind. */
  lemma OnePv(c: Config, a: seq<PV>, pv: PV, b: seq<PV>, p: string)
    requires Contains(p, c.Base()) && (Mentions(pv, c.Base()) ==> CapOf(pv) >= 0)
    ensures SumOn(a + b, p) <= SumOn(a + [pv] + b, p) && ReservedCap(a + b, p) <= ReservedCap(a + [pv] + b, p)
    ensures !Mentions(pv, c.Base()) ==> SumOn(a + b, p) == SumOn(a + [pv] + b, p)
    ensures !Mentions(pv, c.Base()) ==> ReservedCap(a + b, p) == ReservedCap(a + [pv] + b, p)
  {
    SumIfSplit(a, pv, b, On(p));
    SumIfSplit(a, pv, b, Mentioning(p));
    if OnNas(pv, p) {
      OnMentions(pv, p, c.Base());
    }
    if Mentions(pv, p) {
      ContainsTransitive(pv.handle.value, p, c.Base());
    }
    assert On(p)(pv) == OnNas(pv, p) && Mentioning(p)(pv) == Mentions(pv, p);
  }

  lemma RemovePvKeepsInv(c: Config, s: State, k: nat)
    requires Inv(c, s) && Enabled(c, s, RemovePv(k))
    ensures Inv(c, Next(c, s, RemovePv(k)))
  {
    var a, pv, b := s.pvs[..k], s.pvs[k], s.pvs[k + 1..];
    assert s.pvs == a + [pv] + b;
    forall p | Contains(p, c.Base())
      ensures SumOn(a + b, p) <= SumOn(s.pvs, p) && ReservedCap(a + b, p) <= ReservedCap(s.pvs, p)
    {
      OnePv(c, a, pv, b, p);
    }
    PvsChangeKeepsInv(c, s, Next(c, s, RemovePv(k)));
  }

  lemma AddOtherPvKeepsInv(c: Config, s: State, k: nat, pv: PV)
    requires Inv(c, s) && Enabled(c, s, AddOtherPv(k, pv)) && Assumed(c, s, AddOtherPv(k, pv))
    ensures Inv(c, Next(c, s, AddOtherPv(k, pv)))
  {
    var a, b := s.pvs[..k], s.pvs[k..];
    assert s.pvs == a + b;
    forall p | Contains(p, c.Base())
      ensures SumOn(a + [pv] + b, p) <= SumOn(s.pvs, p) && ReservedCap(a + [pv] + b, p) <= ReservedCap(s.pvs, p)
    {
      OnePv(c, a, pv, b, p);
    }
    PvsChangeKeepsInv(c, s, Next(c, s, AddOtherPv(k, pv)));
  }

  lemma CloudChangesKeepsInv(c: Config, s: State, instances: seq<Nas>)
    requires Inv(c, s) && Assumed(c, s, CloudChanges(instances))
    ensures Inv(c, Next(c, s, CloudChanges(instances)))
  {
    forall n | n in instances && Contains(n.id, c.Base())
      ensures SumOn(s.pvs, n.id) <= CapacityBytes(n)
    {
      var m :| m in s.instances && m.id == n.id && m.storage == n.storage;
    }
    forall id | id in s.jobs
      ensures JobInv(c, s.jobs[id], s.pvs, instances)
    {
      JobSurvivesCloud(c, s, id, instances);
    }
  }

  lemma JobSurvivesCloud(c: Config, s: State, id: nat, instances: seq<Nas>)
    requires Inv(c, s) && Assumed(c, s, CloudChanges(instances)) && id in s.jobs
    ensures JobInv(c, s.jobs[id], s.pvs, instances)
  {
    var j := s.jobs[id];
    match j.phase {
      case Placed(nas) => PlacedSurvives(j, s.pvs, s.instances, instances);
      case Provisioned(nas) => FittingSurvives(c, s, instances, j.req, nas);
      case Responded(nas) => FittingSurvives(c, s, instances, j.req, nas);
      case _ =>
    }
  }

  lemma PlacedSurvives(j: Job, pvs: seq<PV>, before: seq<Nas>, after: seq<Nas>)
    requires j.phase.Placed? && Spared(j, pvs, before, after)
    requires FitsNew(j.req, j.phase.nas, pvs) || exists n :: n in before && n.id == j.phase.nas && Fitting(j.req, j.phase.nas, pvs, n)
    ensures FitsNew(j.req, j.phase.nas, pvs) || exists n :: n in after && n.id == j.phase.nas && Fitting(j.req, j.phase.nas, pvs, n)
  {
    if !FitsNew(j.req, j.phase.nas, pvs) {
      var n :| n in before && n.id == j.phase.nas && Fitting(j.req, j.phase.nas, pvs, n);
      if Known(after, n) {
        var m :| m in after && m.id == n.id && m.storage == n.storage;
        assert Fitting(j.req, j.phase.nas, pvs, m);
      } else {
        forall gib | j.req.Gets(gib)
          ensures gib == n.storage.value
        {
          AllocationIsUnique(GbToBytes(j.req.sharedGiB), j.req.typeCode, gib, n.storage.value);
        }
        assert FitsNew(j.req, j.phase.nas, pvs);
      }
    }
  }

  lemma FittingSurvives(c: Config, s: State, instances: seq<Nas>, req: Request, nas: string)
    requires Assumed(c, s, CloudChanges(instances)) && SharedName(c, nas)
    requires forall n :: n in s.instances ==> Fitting(req, nas, s.pvs, n)
    ensures forall n :: n in instances ==> Fitting(req, nas, s.pvs, n)
  {
    forall n | n in instances && n.id == nas
      ensures Fitting(req, nas, s.pvs, n)
    {
      var m :| m in s.instances && m.id == n.id && m.storage == n.storage;
      assert Fitting(req, nas, s.pvs, m);
    }
  }

  // ---------- every step, every run ----------

  /** The steps of the request that has the slot. */
  predicate Working(e: Event) {
    e.ReadReserved? || e.ReadName? || e.ChooseNew? || e.CheckRoom? || e.Provision? || e.Respond? || e.PvAppears?
  }

  lemma WorkingKeepsInv(c: Config, s: State, e: Event)
    requires Inv(c, s) && Enabled(c, s, e) && Assumed(c, s, e) && Working(e)
    ensures Inv(c, Next(c, s, e))
  {
    match e {
      case ReadReserved(id) => ReadReservedKeepsInv(c, s, id);
      case ReadName(id) => ReadNameKeepsInv(c, s, id);
      case ChooseNew(id, suffix) => ChooseNewKeepsInv(c, s, id, suffix);
      case CheckRoom(id) => CheckRoomKeepsInv(c, s, id);
      case Provision(id, gib) => ProvisionKeepsInv(c, s, id, gib);
      case Respond(id) => MovedKeepsInv(c, s, id, Responded(s.jobs[id].phase.nas));
      case PvAppears(id, k) => PvAppearsKeepsInv(c, s, id, k);
    }
  }

  lemma StepKeepsInv(c: Config, s: State, e: Event)
    requires Inv(c, s) && Enabled(c, s, e) && Assumed(c, s, e)
    ensures Inv(c, Next(c, s, e))
  {
    if Working(e) {
      WorkingKeepsInv(c, s, e);
    } else {
      match e {
        case Enter(f) => EnterKeepsInv(c, s, f);
        case Begin(id, req) => BeginKeepsInv(c, s, id, req);
        case Fail(id) => LeaveKeepsInv(c, s, e);
        case PvAdded(name) => LeaveKeepsInv(c, s, e);
        case RemovePv(k) => RemovePvKeepsInv(c, s, k);
        case AddOtherPv(k, pv) => AddOtherPvKeepsInv(c, s, k, pv);
        case CloudChanges(instances) => CloudChangesKeepsInv(c, s, instances);
      }
    }
  }

  /** The controller starts with empty queues over volumes and instances that already fit. */
  ghost predicate Init(c: Config, s: State) {
    c.Good() && s.flight == F.INIT && s.jobs == map[] && ListsInv(c, s.pvs, s.instances)
  }

  /** A run with volumes of any size, and in which any instance may be deleted at any time. */
  ghost predicate IsPlausibleRun(c: Config, run: seq<State>, events: seq<Event>) {
    && |run| == |events| + 1 && Init(c, run[0])
    && forall i :: 0 <= i < |events| ==>
         Enabled(c, run[i], events[i]) && Plausible(c, run[i], events[i]) && run[i + 1] == Next(c, run[i], events[i])
  }

  /** A run in which the sizes are as relied on. */
  ghost predicate IsRun(c: Config, run: seq<State>, events: seq<Event>) {
    IsPlausibleRun(c, run, events) && forall i :: 0 <= i < |events| ==> Sized(run[i], events[i])
  }

  lemma {:induction false} RunKeepsInv(c: Config, run: seq<State>, events: seq<Event>, k: nat)
    requires IsRun(c, run, events) && k < |run|
    ensures Inv(c, run[k])
  {
    if k == 0 {
      F.InitInv();
    } else {
      RunKeepsInv(c, run, events, k - 1);
      StepKeepsInv(c, run[k - 1], events[k - 1]);
    }
  }

  /** In every run, at every moment, the volumes on each shared instance fit on it. */
  lemma CapacityInEveryRun(c: Config, run: seq<State>, events: seq<Event>, k: nat, n: Nas)
    requires IsRun(c, run, events) && k < |run|
    requires n in run[k].instances && Contains(n.id, c.Base())
    ensures SumOn(run[k].pvs, n.id) <= CapacityBytes(n)
  {
    RunKeepsInv(c, run, events, k);
  }

  // ---------- an undisturbed search is the first fit ----------

  ghost function ListsFor(c: Config, s: State, req: Request): (l: Lists) {
    Lists(s.pvs, s.instances, c.clusterUID, req.instanceType)
  }

  /** What the request has found out so far, in terms of the lists. */
  ghost predicate Searched(l: Lists, capBytes: int, phase: Phase) {
    match phase
    case Scanning(i) => ValidIndex(i) && l.FullBefore(i, capBytes)
    case Reserved(i, bytes) =>
      && ValidIndex(i) && l.FullBefore(i, capBytes)
      && bytes == ReservedCap(l.pvs, IndexPrefix(l.clusterUID, l.instanceType, i))
    case Named(i, bytes, nas) =>
      && ValidIndex(i) && l.FullBefore(i, capBytes)
      && bytes == ReservedCap(l.pvs, IndexPrefix(l.clusterUID, l.instanceType, i)) != 0
      && NameFromPv(l.pvs, IndexPrefix(l.clusterUID, l.instanceType, i)) == Some(nas)
    case Placed(nas) => exists i, suffix :: PlacedAt(l, capBytes, suffix, i, nas)
    case _ => false
  }

  predicate Searches(e: Event, id: nat) {
    (e.ReadReserved? || e.ReadName? || e.ChooseNew? || e.CheckRoom?) && e.id == id
  }

  lemma ChooseNewIsPlace(l: Lists, capBytes: int, i: nat, bytes: int, suffix: string)
    requires Searched(l, capBytes, Reserved(i, bytes)) && bytes == 0
    ensures Searched(l, capBytes, Placed(NameFor(Empty, l.instances, IndexPrefix(l.clusterUID, l.instanceType, i), suffix)))
  {
    assert PlacedAt(l, capBytes, suffix, i, NameFor(Empty, l.instances, IndexPrefix(l.clusterUID, l.instanceType, i), suffix));
  }

  lemma RoomIsPlace(l: Lists, capBytes: int, i: nat, bytes: int, nas: string, n: Nas)
    requires Searched(l, capBytes, Named(i, bytes, nas)) && Lookup(l.instances, nas) == Some(n)
    ensures capBytes <= CapacityBytes(n) - bytes ==> Searched(l, capBytes, Placed(nas))
    ensures capBytes > CapacityBytes(n) - bytes && i < MAX_SHARED ==> Searched(l, capBytes, Scanning(i + 1))
  {
    assert l.Slot(i) == Room(nas, CapacityBytes(n) - bytes);
    if capBytes <= CapacityBytes(n) - bytes {
      assert PlacedAt(l, capBytes, "", i, nas);
    }
  }

  lemma SearchStep(c: Config, s: State, e: Event, id: nat)
    requires Enabled(c, s, e) && Searches(e, id) && Searched(ListsFor(c, s, s.jobs[id].req), s.jobs[id].req.capBytes, s.jobs[id].phase)
    ensures var t := Next(c, s, e);
            && t.pvs == s.pvs && t.instances == s.instances && id in t.jobs && t.jobs[id].req == s.jobs[id].req
            && Searched(ListsFor(c, s, s.jobs[id].req), s.jobs[id].req.capBytes, t.jobs[id].phase)
  {
    var j := s.jobs[id];
    var l := ListsFor(c, s, j.req);
    match e {
      case ChooseNew(_, suffix) => ChooseNewIsPlace(l, j.req.capBytes, j.phase.i, j.phase.bytes, suffix);
      case CheckRoom(_) =>
        RoomIsPlace(l, j.req.capBytes, j.phase.i, j.phase.bytes, j.phase.nas, Lookup(s.instances, j.phase.nas).value);
      case _ =>
    }
  }

  /** A request that begins its search and is not disturbed chooses the first fit, step by step as in one loop. */
  lemma {:induction false} UndisturbedSearchIsFirstFit(c: Config, run: seq<State>, events: seq<Event>, id: nat, k: nat)
    requires |run| == |events| + 1 && k <= |events| && id in run[0].jobs && run[0].jobs[id].phase == Scanning(1)
    requires forall i :: 0 <= i < |events| ==>
               Searches(events[i], id) && Enabled(c, run[i], events[i]) && run[i + 1] == Next(c, run[i], events[i])
    ensures id in run[k].jobs && run[k].jobs[id].req == run[0].jobs[id].req
    ensures ListsFor(c, run[k], run[0].jobs[id].req) == ListsFor(c, run[0], run[0].jobs[id].req)
    ensures Searched(ListsFor(c, run[0], run[0].jobs[id].req), run[0].jobs[id].req.capBytes, run[k].jobs[id].phase)
  {
    if k > 0 {
      UndisturbedSearchIsFirstFit(c, run, events, id, k - 1);
      SearchStep(c, run[k - 1], events[k - 1], id);
    }
  }

  // ---------- when the assumptions on sizes are needed ----------

  /** The request creates its instance, answers, and its volume is recorded. */
  ghost function Recorded(c: Config, s: State, id: nat, gib: int, k: nat): (t: State)
    requires Enabled(c, s, Provision(id, gib)) && k <= |s.pvs|
  {
    Next(c, Next(c, Next(c, s, Provision(id, gib)), Respond(id)), PvAppears(id, k))
  }

  lemma RecordedIs(c: Config, s: State, id: nat, gib: int, k: nat)
    requires Enabled(c, s, Provision(id, gib)) && k <= |s.pvs| && Lookup(s.instances, s.jobs[id].phase.nas).None?
    ensures var t, j := Recorded(c, s, id, gib, k), s.jobs[id];
            && t.instances == s.instances + [Nas(j.phase.nas, false, Some(gib))]
            && t.pvs == s.pvs[..k] + [NewPv(c, j.req, j.phase.nas)] + s.pvs[k..]
  {
  }

  /** What the new volume adds to an instance. */
  lemma SumOnNew(c: Config, req: Request, nas: string, pvs: seq<PV>, k: nat, id: string)
    requires c.Good() && req.Plain(c) && SlashFree(nas) && k <= |pvs|
    ensures SumOn(pvs[..k] + [NewPv(c, req, nas)] + pvs[k..], id) == SumOn(pvs, id) + if id == nas then req.capBytes else 0
  {
    var pv := NewPv(c, req, nas);
    HandleSplits(c.region, nas, Some(req.name));
    SumIfSplit(pvs[..k], pv, pvs[k..], On(id));
    assert pvs == pvs[..k] + pvs[k..];
    assert On(id)(pv) == OnNas(pv, id) == (id == nas);
  }

  /**
   When the chosen instance does not exist, be it new or deleted meanwhile, creating it and recording the volume
   keeps every shared instance within its capacity if and only if the volume and what is listed on the instance
   fit on the new one; for the first volume, if and only if nine allocation steps hold it.
   */
  lemma NewInstanceFitsIff(c: Config, s: State, id: nat, gib: int, k: nat)
    requires c.Good() && ListsInv(c, s.pvs, s.instances) && Enabled(c, s, Provision(id, gib)) && k <= |s.pvs|
    requires var j := s.jobs[id]; j.req.Plain(c) && SharedName(c, j.phase.nas) && Lookup(s.instances, j.phase.nas).None?
    ensures var t, j := Recorded(c, s, id, gib, k), s.jobs[id];
            && (WithinCapacity(c, t.pvs, t.instances) <==> SumOn(s.pvs, j.phase.nas) + j.req.capBytes <= GbToBytes(gib))
            && (SumOn(s.pvs, j.phase.nas) == 0 && j.req.capBytes <= GbToBytes(j.req.sharedGiB) ==>
                  (WithinCapacity(c, t.pvs, t.instances) <==> j.req.InSteps()))
  {
    var t, j := Recorded(c, s, id, gib, k), s.jobs[id];
    var created := Nas(j.phase.nas, false, Some(gib));
    RecordedIs(c, s, id, gib, k);
    forall n | n in t.instances
      ensures SumOn(t.pvs, n.id) == SumOn(s.pvs, n.id) + if n == created then j.req.capBytes else 0
    {
      SumOnNew(c, j.req, j.phase.nas, s.pvs, k, n.id);
    }
    assert created in t.instances;
    if j.req.capBytes <= GbToBytes(j.req.sharedGiB) {
      FirstVolumeFitsIff(j.req, gib);
    }
  }

  lemma Extend(c: Config, run: seq<State>, events: seq<Event>, e: Event) returns (run': seq<State>, events': seq<Event>)
    requires IsPlausibleRun(c, run, events) && Enabled(c, run[|events|], e) && Plausible(c, run[|events|], e)
    ensures IsPlausibleRun(c, run', events') && |events'| == |events| + 1
    ensures run'[|events'|] == Next(c, run[|events|], e)
  {
    run', events' := run + [Next(c, run[|events|], e)], events + [e];
  }

  /** The only request in flight, over these lists. */
  ghost function Alone(req: Request, phase: Phase, pvs: seq<PV>, instances: seq<Nas>): (s: State) {
    State(F.State(F.Q.State(map[req.name := true], true, None), map[0 := F.Call(req.name, F.Holding)]),
          map[0 := Job(req, phase)], pvs, instances)
  }

  /** It gets the slot. */
  lemma GetsSlot(c: Config, req: Request, pvs: seq<PV>, instances: seq<Nas>) returns (run: seq<State>, events: seq<Event>)
    requires c.Good() && req.Plain(c) && ListsInv(c, pvs, instances)
    ensures IsPlausibleRun(c, run, events) && run[|events|] == Alone(req, Scanning(1), pvs, instances)
  {
    run, events := [State(F.INIT, map[], pvs, instances)], [];
    run, events := Extend(c, run, events, Enter(F.Arrive(0, req.name)));
    run, events := Extend(c, run, events, Enter(F.LockReturns(0)));
    run, events := Extend(c, run, events, Begin(0, req));
    assert run[|events|].flight.queue.resources == map[req.name := true];
    assert run[|events|].flight.calls == map[0 := F.Call(req.name, F.Holding)];
  }

  /** In an empty cluster it chooses a new instance of number 1. */
  lemma ChoosesFirst(c: Config, req: Request, suffix: string) returns (run: seq<State>, events: seq<Event>)
    requires c.Good() && req.Plain(c) && SlashFree(suffix) && req.capBytes <= GbToBytes(req.sharedGiB)
    ensures IsPlausibleRun(c, run, events) && run[|events|] == Alone(req, Placed(req.Prefix(c, 1) + "-" + suffix), [], [])
  {
    run, events := GetsSlot(c, req, [], []);
    run, events := Extend(c, run, events, ReadReserved(0));
    assert run[|events|] == Alone(req, Reserved(1, 0), [], []);
    run, events := Extend(c, run, events, ChooseNew(0, suffix));
  }

  /**
   Without the bound on volumes: every plain request for a volume that the instance size admits but nine
   allocation steps do not hold has a run, from an empty cluster, that overfills its own new instance.
   */
  lemma OversizedOverfills(c: Config, req: Request, suffix: string) returns (run: seq<State>, events: seq<Event>)
    requires c.Good() && req.Plain(c) && SlashFree(suffix) && req.capBytes <= GbToBytes(req.sharedGiB) && !req.InSteps()
    ensures IsPlausibleRun(c, run, events)
    ensures var s, nas := run[|events|], req.Prefix(c, 1) + "-" + suffix;
            && s.pvs == [NewPv(c, req, nas)] && s.instances == [Nas(nas, false, Some(MAX_STEPS * Unit(req.typeCode)))]
            && !WithinCapacity(c, s.pvs, s.instances)
  {
    var nas, gib := req.Prefix(c, 1) + "-" + suffix, MAX_STEPS * Unit(req.typeCode);
    run, events := ChoosesFirst(c, req, suffix);
    var s := run[|events|];
    NewNameIsShared(c, req, suffix);
    OversizedGets(req);
    NewInstanceFitsIff(c, s, 0, gib, 0);
    RecordedIs(c, s, 0, gib, 0);
    run, events := RecordsVolume(c, run, events, 0, gib, 0);
  }

  lemma OversizedGets(req: Request)
    requires req.capBytes <= GbToBytes(req.sharedGiB) && !req.InSteps()
    ensures req.Gets(MAX_STEPS * Unit(req.typeCode))
  {
    assert IsSteps(GbToBytes(req.sharedGiB), req.typeCode, MAX_STEPS);
  }

  lemma RecordsVolume(c: Config, run: seq<State>, events: seq<Event>, id: nat, gib: int, k: nat)
    returns (run': seq<State>, events': seq<Event>)
    requires IsPlausibleRun(c, run, events) && Enabled(c, run[|events|], Provision(id, gib)) && k <= |run[|events|].pvs|
    ensures IsPlausibleRun(c, run', events') && run'[|events'|] == Recorded(c, run[|events|], id, gib, k)
  {
    run', events' := Extend(c, run, events, Provision(id, gib));
    run', events' := Extend(c, run', events', Respond(id));
    run', events' := Extend(c, run', events', PvAppears(id, k));
  }

  lemma NewNameIsShared(c: Config, req: Request, suffix: string)
    requires c.Good() && req.Plain(c) && SlashFree(suffix)
    ensures SharedName(c, req.Prefix(c, 1) + "-" + suffix) && Contains(req.Prefix(c, 1) + "-" + suffix, req.Prefix(c, 1))
  {
    var prefix := req.Prefix(c, 1);
    PrefixIsPlain(c, req, 1);
    BaseInPrefix(c, req.instanceType, 1);
    ContainsPrefix(prefix, "-" + suffix);
    assert prefix + "-" + suffix == prefix + ("-" + suffix);
    ContainsTransitive(prefix + "-" + suffix, prefix, c.Base());
  }

  /** For instance, 950 GiB go on an instance that was sized for 1000 and got 900. */
  lemma OversizedInstanceFallsShort(c: Config, name: string, suffix: string) returns (run: seq<State>, events: seq<Event>)
    requires c.Good() && SlashFree(name) && !Contains(name, c.Base()) && SlashFree(suffix)
    ensures IsPlausibleRun(c, run, events)
    ensures var s := run[|events|];
            && |s.pvs| == |s.instances| == 1 && CapOf(s.pvs[0]) == GbToBytes(950) && s.instances[0].storage == Some(900)
            && !WithinCapacity(c, s.pvs, s.instances)
  {
    run, events := OversizedOverfills(c, Request.Request(name, GbToBytes(950), 1000, "0", 0), suffix);
  }

  /** One volume on a shared instance. */
  lemma OneVolume(c: Config, prior: Request, nas: string)
    requires c.Good() && prior.Plain(c) && SharedName(c, nas)
    ensures NoStrays(c, [NewPv(c, prior, nas)]) && SumOn([NewPv(c, prior, nas)], nas) == prior.capBytes
  {
    var pv, none: seq<PV> := NewPv(c, prior, nas), [];
    HandleSplits(c.region, nas, Some(prior.name));
    SumOnNew(c, prior, nas, none, 0, nas);
    assert none[..0] + [pv] + none[0..] == [pv];
    assert Ours(c, pv);
  }

  /** The search finds it by the prefix. */
  lemma OneVolumeFound(c: Config, prior: Request, nas: string, prefix: string)
    requires c.Good() && prior.Plain(c) && SlashFree(nas) && Contains(nas, prefix)
    ensures ReservedCap([NewPv(c, prior, nas)], prefix) == prior.capBytes
    ensures NameFromPv([NewPv(c, prior, nas)], prefix) == Some(nas)
  {
    var pv := NewPv(c, prior, nas);
    HandleSplits(c.region, nas, Some(prior.name));
    OnMentions(pv, nas, prefix);
    SumIfSplit([], pv, [], Mentioning(prefix));
    assert [] + [pv] + [] == [pv] && Mentioning(prefix)(pv);
  }

  // The steps of a request that is alone, one by one.

  lemma AloneReadsReserved(c: Config, req: Request, pvs: seq<PV>, instances: seq<Nas>)
    requires req.capBytes <= GbToBytes(req.sharedGiB)
    ensures var s, e := Alone(req, Scanning(1), pvs, instances), ReadReserved(0);
            Enabled(c, s, e) && Next(c, s, e) == Alone(req, Reserved(1, ReservedCap(pvs, req.Prefix(c, 1))), pvs, instances)
  {
  }

  lemma AloneReadsName(c: Config, req: Request, pvs: seq<PV>, instances: seq<Nas>, bytes: int, nas: string)
    requires bytes != 0 && NameFromPv(pvs, req.Prefix(c, 1)) == Some(nas)
    ensures var s, e := Alone(req, Reserved(1, bytes), pvs, instances), ReadName(0);
            Enabled(c, s, e) && Next(c, s, e) == Alone(req, Named(1, bytes, nas), pvs, instances)
  {
  }

  lemma AloneFindsRoom(c: Config, req: Request, pvs: seq<PV>, bytes: int, n: Nas)
    requires req.capBytes <= CapacityBytes(n) - bytes
    ensures var s, e := Alone(req, Named(1, bytes, n.id), pvs, [n]), CheckRoom(0);
            Enabled(c, s, e) && Next(c, s, e) == Alone(req, Placed(n.id), pvs, [n])
  {
    assert Lookup([n], n.id) == Some(n);
  }

  lemma AloneLosesInstances(c: Config, req: Request, phase: Phase, pvs: seq<PV>, instances: seq<Nas>)
    ensures var s, e := Alone(req, phase, pvs, instances), CloudChanges([]);
            Enabled(c, s, e) && Plausible(c, s, e) && Next(c, s, e) == Alone(req, phase, pvs, [])
  {
  }

  /** A request of the same type finds room there and chooses it. */
  lemma ChoosesExisting(c: Config, req: Request, pvs: seq<PV>, n: Nas) returns (run: seq<State>, events: seq<Event>)
    requires c.Good() && req.Plain(c) && ListsInv(c, pvs, [n]) && req.capBytes <= GbToBytes(req.sharedGiB)
    requires var bytes := ReservedCap(pvs, req.Prefix(c, 1)); bytes != 0 && req.capBytes <= CapacityBytes(n) - bytes
    requires NameFromPv(pvs, req.Prefix(c, 1)) == Some(n.id)
    ensures IsPlausibleRun(c, run, events) && run[|events|] == Alone(req, Placed(n.id), pvs, [n])
  {
    var bytes := ReservedCap(pvs, req.Prefix(c, 1));
    AloneReadsReserved(c, req, pvs, [n]);
    AloneReadsName(c, req, pvs, [n], bytes, n.id);
    AloneFindsRoom(c, req, pvs, bytes, n);
    run, events := GetsSlot(c, req, pvs, [n]);
    run, events := Extend(c, run, events, ReadReserved(0));
    run, events := Extend(c, run, events, ReadName(0));
    run, events := Extend(c, run, events, CheckRoom(0));
  }

  /** And then the instance is deleted, although a volume is listed on it. */
  lemma ChosenIsDeleted(c: Config, prior: Request, req: Request, suffix: string, storage: int)
    returns (run: seq<State>, events: seq<Event>)
    requires c.Good() && prior.Plain(c) && req.Plain(c) && SlashFree(suffix)
    requires 0 < prior.capBytes && prior.capBytes + req.capBytes <= GbToBytes(storage) && req.capBytes <= GbToBytes(req.sharedGiB)
    ensures var nas := req.Prefix(c, 1) + "-" + suffix;
            IsPlausibleRun(c, run, events) && run[|events|] == Alone(req, Placed(nas), [NewPv(c, prior, nas)], [])
  {
    var nas := req.Prefix(c, 1) + "-" + suffix;
    var pvs, n := [NewPv(c, prior, nas)], Nas(nas, false, Some(storage));
    NewNameIsShared(c, req, suffix);
    OneVolume(c, prior, nas);
    OneVolumeFound(c, prior, nas, req.Prefix(c, 1));
    run, events := ChoosesExisting(c, req, pvs, n);
    AloneLosesInstances(c, req, Placed(nas), pvs, [n]);
    run, events := Extend(c, run, events, CloudChanges([]));
  }

  /** The volume is created on a new instance of that name, and the volume that is listed there does not fit beside it. */
  lemma AloneOverfills(c: Config, prior: Request, req: Request, nas: string, gib: int)
    requires c.Good() && prior.Plain(c) && req.Plain(c) && SharedName(c, nas)
    requires req.Gets(gib) && prior.capBytes + req.capBytes > GbToBytes(gib)
    ensures var s := Alone(req, Placed(nas), [NewPv(c, prior, nas)], []);
            && Enabled(c, s, Provision(0, gib))
            && var t := Recorded(c, s, 0, gib, 0);
            && t.pvs == [NewPv(c, req, nas), NewPv(c, prior, nas)] && t.instances == [Nas(nas, false, Some(gib))]
            && !WithinCapacity(c, t.pvs, t.instances)
  {
    var pvs := [NewPv(c, prior, nas)];
    var s := Alone(req, Placed(nas), pvs, []);
    OneVolume(c, prior, nas);
    NewInstanceFitsIff(c, s, 0, gib, 0);
    RecordedIs(c, s, 0, gib, 0);
    assert pvs[..0] + [NewPv(c, req, nas)] + pvs[0..] == [NewPv(c, req, nas)] + pvs;
  }

  /**
   Without sparing the chosen instance: whenever a new one, of the size that the request asks for, does not hold
   the volume beside the one that is listed, there is a run in which the instance is deleted after it was chosen,
   created anew, and overfilled.
   */
  lemma DeletedInstanceOverfills(c: Config, prior: Request, req: Request, suffix: string, storage: int, gib: int)
    returns (run: seq<State>, events: seq<Event>)
    requires c.Good() && prior.Plain(c) && req.Plain(c) && SlashFree(suffix)
    requires 0 < prior.capBytes && prior.capBytes + req.capBytes <= GbToBytes(storage) && req.capBytes <= GbToBytes(req.sharedGiB)
    requires req.Gets(gib) && prior.capBytes + req.capBytes > GbToBytes(gib)
    ensures IsPlausibleRun(c, run, events)
    ensures var s, nas := run[|events|], req.Prefix(c, 1) + "-" + suffix;
            && s.pvs == [NewPv(c, req, nas), NewPv(c, prior, nas)] && s.instances == [Nas(nas, false, Some(gib))]
            && !WithinCapacity(c, s.pvs, s.instances)
  {
    NewNameIsShared(c, req, suffix);
    AloneOverfills(c, prior, req, req.Prefix(c, 1) + "-" + suffix, gib);
    run, events := ChosenIsDeleted(c, prior, req, suffix, storage);
    run, events := RecordsVolume(c, run, events, 0, gib, 0);
  }

  /** For instance, 100 GiB are placed on 500 GiB beside 400, and end beside them on a new instance of 100. */
  lemma RecreatedInstanceFallsShort(c: Config, a: string, b: string, suffix: string) returns (run: seq<State>, events: seq<Event>)
    requires c.Good() && SlashFree(a) && SlashFree(b) && SlashFree(suffix)
    requires !Contains(a, c.Base()) && !Contains(b, c.Base())
    ensures IsPlausibleRun(c, run, events)
    ensures var s := run[|events|];
            && |s.pvs| == 2 && CapOf(s.pvs[0]) == GbToBytes(100) && CapOf(s.pvs[1]) == GbToBytes(400)
            && |s.instances| == 1 && s.instances[0].storage == Some(100) && !WithinCapacity(c, s.pvs, s.instances)
  {
    var prior, req := Request.Request(a, GbToBytes(400), 500, "0", 0), Request.Request(b, GbToBytes(100), 100, "0", 0);
    assert IsSteps(GbToBytes(100), 0, 1);
    run, events := DeletedInstanceOverfills(c, prior, req, suffix, 500, 100);
  }
}
