/**
 Shared DeleteVolume requests as a whole system, seen from one shared instance (pkg/driver/controller.go).

 A request removes its directory, asks whether any other volume is on the instance, and deletes the instance
 if there is none.  It keeps the slot of the deleting queue until its volume has left the list.
 */
module SharedDelete {
  import opened SharedNas
  import opened Strings
  import opened VolumeHandle
  import opened Wrappers
  import F = InFlight
  import SharedCreate

  /** Before the look at the list, after it, after the answer, and with the volume gone but the event not yet handled. */
  datatype Phase = Removing | Checked(mustDelete: bool) | Responded | Gone

  datatype Job = Job(volume: string, nas: string, phase: Phase)

  /** deleted counts the successful DeleteNasInstance calls for each instance. */
  datatype State = State(flight: F.State, jobs: map<nat, Job>, pvs: seq<PV>, instances: set<string>, deleted: multiset<string>)

  datatype Event =
    | Enter(e: F.Event)                        // a step of a request that does not have the slot
    | Begin(id: nat, volume: string, nas: string)
    | Check(id: nat)
    | DeleteNas(id: nat)
    | Keep(id: nat)
    | Fail(id: nat)                            // any error exit
    | PvGone(id: nat, k: nat)                  // the provisioner removes the volume after the answer
    | PvDeleted(name: string)                  // the informer event
    | RemoveOrphan(k: nat)                     // a volume whose instance is gone is let go without queueing
    | LookupFails(k: nat)                      // and so is one whose instance cannot be looked up, for any other reason
    | AddPv(k: nat, pv: PV)
    | RemovePv(k: nat)
    | AddNas(nas: string)

  predicate Has(s: State, id: nat) {
    id in s.jobs && F.At(s.flight, id, F.Holding)
  }

  ghost predicate OnNas(pv: PV, nas: string) {
    SharedCreate.OnNas(pv, nas)
  }

  /** noOtherPvsInSharedNas answers, and with this answer. */
  ghost predicate NoOthers(pvs: seq<PV>, volume: string, nas: string) {
    forall pv :: pv in pvs && Mentions(pv, nas) ==> pv.name == volume
  }

  ghost predicate Found(pvs: seq<PV>, nas: string) {
    exists pv :: pv in pvs && Mentions(pv, nas)
  }

  ghost predicate Enabled(s: State, e: Event) {
    match e
    case Enter(f) => F.Outside(f) && F.Enabled(s.flight, f)
    case Begin(id, volume, nas) => F.Enabled(s.flight, F.Marked(id)) && s.flight.calls[id].name == volume
    case Check(id) => Has(s, id) && s.jobs[id].phase.Removing? && Found(s.pvs, s.jobs[id].nas)
    case DeleteNas(id) => Has(s, id) && s.jobs[id].phase == Checked(true)
    case Keep(id) => Has(s, id) && s.jobs[id].phase == Checked(false)
    case Fail(id) => Has(s, id) && (s.jobs[id].phase.Removing? || s.jobs[id].phase.Checked?)
    case PvGone(id, k) => Has(s, id) && s.jobs[id].phase.Responded? && k < |s.pvs| && s.pvs[k].name == s.jobs[id].volume
    case PvDeleted(name) => true
    case RemoveOrphan(k) => k < |s.pvs| && exists nas :: OnNas(s.pvs[k], nas) && nas !in s.instances
    case LookupFails(k) => k < |s.pvs|
    case AddPv(k, pv) => k <= |s.pvs|
    case RemovePv(k) => k < |s.pvs|
    case AddNas(nas) => true
  }

  ghost function Moved(s: State, id: nat, phase: Phase): (t: State)
    requires id in s.jobs
  {
    s.(jobs := s.jobs[id := s.jobs[id].(phase := phase)])
  }

  ghost function Next(s: State, e: Event): (t: State)
    requires Enabled(s, e)
  {
    match e
    case Enter(f) => s.(flight := F.Next(s.flight, f))
    case Begin(id, volume, nas) =>
      s.(flight := F.Next(s.flight, F.Marked(id)), jobs := s.jobs[id := Job(volume, nas, Removing)])
    case Check(id) => Moved(s, id, Checked(NoOthers(s.pvs, s.jobs[id].volume, s.jobs[id].nas)))
    case DeleteNas(id) =>
      var nas := s.jobs[id].nas;
      Moved(s, id, Responded).(instances := s.instances - {nas}, deleted := s.deleted + multiset{nas})
    case Keep(id) => Moved(s, id, Responded)
    case Fail(id) => s.(flight := F.Next(s.flight, F.Exit(id)), jobs := s.jobs - {id})
    case PvGone(id, k) => Moved(s, id, Gone).(pvs := s.pvs[..k] + s.pvs[k + 1..])
    case PvDeleted(name) =>
      s.(flight := F.Next(s.flight, F.Finished(name)),
         jobs := map id | id in s.jobs && s.jobs[id].volume != name :: s.jobs[id])
    case RemoveOrphan(k) => s.(pvs := s.pvs[..k] + s.pvs[k + 1..])
    case LookupFails(k) => s.(pvs := s.pvs[..k] + s.pvs[k + 1..])
    case AddPv(k, pv) => s.(pvs := s.pvs[..k] + [pv] + s.pvs[k..])
    case RemovePv(k) => s.(pvs := s.pvs[..k] + s.pvs[k + 1..])
    case AddNas(nas) => s.(instances := s.instances + {nas})
  }

  /**
   What is relied on, for the instance n: no deferred UnsetQueue comes upon the call in progress; a volume of the
   name in a request is listed on the instance in the request or not at all; no volume is created on n; volumes on
   n leave the list only after their DeleteVolume was answered, and are reported only after that; nobody else
   creates n again.
   */
  ghost predicate Plausible(n: string, s: State, e: Event) {
    match e
    case Enter(f) => F.Harmless(s.flight, f)
    case Begin(id, volume, nas) => forall pv :: pv in s.pvs && pv.name == volume ==> OnNas(pv, nas)
    case PvDeleted(name) =>
      forall id :: id in s.jobs && s.jobs[id].volume == name ==>
        s.jobs[id].phase.Gone? || (s.jobs[id].phase.Responded? && forall pv :: pv in s.pvs ==> pv.name != name)
    case AddPv(k, pv) => !Mentions(pv, n) && forall p :: p in s.pvs ==> p.name != pv.name
    case RemovePv(k) => k < |s.pvs| && !Mentions(s.pvs[k], n)
    case AddNas(nas) => nas != n
    case _ => true
  }

  /** And a failed lookup, which is answered with success, does not let go a volume that the instance needs. */
  ghost predicate Assumed(n: string, s: State, e: Event) {
    Plausible(n, s, e) && (e.LookupFails? && e.k < |s.pvs| ==> Spares(n, s, e.k))
  }

  /**
   Without volume k, a volume is left on an existing instance n; another one than that of a request which has seen
   that there is another, and so will not delete n.
   */
  ghost predicate Spares(n: string, s: State, k: nat)
    requires k < |s.pvs|
  {
    n in s.instances && Mentions(s.pvs[k], n) ==>
      var rest := s.pvs[..k] + s.pvs[k + 1..];
      && Found(rest, n)
      && forall id :: id in s.jobs && Keeps(n, s.jobs[id]) ==> Others(rest, s.jobs[id].volume, n)
  }

  predicate Keeps(n: string, j: Job) {
    j.nas == n && (j.phase == Checked(false) || j.phase.Responded?)
  }

  /** Volume names are unique, and only volumes on n mention n. */
  ghost predicate GoodList(n: string, pvs: seq<PV>) {
    && (forall i, j :: 0 <= i < j < |pvs| ==> pvs[i].name != pvs[j].name)
    && (forall pv :: pv in pvs && Mentions(pv, n) ==> OnNas(pv, n))
  }

  /** Another volume than this one is on n. */
  ghost predicate Others(pvs: seq<PV>, volume: string, n: string) {
    exists pv :: pv in pvs && Mentions(pv, n) && pv.name != volume
  }

  /** What the request in progress knows about n. */
  ghost predicate JobInv(n: string, j: Job, pvs: seq<PV>, present: bool) {
    && (forall pv :: pv in pvs && pv.name == j.volume && Mentions(pv, n) ==> j.nas == n)
    && (j.nas == n && present ==>
          match j.phase
          case Removing => true
          case Checked(mustDelete) => if mustDelete then NoOthers(pvs, j.volume, n) else Others(pvs, j.volume, n)
          case Responded => Others(pvs, j.volume, n)
          case Gone => true)
    && (j.nas == n && !present ==> !j.phase.Checked?)
    && (j.nas == n && !present ==> if j.phase.Responded? then NoOthers(pvs, j.volume, n) else !Found(pvs, n))
  }

  /**
   The instance is deleted once, when its last volume is; until then it exists and has a volume, and
   afterwards only the volume whose request deleted it can still be in the list.
   */
  ghost predicate DataInv(n: string, job: Option<Job>, pvs: seq<PV>, instances: set<string>, deleted: multiset<string>) {
    && GoodList(n, pvs)
    && (n in instances ==> deleted[n] == 0 && Found(pvs, n))
    && (n !in instances ==> deleted[n] == 1)
    && (n !in instances && Found(pvs, n) ==> job.Some? && job.value.nas == n)
    && (job.Some? ==> JobInv(n, job.value, pvs, n in instances))
  }

  ghost predicate FlightInv(s: State) {
    && F.Inv(s.flight)
    && (forall id :: id in s.jobs <==> F.At(s.flight, id, F.Holding))
    && (forall id :: id in s.jobs ==> s.flight.calls[id].name == s.jobs[id].volume)
  }

  /** The request in progress, if there is one. */
  ghost function TheJob(jobs: map<nat, Job>): (j: Option<Job>) {
    if jobs == map[] then None else
      var id :| id in jobs;
      Some(jobs[id])
  }

  ghost predicate Inv(n: string, s: State) {
    FlightInv(s) && DataInv(n, TheJob(s.jobs), s.pvs, s.instances, s.deleted)
  }

  lemma SoleJob(s: State, id: nat)
    requires FlightInv(s) && id in s.jobs
    ensures TheJob(s.jobs) == Some(s.jobs[id])
  {
    forall k | k in s.jobs
      ensures k == id
    {
      F.AtMostOneActive(s.flight, k, id);
    }
  }

  // ---------- what each step does to the data ----------

  lemma BeginData(n: string, d: State, volume: string, nas: string)
    requires DataInv(n, None, d.pvs, d.instances, d.deleted)
    requires forall pv :: pv in d.pvs && pv.name == volume ==> OnNas(pv, nas)
    ensures DataInv(n, Some(Job(volume, nas, Removing)), d.pvs, d.instances, d.deleted)
  {
  }

  lemma CheckData(n: string, d: State, j: Job)
    requires DataInv(n, Some(j), d.pvs, d.instances, d.deleted) && j.phase.Removing? && Found(d.pvs, j.nas)
    ensures DataInv(n, Some(j.(phase := Checked(NoOthers(d.pvs, j.volume, j.nas)))), d.pvs, d.instances, d.deleted)
  {
  }

  lemma DeleteData(n: string, d: State, j: Job)
    requires DataInv(n, Some(j), d.pvs, d.instances, d.deleted) && j.phase == Checked(true)
    ensures DataInv(n, Some(j.(phase := Responded)), d.pvs, d.instances - {j.nas}, d.deleted + multiset{j.nas})
    ensures j.nas == n ==> n in d.instances && d.deleted[n] == 0 && NoOthers(d.pvs, j.volume, n)
  {
  }

  lemma LeaveData(n: string, d: State, j: Job)
    requires DataInv(n, Some(j), d.pvs, d.instances, d.deleted)
    requires !j.phase.Responded? || forall pv :: pv in d.pvs ==> pv.name != j.volume
    ensures DataInv(n, None, d.pvs, d.instances, d.deleted)
  {
  }

  lemma GoneData(n: string, d: State, j: Job, k: nat)
    requires DataInv(n, Some(j), d.pvs, d.instances, d.deleted) && j.phase.Responded?
    requires k < |d.pvs| && d.pvs[k].name == j.volume
    ensures DataInv(n, Some(j.(phase := Gone)), d.pvs[..k] + d.pvs[k + 1..], d.instances, d.deleted)
  {
    var pvs := d.pvs[..k] + d.pvs[k + 1..];
    RemovedList(n, d.pvs, k);
    if n in d.instances {
      if j.nas == n {
        var pv :| pv in d.pvs && Mentions(pv, n) && pv.name != j.volume;
        assert pv in pvs;
      } else {
        var pv :| pv in d.pvs && Mentions(pv, n);
        assert pv.name != j.volume;
        assert pv in pvs;
      }
    }
  }

  /** The list without entry k: the rest, and no longer that name. */
  lemma RemovedList(n: string, pvs: seq<PV>, k: nat)
    requires GoodList(n, pvs) && k < |pvs|
    ensures GoodList(n, pvs[..k] + pvs[k + 1..])
    ensures forall pv :: pv in pvs[..k] + pvs[k + 1..] <==> pv in pvs && pv.name != pvs[k].name
  {
    var rest := pvs[..k] + pvs[k + 1..];
    forall pv
      ensures pv in rest <==> pv in pvs && pv.name != pvs[k].name
    {
      if pv in pvs && pv.name != pvs[k].name {
        var i :| 0 <= i < |pvs| && pvs[i] == pv;
        assert rest[if i < k then i else i - 1] == pv;
      }
      if i :| 0 <= i < |rest| && rest[i] == pv {
        assert pv == pvs[if i < k then i else i + 1];
      }
    }
  }

  /** A change of the list that leaves the volumes on n as they are. */
  lemma OtherVolumesData(n: string, d: State, pvs: seq<PV>)
    requires DataInv(n, TheJob(d.jobs), d.pvs, d.instances, d.deleted) && GoodList(n, pvs)
    requires forall pv :: Mentions(pv, n) ==> (pv in pvs <==> pv in d.pvs)
    ensures DataInv(n, TheJob(d.jobs), pvs, d.instances, d.deleted)
  {
    var job := TheJob(d.jobs);
    assert Found(pvs, n) == Found(d.pvs, n);
    if job.Some? {
      assert NoOthers(pvs, job.value.volume, n) == NoOthers(d.pvs, job.value.volume, n);
      assert Others(pvs, job.value.volume, n) == Others(d.pvs, job.value.volume, n);
    }
  }

  lemma OrphanData(n: string, d: State, k: nat)
    requires DataInv(n, TheJob(d.jobs), d.pvs, d.instances, d.deleted) && Enabled(d, RemoveOrphan(k))
    ensures DataInv(n, TheJob(d.jobs), d.pvs[..k] + d.pvs[k + 1..], d.instances, d.deleted)
  {
    var pvs := d.pvs[..k] + d.pvs[k + 1..];
    RemovedList(n, d.pvs, k);
    if !Mentions(d.pvs[k], n) {
      RemovedOther(n, d.pvs, k);
      OtherVolumesData(n, d, pvs);
    }
  }

  lemma RemovedOther(n: string, pvs: seq<PV>, k: nat)
    requires GoodList(n, pvs) && k < |pvs| && !Mentions(pvs[k], n)
    ensures forall pv :: Mentions(pv, n) ==> (pv in pvs[..k] + pvs[k + 1..] <==> pv in pvs)
  {
    RemovedList(n, pvs, k);
    forall pv | pv in pvs && Mentions(pv, n)
      ensures pv.name != pvs[k].name
    {
      var i :| 0 <= i < |pvs| && pvs[i] == pv;
      assert i != k;
    }
  }

  lemma AddedOther(n: string, pvs: seq<PV>, k: nat, pv: PV)
    requires GoodList(n, pvs) && k <= |pvs| && !Mentions(pv, n) && forall p :: p in pvs ==> p.name != pv.name
    ensures GoodList(n, pvs[..k] + [pv] + pvs[k..])
    ensures forall p :: Mentions(p, n) ==> (p in pvs[..k] + [pv] + pvs[k..] <==> p in pvs)
  {
    var more := pvs[..k] + [pv] + pvs[k..];
    forall i, j | 0 <= i < j < |more|
      ensures more[i].name != more[j].name
    {
      assert more[i] == if i < k then pvs[i] else if i == k then pv else pvs[i - 1];
      assert more[j] == if j < k then pvs[j] else if j == k then pv else pvs[j - 1];
    }
    assert pvs == pvs[..k] + pvs[k..];
    assert forall p :: p in more <==> p in pvs[..k] || p == pv || p in pvs[k..];
  }

  // ---------- every step, every run ----------

  lemma BeginKeepsInv(n: string, s: State, e: Event)
    requires Inv(n, s) && Enabled(s, e) && Assumed(n, s, e) && e.Begin?
    ensures Inv(n, Next(s, e))
  {
    var t := Next(s, e);
    F.StepKeepsInv(s.flight, F.Marked(e.id));
    F.MarkingAddsHolder(s.flight, e.id);
    forall k | k in s.jobs
      ensures k == e.id
    {
      F.AtMostOneActive(s.flight, k, e.id);
    }
    assert s.jobs == map[];
    BeginData(n, s, e.volume, e.nas);
    SoleJob(t, e.id);
  }

  lemma FailKeepsInv(n: string, s: State, id: nat)
    requires Inv(n, s) && Enabled(s, Fail(id))
    ensures Inv(n, Next(s, Fail(id)))
  {
    LeaveFlight(s, Next(s, Fail(id)), F.Exit(id));
    LeavesNoJob(n, s, Next(s, Fail(id)), id);
  }

  /** An exit and a volume event drop from the jobs what they drop from the flight. */
  lemma LeaveFlight(s: State, t: State, f: F.Event)
    requires FlightInv(s) && F.Enabled(s.flight, f) && t.flight == F.Next(s.flight, f)
    requires (f.Exit? && t.jobs == s.jobs - {f.id})
          || (f.Finished? && t.jobs == map id | id in s.jobs && s.jobs[id].volume != f.name :: s.jobs[id])
    ensures FlightInv(t)
  {
    F.StepKeepsInv(s.flight, f);
  }

  lemma PvDeletedKeepsInv(n: string, s: State, name: string)
    requires Inv(n, s) && Assumed(n, s, PvDeleted(name))
    ensures Inv(n, Next(s, PvDeleted(name)))
  {
    var t := Next(s, PvDeleted(name));
    LeaveFlight(s, t, F.Finished(name));
    if id :| id in s.jobs && s.jobs[id].volume == name {
      LeavesNoJob(n, s, t, id);
    } else {
      assert t.jobs == s.jobs;
    }
  }

  lemma LeavesNoJob(n: string, s: State, t: State, id: nat)
    requires Inv(n, s) && id in s.jobs && id !in t.jobs && t.jobs.Keys <= s.jobs.Keys
    requires !s.jobs[id].phase.Responded? || forall pv :: pv in s.pvs ==> pv.name != s.jobs[id].volume
    ensures DataInv(n, TheJob(t.jobs), s.pvs, s.instances, s.deleted)
  {
    SoleJob(s, id);
    LeaveData(n, s, s.jobs[id]);
    NoJobLeft(s, t, id);
  }

  lemma NoJobLeft(s: State, t: State, id: nat)
    requires FlightInv(s) && id in s.jobs && id !in t.jobs && t.jobs.Keys <= s.jobs.Keys
    ensures t.jobs == map[]
  {
    forall k | k in s.jobs
      ensures k == id
    {
      F.AtMostOneActive(s.flight, k, id);
    }
    assert t.jobs.Keys == {};
  }

  /** The request in progress is moved on; the flight is as before. */
  lemma MovedFlight(s: State, t: State, id: nat, phase: Phase)
    requires FlightInv(s) && id in s.jobs && t.flight == s.flight && t.jobs == s.jobs[id := s.jobs[id].(phase := phase)]
    ensures FlightInv(t) && TheJob(s.jobs) == Some(s.jobs[id]) && TheJob(t.jobs) == Some(s.jobs[id].(phase := phase))
  {
    SoleJob(s, id);
    SoleJob(t, id);
  }

  lemma CheckKeepsInv(n: string, s: State, id: nat)
    requires Inv(n, s) && Enabled(s, Check(id))
    ensures Inv(n, Next(s, Check(id)))
  {
    var t := Next(s, Check(id));
    MovedFlight(s, t, id, t.jobs[id].phase);
    CheckData(n, s, s.jobs[id]);
  }

  lemma DeleteKeepsInv(n: string, s: State, id: nat)
    requires Inv(n, s) && Enabled(s, DeleteNas(id))
    ensures Inv(n, Next(s, DeleteNas(id)))
  {
    MovedFlight(s, Next(s, DeleteNas(id)), id, Responded);
    DeleteData(n, s, s.jobs[id]);
  }

  lemma KeepKeepsInv(n: string, s: State, id: nat)
    requires Inv(n, s) && Enabled(s, Keep(id))
    ensures Inv(n, Next(s, Keep(id)))
  {
    MovedFlight(s, Next(s, Keep(id)), id, Responded);
  }

  lemma PvGoneKeepsInv(n: string, s: State, id: nat, k: nat)
    requires Inv(n, s) && Enabled(s, PvGone(id, k))
    ensures Inv(n, Next(s, PvGone(id, k)))
  {
    MovedFlight(s, Next(s, PvGone(id, k)), id, Gone);
    GoneData(n, s, s.jobs[id], k);
  }

  lemma RemoveOrphanKeepsInv(n: string, s: State, k: nat)
    requires Inv(n, s) && Enabled(s, RemoveOrphan(k))
    ensures Inv(n, Next(s, RemoveOrphan(k)))
  {
    OrphanData(n, s, k);
  }

  /** The step of a failed lookup keeps the invariant if and only if it spares the instance. */
  lemma LookupFailsKeepsInvIff(n: string, s: State, k: nat)
    requires Inv(n, s) && k < |s.pvs|
    ensures Inv(n, Next(s, LookupFails(k))) <==> Spares(n, s, k)
  {
    LookupData(n, s, k);
    KeepersAsOne(n, s, s.pvs[..k] + s.pvs[k + 1..]);
  }

  /** What holds of every request that keeps n holds of the one in progress. */
  lemma KeepersAsOne(n: string, s: State, pvs: seq<PV>)
    requires FlightInv(s)
    ensures var job := TheJob(s.jobs);
            (forall id :: id in s.jobs && Keeps(n, s.jobs[id]) ==> Others(pvs, s.jobs[id].volume, n))
              <==> (job.Some? && Keeps(n, job.value) ==> Others(pvs, job.value.volume, n))
  {
    forall id | id in s.jobs
      ensures TheJob(s.jobs) == Some(s.jobs[id])
    {
      SoleJob(s, id);
    }
  }

  /** What a lost volume does to the data. */
  lemma LookupData(n: string, d: State, k: nat)
    requires DataInv(n, TheJob(d.jobs), d.pvs, d.instances, d.deleted) && k < |d.pvs|
    ensures var rest, job := d.pvs[..k] + d.pvs[k + 1..], TheJob(d.jobs);
            DataInv(n, job, rest, d.instances, d.deleted) <==>
              (n in d.instances && Mentions(d.pvs[k], n) ==>
                Found(rest, n) && (job.Some? && Keeps(n, job.value) ==> Others(rest, job.value.volume, n)))
  {
    var rest := d.pvs[..k] + d.pvs[k + 1..];
    RemovedList(n, d.pvs, k);
    if !Mentions(d.pvs[k], n) {
      RemovedOther(n, d.pvs, k);
      OtherVolumesData(n, d, rest);
    } else if n !in d.instances {
      OrphanData(n, d, k);
    }
  }

  lemma AddPvKeepsInv(n: string, s: State, k: nat, pv: PV)
    requires Inv(n, s) && Enabled(s, AddPv(k, pv)) && Assumed(n, s, AddPv(k, pv))
    ensures Inv(n, Next(s, AddPv(k, pv)))
  {
    AddedOther(n, s.pvs, k, pv);
    OtherVolumesData(n, s, s.pvs[..k] + [pv] + s.pvs[k..]);
  }

  lemma RemovePvKeepsInv(n: string, s: State, k: nat)
    requires Inv(n, s) && Enabled(s, RemovePv(k)) && Assumed(n, s, RemovePv(k))
    ensures Inv(n, Next(s, RemovePv(k)))
  {
    RemovedList(n, s.pvs, k);
    RemovedOther(n, s.pvs, k);
    OtherVolumesData(n, s, s.pvs[..k] + s.pvs[k + 1..]);
  }

  lemma EnterKeepsInv(n: string, s: State, f: F.Event)
    requires Inv(n, s) && Enabled(s, Enter(f)) && F.Harmless(s.flight, f)
    ensures Inv(n, Next(s, Enter(f)))
  {
    F.StepKeepsInv(s.flight, f);
    F.OutsideKeepsHolders(s.flight, f);
  }

  lemma StepKeepsInv(n: string, s: State, e: Event)
    requires Inv(n, s) && Enabled(s, e) && Assumed(n, s, e)
    ensures Inv(n, Next(s, e))
  {
    match e {
      case Enter(f) => EnterKeepsInv(n, s, f);
      case Begin(_, _, _) => BeginKeepsInv(n, s, e);
      case Check(id) => CheckKeepsInv(n, s, id);
      case DeleteNas(id) => DeleteKeepsInv(n, s, id);
      case Keep(id) => KeepKeepsInv(n, s, id);
      case PvGone(id, k) => PvGoneKeepsInv(n, s, id, k);
      case Fail(id) => FailKeepsInv(n, s, id);
      case PvDeleted(name) => PvDeletedKeepsInv(n, s, name);
      case RemoveOrphan(k) => RemoveOrphanKeepsInv(n, s, k);
      case LookupFails(k) => LookupFailsKeepsInvIff(n, s, k);
      case AddPv(k, pv) => AddPvKeepsInv(n, s, k, pv);
      case RemovePv(k) => RemovePvKeepsInv(n, s, k);
      case AddNas(nas) =>
    }
  }

  /** The instance exists, has volumes, and was never deleted; the queue is empty. */
  ghost predicate Init(n: string, s: State) {
    && s.flight == F.INIT && s.jobs == map[]
    && GoodList(n, s.pvs) && Found(s.pvs, n) && n in s.instances && s.deleted[n] == 0
  }

  /** A run in which lookups may fail in any way. */
  ghost predicate IsPlausibleRun(n: string, run: seq<State>, events: seq<Event>) {
    && |run| == |events| + 1 && Init(n, run[0])
    && forall i :: 0 <= i < |events| ==>
         Enabled(run[i], events[i]) && Plausible(n, run[i], events[i]) && run[i + 1] == Next(run[i], events[i])
  }

  /** A run in which failed lookups spare the instance. */
  ghost predicate IsRun(n: string, run: seq<State>, events: seq<Event>) {
    IsPlausibleRun(n, run, events) && forall i :: 0 <= i < |events| ==> Assumed(n, run[i], events[i])
  }

  lemma {:induction false} RunKeepsInv(n: string, run: seq<State>, events: seq<Event>, k: nat)
    requires IsRun(n, run, events) && k < |run|
    ensures Inv(n, run[k])
  {
    if k == 0 {
      F.InitInv();
    } else {
      RunKeepsInv(n, run, events, k - 1);
      StepKeepsInv(n, run[k - 1], events[k - 1]);
    }
  }

  /**
   In every run, whenever a request is about to issue DeleteNasInstance, and so whether the call succeeds or not,
   its volume is still on the instance and is the only one.
   */
  lemma DeletedOnlyWithLastVolume(n: string, run: seq<State>, events: seq<Event>, k: nat, id: nat)
    requires IsRun(n, run, events) && k < |run|
    requires id in run[k].jobs && run[k].jobs[id].nas == n && run[k].jobs[id].phase == Checked(true)
    ensures n in run[k].instances && exists pv :: pv in run[k].pvs && OnNas(pv, n)
    ensures forall pv :: pv in run[k].pvs && OnNas(pv, n) ==> pv.name == run[k].jobs[id].volume
  {
    RunKeepsInv(n, run, events, k);
    var s := run[k];
    SoleJob(s, id);
    DeleteData(n, s, s.jobs[id]);
    var last :| last in s.pvs && Mentions(last, n);
    assert OnNas(last, n);
    forall pv | pv in s.pvs && OnNas(pv, n)
      ensures pv.name == s.jobs[id].volume
    {
      assert OccursAt(n, n, 0);
      SharedCreate.OnMentions(pv, n, n);
    }
  }

  /**
   In every run, in whatever order the volumes are deleted: DeleteNasInstance succeeds at most once, the
   instance exists as long as it did not, and once no volume is left it has succeeded exactly once.
   */
  lemma DeletedExactlyOnce(n: string, run: seq<State>, events: seq<Event>, k: nat)
    requires IsRun(n, run, events) && k < |run|
    ensures run[k].deleted[n] <= 1
    ensures run[k].deleted[n] == 0 <==> n in run[k].instances
    ensures (forall pv :: pv in run[k].pvs ==> !OnNas(pv, n)) ==> run[k].deleted[n] == 1
  {
    RunKeepsInv(n, run, events, k);
  }

  // ---------- a volume that is let go too early ----------

  /** The instance exists without volumes, and no request is about to delete it. */
  ghost predicate Leaked(n: string, s: State) {
    && n in s.instances && s.deleted[n] == 0 && !Found(s.pvs, n)
    && forall id :: id in s.jobs && s.jobs[id].nas == n ==> !s.jobs[id].phase.Checked?
  }

  /** Nothing that happens afterwards deletes it. */
  lemma LeakStays(n: string, s: State, e: Event)
    requires Leaked(n, s) && Enabled(s, e) && Plausible(n, s, e)
    ensures Leaked(n, Next(s, e))
  {
    var t := Next(s, e);
    if e.Check? {
      assert s.jobs[e.id].nas != n;
    }
    if t.pvs != s.pvs {
      ChangedPvs(s, e);
    }
  }

  /** Volumes come only by AddPv. */
  lemma ChangedPvs(s: State, e: Event)
    requires Enabled(s, e)
    ensures forall pv :: pv in Next(s, e).pvs ==> pv in s.pvs || (e.AddPv? && pv == e.pv)
  {
  }

  /** From s the events lead to t, whether lookups fail or not. */
  ghost predicate Leads(n: string, s: State, events: seq<Event>, t: State)
    decreases |events|
  {
    if events == [] then s == t
    else Enabled(s, events[0]) && Plausible(n, s, events[0]) && Leads(n, Next(s, events[0]), events[1..], t)
  }

  lemma LeadsBy(n: string, s: State, e: Event, events: seq<Event>, t: State)
    requires Enabled(s, e) && Plausible(n, s, e) && Leads(n, Next(s, e), events, t)
    ensures Leads(n, s, [e] + events, t)
  {
    assert ([e] + events)[1..] == events;
  }

  /** A leak is for ever. */
  lemma {:induction false} LeakIsForever(n: string, s: State, events: seq<Event>, t: State)
    requires Leaked(n, s) && Leads(n, s, events, t)
    ensures Leaked(n, t)
    decreases |events|
  {
    if events != [] {
      LeakStays(n, s, events[0]);
      LeakIsForever(n, Next(s, events[0]), events[1..], t);
    }
  }

  lemma LeadsInOne(n: string, s: State, e: Event)
    requires Enabled(s, e) && Plausible(n, s, e)
    ensures Leads(n, s, [e], Next(s, e))
  {
    LeadsBy(n, s, e, [], Next(s, e));
    assert [e] + [] == [e];
  }

  /** With no volume left, a request that was about to look or to delete may still fail. */
  lemma NoVolumeThenLeaked(n: string, s: State) returns (events: seq<Event>, t: State)
    requires FlightInv(s) && n in s.instances && s.deleted[n] == 0 && !Found(s.pvs, n)
    ensures Leads(n, s, events, t) && Leaked(n, t)
  {
    if id :| id in s.jobs && s.jobs[id].nas == n && s.jobs[id].phase.Checked? {
      events, t := [Fail(id)], Next(s, Fail(id));
      LeadsInOne(n, s, Fail(id));
      NoJobLeft(s, t, id);
    } else {
      events, t := [], s;
    }
  }

  /** The one volume left on the instance is that of a request that was answered without deleting. */
  lemma AnsweredThenLeaked(n: string, s: State, id: nat) returns (events: seq<Event>, t: State)
    requires FlightInv(s) && GoodList(n, s.pvs) && n in s.instances && s.deleted[n] == 0 && Found(s.pvs, n)
    requires id in s.jobs && s.jobs[id].phase.Responded? && NoOthers(s.pvs, s.jobs[id].volume, n)
    ensures Leads(n, s, events, t) && Leaked(n, t)
  {
    var pv :| pv in s.pvs && Mentions(pv, n);
    var m :| 0 <= m < |s.pvs| && s.pvs[m] == pv;
    RemovedList(n, s.pvs, m);
    t := Next(s, PvGone(id, m));
    events := [PvGone(id, m)];
    LeadsInOne(n, s, PvGone(id, m));
    forall k | k in t.jobs
      ensures k == id
    {
      F.AtMostOneActive(s.flight, k, id);
    }
  }

  /**
   Whenever a failed lookup does not spare the instance, what follows can leave the instance without volumes for
   ever.
   */
  lemma LookupCanLeak(n: string, s: State, k: nat) returns (events: seq<Event>, t: State)
    requires Inv(n, s) && k < |s.pvs| && !Spares(n, s, k)
    ensures Leads(n, s, [LookupFails(k)] + events, t) && Leaked(n, t)
  {
    var u := Next(s, LookupFails(k));
    RemovedList(n, s.pvs, k);
    if !Found(u.pvs, n) {
      events, t := NoVolumeThenLeaked(n, u);
    } else {
      var id :| id in s.jobs && Keeps(n, s.jobs[id]) && !Others(u.pvs, s.jobs[id].volume, n);
      if s.jobs[id].phase.Responded? {
        events, t := AnsweredThenLeaked(n, u, id);
      } else {
        MovedFlight(u, Next(u, Keep(id)), id, Responded);
        events, t := AnsweredThenLeaked(n, Next(u, Keep(id)), id);
        LeadsBy(n, u, Keep(id), events, t);
        events := [Keep(id)] + events;
      }
    }
    LeadsBy(n, s, LookupFails(k), events, t);
  }

  /** The shortest leak: the only volume of the instance, and one failed lookup, which is answered with success. */
  lemma FailedLookupLeaks(n: string, pv: PV) returns (run: seq<State>, events: seq<Event>)
    requires OnNas(pv, n)
    ensures IsPlausibleRun(n, run, events) && events == [LookupFails(0)]
    ensures run[0].pvs == [pv] && run[1].pvs == [] && Leaked(n, run[1])
  {
    assert OccursAt(n, n, 0);
    SharedCreate.OnMentions(pv, n, n);
    var s := State(F.INIT, map[], [pv], {n}, multiset{});
    assert pv in s.pvs && Next(s, LookupFails(0)).pvs == [];
    run, events := [s, Next(s, LookupFails(0))], [LookupFails(0)];
  }
}
