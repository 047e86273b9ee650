/**
 Requests in flight behind one queue: CreateVolume behind the creating queue, DeleteVolume behind the
 deleting queue (pkg/driver/controller.go).

 A call is in flight from the insertion of its name until the event of its persistent volume, or until it
 exits with an error.  A call that succeeds keeps its slot; an error exit runs the deferred UnsetQueue.  So
 does a call whose insertion was refused as a duplicate, some time after the refusal, and a CreateVolume that
 is not shared, although neither ever had a slot.
 */
module InFlight {
  import opened Wrappers
  import Q = ResourceQueue

  datatype Stage = Waiting | Acquired | Holding | Refused

  datatype Call = Call(name: string, stage: Stage)

  datatype State = State(queue: Q.State, calls: map<nat, Call>)

  datatype Event =
    | Arrive(id: nat, name: string)
    | LockReturns(id: nat)
    | Marked(id: nat)
    | Exit(id: nat)                // the deferred UnsetQueue of a call that had the slot
    | Finished(name: string)       // the volume of that name was added (or deleted)
    | RefusedExit(id: nat)         // the deferred UnsetQueue of a refused call
    | UnsharedExit(name: string)   // and that of a CreateVolume that is not shared and never queued

  const INIT := State(Q.INIT, map[])

  predicate At(s: State, id: nat, stage: Stage) {
    id in s.calls && s.calls[id].stage == stage
  }

  predicate Enabled(s: State, e: Event) {
    match e
    case Arrive(id, name) => id !in s.calls
    case LockReturns(id) => At(s, id, Waiting) && Q.Enabled(s.queue, Q.Acquire(s.calls[id].name))
    case Marked(id) => At(s, id, Acquired) && Q.Enabled(s.queue, Q.Mark(s.calls[id].name))
    case Exit(id) => At(s, id, Holding)
    case Finished(name) => true
    case RefusedExit(id) => At(s, id, Refused)
    case UnsharedExit(name) => true
  }

  function Next(s: State, e: Event): (t: State)
    requires Enabled(s, e)
  {
    match e
    case Arrive(id, name) =>
      State(Q.Next(s.queue, Q.Insert(name)),
            s.calls[id := Call(name, if name in s.queue.resources then Refused else Waiting)])
    case LockReturns(id) =>
      State(Q.Next(s.queue, Q.Acquire(s.calls[id].name)), s.calls[id := s.calls[id].(stage := Acquired)])
    case Marked(id) =>
      State(Q.Next(s.queue, Q.Mark(s.calls[id].name)), s.calls[id := s.calls[id].(stage := Holding)])
    case Exit(id) =>
      State(Q.Next(s.queue, Q.Unset(s.calls[id].name)), s.calls - {id})
    case Finished(name) =>
      State(Q.Next(s.queue, Q.Unset(name)),
            map id | id in s.calls && !(s.calls[id].name == name && s.calls[id].stage == Holding) :: s.calls[id])
    case RefusedExit(id) =>
      State(Q.Next(s.queue, Q.Unset(s.calls[id].name)), s.calls - {id})
    case UnsharedExit(name) => s.(queue := Q.Next(s.queue, Q.Unset(name)))
  }

  /** The call was not refused and has the entry of that name. */
  predicate Queued(s: State, id: nat, name: string) {
    id in s.calls && !s.calls[id].stage.Refused? && s.calls[id].name == name
  }

  ghost predicate Owns(s: State, id: nat)
    requires id in s.calls
  {
    var c := s.calls[id];
    match c.stage
    case Waiting => Q.Pending(s.queue, c.name) && s.queue.acquiring != Some(c.name)
    case Acquired => s.queue.acquiring == Some(c.name)
    case Holding => Q.Operating(s.queue, c.name)
    case Refused => true
  }

  ghost predicate AllOwn(s: State) {
    forall id :: id in s.calls ==> Owns(s, id)
  }

  ghost predicate NamesDistinct(s: State) {
    forall i, j, n :: Queued(s, i, n) && Queued(s, j, n) ==> i == j
  }

  ghost predicate Covered(s: State) {
    forall n :: n in s.queue.resources ==> exists id :: Queued(s, id, n)
  }

  /** Each queued call owns its own entry of the queue, at its own stage, and the queue has no other entries. */
  ghost predicate Inv(s: State) {
    Q.Inv(s.queue) && AllOwn(s) && NamesDistinct(s) && Covered(s)
  }

  /** The deferred UnsetQueue of a call without a slot does not come upon the name that holds the slot. */
  ghost predicate Harmless(s: State, e: Event) {
    match e
    case RefusedExit(id) => id in s.calls ==> !NameHolds(s, s.calls[id].name)
    case UnsharedExit(name) => !NameHolds(s, name)
    case _ => true
  }

  ghost predicate NameHolds(s: State, name: string) {
    exists id :: At(s, id, Holding) && s.calls[id].name == name
  }

  // ---------- each step ----------

  lemma OperatingIffHolds(s: State, name: string)
    requires Inv(s)
    ensures Q.Operating(s.queue, name) <==> NameHolds(s, name)
  {
    if Q.Operating(s.queue, name) {
      var id :| Queued(s, id, name);
      assert Owns(s, id);
    }
    if id :| At(s, id, Holding) && s.calls[id].name == name {
      assert Owns(s, id);
    }
  }

  lemma ArriveKeepsInv(s: State, id: nat, name: string)
    requires Inv(s) && id !in s.calls
    ensures Inv(Next(s, Arrive(id, name)))
  {
    Q.StepKeepsInv(s.queue, Q.Insert(name));
    ArriveKeepsOwners(s, id, name);
    ArriveKeepsCover(s, id, name);
  }

  lemma ArriveKeepsOwners(s: State, id: nat, name: string)
    requires Inv(s) && id !in s.calls
    ensures AllOwn(Next(s, Arrive(id, name))) && NamesDistinct(Next(s, Arrive(id, name)))
  {
    var t := Next(s, Arrive(id, name));
    forall k | k in t.calls
      ensures Owns(t, k) && (k != id && Queued(t, k, name) ==> name in s.queue.resources)
    {
      assert k != id ==> Owns(s, k);
    }
    assert forall k, n :: k != id ==> (Queued(t, k, n) <==> Queued(s, k, n));
  }

  lemma ArriveKeepsCover(s: State, id: nat, name: string)
    requires Inv(s) && id !in s.calls
    ensures Covered(Next(s, Arrive(id, name)))
  {
    var t := Next(s, Arrive(id, name));
    forall n | n in t.queue.resources
      ensures exists k :: Queued(t, k, n)
    {
      if n in s.queue.resources {
        var k :| Queued(s, k, n);
        assert Queued(t, k, n);
      } else {
        assert Queued(t, id, n);
      }
    }
  }

  /** A step that only moves one call on to its next stage. */
  lemma MovedKeepsInv(s: State, t: State, id: nat)
    requires Inv(s) && id in s.calls && Q.Inv(t.queue) && t.queue.resources.Keys == s.queue.resources.Keys
    requires forall k, n :: Queued(t, k, n) <==> Queued(s, k, n)
    requires AllOwn(t)
    ensures Inv(t)
  {
    forall n | n in t.queue.resources
      ensures exists k :: Queued(t, k, n)
    {
      var k :| Queued(s, k, n);
      assert Queued(t, k, n);
    }
  }

  /** The other queued calls have other names. */
  lemma OtherName(s: State, id: nat, k: nat)
    requires Inv(s) && id in s.calls && k in s.calls && k != id
    requires !s.calls[id].stage.Refused? && !s.calls[k].stage.Refused?
    ensures s.calls[k].name != s.calls[id].name
  {
    assert Queued(s, id, s.calls[id].name) && Queued(s, k, s.calls[k].name);
  }

  lemma LockReturnsKeepsInv(s: State, id: nat)
    requires Inv(s) && Enabled(s, LockReturns(id))
    ensures Inv(Next(s, LockReturns(id)))
  {
    var t := Next(s, LockReturns(id));
    Q.StepKeepsInv(s.queue, Q.Acquire(s.calls[id].name));
    forall k | k in t.calls
      ensures Owns(t, k)
    {
      assert Owns(s, k);
      if k != id && !s.calls[k].stage.Refused? {
        OtherName(s, id, k);
      }
    }
    MovedKeepsInv(s, t, id);
  }

  lemma MarkedKeepsInv(s: State, id: nat)
    requires Inv(s) && Enabled(s, Marked(id))
    ensures Inv(Next(s, Marked(id)))
  {
    var t := Next(s, Marked(id));
    Q.StepKeepsInv(s.queue, Q.Mark(s.calls[id].name));
    forall k | k in t.calls
      ensures Owns(t, k)
    {
      assert Owns(s, k);
      if k != id && !s.calls[k].stage.Refused? {
        OtherName(s, id, k);
      }
    }
    MovedKeepsInv(s, t, id);
  }

  /** Freeing the slot of the holding call of that name, or of nobody, and dropping that call or a refused one. */
  lemma UnsetKeepsInv(s: State, name: string, t: State)
    requires Inv(s) && t.queue == Q.Next(s.queue, Q.Unset(name)) && t.calls.Keys <= s.calls.Keys
    requires forall id :: id in t.calls ==> t.calls[id] == s.calls[id]
    requires forall id :: At(s, id, Holding) ==> (id in t.calls <==> s.calls[id].name != name)
    requires forall id :: At(s, id, Waiting) || At(s, id, Acquired) ==> id in t.calls
    ensures Inv(t)
  {
    Q.StepKeepsInv(s.queue, Q.Unset(name));
    assert forall id, n :: Queued(t, id, n) ==> Queued(s, id, n);
    forall id | id in t.calls
      ensures Owns(t, id)
    {
      assert Owns(s, id);
    }
    forall n | n in t.queue.resources
      ensures exists id :: Queued(t, id, n)
    {
      var id :| Queued(s, id, n);
      assert Owns(s, id);
      assert Queued(t, id, n);
    }
  }

  lemma ExitKeepsInv(s: State, id: nat)
    requires Inv(s) && At(s, id, Holding)
    ensures Inv(Next(s, Exit(id)))
  {
    forall k | At(s, k, Holding)
      ensures k == id
    {
      AtMostOneActive(s, k, id);
    }
    UnsetKeepsInv(s, s.calls[id].name, Next(s, Exit(id)));
  }

  lemma StepKeepsInv(s: State, e: Event)
    requires Inv(s) && Enabled(s, e) && Harmless(s, e)
    ensures Inv(Next(s, e))
  {
    match e {
      case Arrive(id, name) => ArriveKeepsInv(s, id, name);
      case LockReturns(id) => LockReturnsKeepsInv(s, id);
      case Marked(id) => MarkedKeepsInv(s, id);
      case Exit(id) => ExitKeepsInv(s, id);
      case Finished(name) => UnsetKeepsInv(s, name, Next(s, e));
      case RefusedExit(id) => UnsetKeepsInv(s, s.calls[id].name, Next(s, e));
      case UnsharedExit(name) => UnsetKeepsInv(s, name, Next(s, e));
    }
  }

  /** The deferred UnsetQueue of a call without a slot frees the slot under the call of that name that holds it. */
  lemma LateUnsetFreesSlot(s: State, id: nat, e: Event)
    requires Inv(s) && Enabled(s, e) && At(s, id, Holding)
    requires e == UnsharedExit(s.calls[id].name) || (e.RefusedExit? && s.calls[e.id].name == s.calls[id].name)
    ensures At(Next(s, e), id, Holding) && Next(s, e).queue == Q.Next(s.queue, Q.Unset(s.calls[id].name))
    ensures !Next(s, e).queue.locked && !Inv(Next(s, e))
  {
    assert Owns(s, id);
    assert !Owns(Next(s, e), id);
  }

  /** Exactly the harmless steps keep the ownership of slots. */
  lemma StepKeepsInvIff(s: State, e: Event)
    requires Inv(s) && Enabled(s, e)
    ensures Inv(Next(s, e)) <==> Harmless(s, e)
  {
    if Harmless(s, e) {
      StepKeepsInv(s, e);
    } else {
      var name := if e.RefusedExit? then s.calls[e.id].name else e.name;
      var id :| At(s, id, Holding) && s.calls[id].name == name;
      LateUnsetFreesSlot(s, id, e);
    }
  }

  /** The call is past the lock. */
  predicate Active(s: State, id: nat) {
    At(s, id, Acquired) || At(s, id, Holding)
  }

  /** At most one call is past the lock, and the slot is held exactly for it. */
  lemma AtMostOneActive(s: State, i: nat, j: nat)
    requires Inv(s) && Active(s, i) && Active(s, j)
    ensures i == j && s.queue.locked
  {
    assert Owns(s, i) && Owns(s, j);
    assert Queued(s, i, s.calls[i].name) && Queued(s, j, s.calls[j].name);
  }

  /** A call that holds the slot keeps it through every step but its own exit and its own volume event. */
  lemma HoldingStep(s: State, e: Event, i: nat)
    requires Inv(s) && Enabled(s, e) && Harmless(s, e) && At(s, i, Holding)
    ensures e == Exit(i) || e == Finished(s.calls[i].name) ==> i !in Next(s, e).calls && !Next(s, e).queue.locked
    ensures e != Exit(i) && e != Finished(s.calls[i].name) ==> At(Next(s, e), i, Holding) && Next(s, e).queue.locked
  {
    assert Owns(s, i);
    StepKeepsInv(s, e);
    if (e.Marked? || e.Exit?) && Active(s, e.id) {
      AtMostOneActive(s, i, e.id);
    }
    if At(Next(s, e), i, Holding) {
      AtMostOneActive(Next(s, e), i, i);
    }
  }

  /** Steps of requests without the slot do not change who holds it. */
  predicate Outside(e: Event) {
    e.Arrive? || e.LockReturns? || e.RefusedExit? || e.UnsharedExit?
  }

  lemma OutsideKeepsHolders(s: State, e: Event)
    requires Enabled(s, e) && Outside(e)
    ensures forall id :: At(Next(s, e), id, Holding) <==> At(s, id, Holding)
    ensures forall id :: At(s, id, Holding) ==> Next(s, e).calls[id] == s.calls[id]
  {
  }

  /** Marking makes the call a holder. */
  lemma MarkingAddsHolder(s: State, id: nat)
    requires Enabled(s, Marked(id))
    ensures forall k :: At(Next(s, Marked(id)), k, Holding) <==> At(s, k, Holding) || k == id
    ensures forall k :: k in s.calls ==> Next(s, Marked(id)).calls[k].name == s.calls[k].name
  {
  }

  // ---------- runs ----------

  ghost predicate IsRun(run: seq<State>, events: seq<Event>) {
    && |run| == |events| + 1 && run[0] == INIT
    && forall i :: 0 <= i < |events| ==> Enabled(run[i], events[i]) && run[i + 1] == Next(run[i], events[i])
  }

  ghost predicate AllHarmless(run: seq<State>, events: seq<Event>)
    requires |run| > |events|
  {
    forall i :: 0 <= i < |events| ==> Harmless(run[i], events[i])
  }

  lemma InitInv()
    ensures Inv(INIT)
  {
    assert forall n :: !Q.Operating(Q.INIT, n);
  }

  lemma {:induction false} RunKeepsInv(run: seq<State>, events: seq<Event>, k: nat)
    requires IsRun(run, events) && AllHarmless(run, events) && k < |run|
    ensures Inv(run[k])
  {
    if k == 0 {
      InitInv();
    } else {
      RunKeepsInv(run, events, k - 1);
      StepKeepsInv(run[k - 1], events[k - 1]);
    }
  }

  /** A run owns its slots throughout if and only if all its steps are harmless. */
  lemma RunKeepsInvIff(run: seq<State>, events: seq<Event>)
    requires IsRun(run, events)
    ensures AllHarmless(run, events) <==> forall k :: 0 <= k < |run| ==> Inv(run[k])
  {
    if AllHarmless(run, events) {
      forall k | 0 <= k < |run|
        ensures Inv(run[k])
      {
        RunKeepsInv(run, events, k);
      }
    } else {
      var i :| 0 <= i < |events| && !Harmless(run[i], events[i]);
      if Inv(run[i]) {
        StepKeepsInvIff(run[i], events[i]);
        assert run[i + 1] == Next(run[i], events[i]) && !Inv(run[i + 1]);
      }
    }
  }

  /** No request arrives with a name that is queued, and no request that is not shared fails under such a name. */
  ghost predicate NoRepeats(run: seq<State>, events: seq<Event>)
    requires |run| > |events|
  {
    forall i :: 0 <= i < |events| && (events[i].Arrive? || events[i].UnsharedExit?) ==> events[i].name !in run[i].queue.resources
  }

  lemma NothingRefused(s: State, e: Event)
    requires Enabled(s, e) && (e.Arrive? ==> e.name !in s.queue.resources) && forall id :: !At(s, id, Refused)
    ensures forall id :: !At(Next(s, e), id, Refused)
  {
    forall id | id in Next(s, e).calls
      ensures !At(Next(s, e), id, Refused)
    {
      assert !At(s, id, Refused);
    }
  }

  /** Without repeats nothing is ever refused, and every step is harmless. */
  lemma {:induction false} NoRepeatsIsHarmless(run: seq<State>, events: seq<Event>, k: nat)
    requires IsRun(run, events) && NoRepeats(run, events) && k < |run|
    ensures Inv(run[k]) && (forall id :: !At(run[k], id, Refused)) && (k < |events| ==> Harmless(run[k], events[k]))
  {
    if k == 0 {
      InitInv();
    } else {
      NoRepeatsIsHarmless(run, events, k - 1);
      StepKeepsInv(run[k - 1], events[k - 1]);
      NothingRefused(run[k - 1], events[k - 1]);
    }
    if k < |events| && events[k].UnsharedExit? {
      OperatingIffHolds(run[k], events[k].name);
    }
  }

  /**
   In every run of harmless steps at most one call lies between the return of Queue and its volume event
   or error exit; a call that holds keeps the slot until one of these, and both free it.
   */
  lemma InFlightExclusion(run: seq<State>, events: seq<Event>, k: nat, i: nat)
    requires IsRun(run, events) && AllHarmless(run, events) && k < |events|
    requires At(run[k], i, Holding)
    ensures run[k].queue.locked
    ensures forall j :: Active(run[k], j) ==> j == i
    ensures At(run[k + 1], i, Holding) <==> events[k] != Exit(i) && events[k] != Finished(run[k].calls[i].name)
    ensures run[k + 1].queue.locked <==> At(run[k + 1], i, Holding)
  {
    RunKeepsInv(run, events, k);
    AtMostOneActive(run[k], i, i);
    forall j | Active(run[k], j)
      ensures j == i
    {
      AtMostOneActive(run[k], i, j);
    }
    HoldingStep(run[k], events[k], i);
  }

  // ---------- what a repeat can do ----------

  /** From s the events lead to t. */
  ghost predicate Leads(s: State, events: seq<Event>, t: State)
    decreases |events|
  {
    if events == [] then s == t
    else Enabled(s, events[0]) && Leads(Next(s, events[0]), events[1..], t)
  }

  lemma LeadsBy(s: State, e: Event, events: seq<Event>, t: State)
    requires Enabled(s, e) && Leads(Next(s, e), events, t)
    ensures Leads(s, [e] + events, t)
  {
    assert ([e] + events)[1..] == events;
  }

  /** The call holds the slot, but the mutex is free for the next. */
  ghost predicate Exposed(s: State, id: nat, name: string) {
    id in s.calls && s.calls[id] == Call(name, Holding) && !s.queue.locked
  }

  lemma HoldingThenExposed(s: State, id: nat, dup: nat) returns (events: seq<Event>, t: State)
    requires Inv(s) && At(s, id, Holding) && At(s, dup, Refused) && s.calls[dup].name == s.calls[id].name
    ensures Leads(s, events, t) && Exposed(t, id, s.calls[id].name)
  {
    var e := RefusedExit(dup);
    LateUnsetFreesSlot(s, id, e);
    t := Next(s, e);
    assert Leads(t, [], t);
    LeadsBy(s, e, [], t);
    events := [e] + [];
  }

  lemma AcquiredThenExposed(s: State, id: nat, dup: nat) returns (events: seq<Event>, t: State)
    requires Inv(s) && At(s, id, Acquired) && At(s, dup, Refused) && s.calls[dup].name == s.calls[id].name
    ensures Leads(s, events, t) && Exposed(t, id, s.calls[id].name)
  {
    assert Owns(s, id);
    MarkedKeepsInv(s, id);
    events, t := HoldingThenExposed(Next(s, Marked(id)), id, dup);
    LeadsBy(s, Marked(id), events, t);
    events := [Marked(id)] + events;
  }

  /** What has to happen first for a waiting call to get the lock: the call past the lock moves on, or leaves. */
  lemma StepTowards(s: State, id: nat) returns (e: Event)
    requires Inv(s) && At(s, id, Waiting)
    ensures Enabled(s, e) && Harmless(s, e)
    ensures !s.queue.locked ==> e == LockReturns(id)
    ensures s.queue.locked ==> (e.Marked? && At(s, e.id, Acquired)) || (e.Exit? && At(s, e.id, Holding))
    ensures s.queue.locked ==> (e.Marked? <==> s.queue.acquiring.Some?)
  {
    assert Owns(s, id);
    if !s.queue.locked {
      e := LockReturns(id);
    } else if s.queue.acquiring.Some? {
      var k :| Queued(s, k, s.queue.acquiring.value);
      assert Owns(s, k);
      e := Marked(k);
    } else {
      var n :| Q.Operating(s.queue, n);
      var k :| Queued(s, k, n);
      assert Owns(s, k);
      e := Exit(k);
    }
  }

  /** The calls before it leave until the waiting call gets the lock. */
  lemma WaitingThenExposed(s: State, id: nat, dup: nat) returns (events: seq<Event>, t: State)
    requires Inv(s) && At(s, id, Waiting) && At(s, dup, Refused) && s.calls[dup].name == s.calls[id].name
    ensures Leads(s, events, t) && Exposed(t, id, s.calls[id].name)
    decreases if !s.queue.locked then 0 else if s.queue.acquiring.None? then 1 else 2
  {
    var e := StepTowards(s, id);
    StepKeepsInv(s, e);
    if e.LockReturns? {
      events, t := AcquiredThenExposed(Next(s, e), id, dup);
    } else {
      events, t := WaitingThenExposed(Next(s, e), id, dup);
    }
    LeadsBy(s, e, events, t);
    events := [e] + events;
  }

  /** Every arrival under a queued name, waiting or holding, can end with the slot freed under the call of that name. */
  lemma RepeatCanExpose(s: State, dup: nat, name: string) returns (id: nat, events: seq<Event>, t: State)
    requires Inv(s) && dup !in s.calls && name in s.queue.resources
    ensures Leads(s, [Arrive(dup, name)] + events, t) && Exposed(t, id, name)
  {
    var u := Next(s, Arrive(dup, name));
    ArriveKeepsInv(s, dup, name);
    id :| Queued(s, id, name);
    match u.calls[id].stage {
      case Waiting => events, t := WaitingThenExposed(u, id, dup);
      case Acquired => events, t := AcquiredThenExposed(u, id, dup);
      case Holding => events, t := HoldingThenExposed(u, id, dup);
    }
    LeadsBy(s, Arrive(dup, name), events, t);
  }

  /** A run, one event longer. */
  lemma Extend(run: seq<State>, events: seq<Event>, e: Event) returns (run': seq<State>, events': seq<Event>)
    requires IsRun(run, events) && Enabled(run[|events|], e)
    ensures IsRun(run', events') && |events'| == |events| + 1
    ensures run'[|events'|] == Next(run[|events|], e)
  {
    run', events' := run + [Next(run[|events|], e)], events + [e];
  }

  /** The call waits alone for a free slot, and takes it. */
  lemma TakeSlot(run: seq<State>, events: seq<Event>, id: nat) returns (run': seq<State>, events': seq<Event>)
    requires IsRun(run, events) && At(run[|events|], id, Waiting)
    requires run[|events|].queue == Q.State(map[run[|events|].calls[id].name := false], false, None)
    ensures IsRun(run', events')
    ensures var s := run[|events|]; var name := s.calls[id].name;
            run'[|events'|] == State(Q.State(map[name := true], true, None), s.calls[id := Call(name, Holding)])
  {
    var s := run[|events|];
    run', events' := Extend(run, events, LockReturns(id));
    run', events' := Extend(run', events', Marked(id));
    assert run'[|events'|].queue.resources == map[s.calls[id].name := true];
    assert run'[|events'|].calls == s.calls[id := Call(s.calls[id].name, Holding)];
  }

  /** With an empty queue a new call takes the slot. */
  lemma ArriveAndTake(run: seq<State>, events: seq<Event>, id: nat, name: string) returns (run': seq<State>, events': seq<Event>)
    requires IsRun(run, events) && run[|events|].queue == Q.INIT && id !in run[|events|].calls
    ensures IsRun(run', events')
    ensures run'[|events'|] == State(Q.State(map[name := true], true, None), run[|events|].calls[id := Call(name, Holding)])
  {
    var calls := run[|events|].calls;
    run', events' := Extend(run, events, Arrive(id, name));
    assert run'[|events'|].queue.resources == map[name := false];
    run', events' := TakeSlot(run', events', id);
    assert run'[|events'|].calls == calls[id := Call(name, Holding)];
  }

  /** The deferred UnsetQueue of the refused call 1 comes while call 0 of the same name holds; then b takes the slot as well. */
  lemma UnsetThenTake(run: seq<State>, events: seq<Event>, a: string, b: string) returns (run': seq<State>, events': seq<Event>)
    requires IsRun(run, events)
    requires run[|events|] == State(Q.State(map[a := true], true, None), map[0 := Call(a, Holding), 1 := Call(a, Refused)])
    ensures IsRun(run', events') && At(run'[|events'|], 0, Holding) && At(run'[|events'|], 2, Holding)
  {
    run', events' := Extend(run, events, RefusedExit(1));
    assert run'[|events'|].queue.resources == map[];
    run', events' := ArriveAndTake(run', events', 2, b);
  }

  /** Two calls can hold the slot at once: a holds, a repeat of a is refused and exits, b takes the slot. */
  lemma TwoHoldersAfterDuplicate(a: string, b: string) returns (run: seq<State>, events: seq<Event>)
    ensures IsRun(run, events) && At(run[|events|], 0, Holding) && At(run[|events|], 2, Holding)
  {
    run, events := [INIT], [];
    run, events := ArriveAndTake(run, events, 0, a);
    run, events := Extend(run, events, Arrive(1, a));
    assert run[|events|].calls == map[0 := Call(a, Holding), 1 := Call(a, Refused)];
    run, events := UnsetThenTake(run, events, a, b);
  }

  // The states on the way: x holds; a waits behind it; a repeat of a is refused; the volume of x is added.

  ghost function XHolds(x: string): (s: State) {
    State(Q.State(map[x := true], true, None), map[3 := Call(x, Holding)])
  }

  ghost function AWaits(x: string, a: string): (s: State) {
    State(Q.State(map[x := true, a := false], true, None), map[3 := Call(x, Holding), 0 := Call(a, Waiting)])
  }

  ghost function ARefused(x: string, a: string): (s: State) {
    State(AWaits(x, a).queue, map[3 := Call(x, Holding), 0 := Call(a, Waiting), 1 := Call(a, Refused)])
  }

  ghost function XGone(a: string): (s: State) {
    State(Q.State(map[a := false], false, None), map[0 := Call(a, Waiting), 1 := Call(a, Refused)])
  }

  lemma ArriveBehind(x: string, a: string)
    requires x != a
    ensures Next(XHolds(x), Arrive(0, a)) == AWaits(x, a)
    ensures Next(AWaits(x, a), Arrive(1, a)) == ARefused(x, a)
  {
  }

  lemma XLeaves(x: string, a: string)
    requires x != a
    ensures Next(ARefused(x, a), Finished(x)) == XGone(a)
  {
    var t := Next(ARefused(x, a), Finished(x));
    assert t.queue.resources == map[a := false];
    assert t.calls == XGone(a).calls;
  }

  lemma RepeatBehind(run: seq<State>, events: seq<Event>, x: string, a: string) returns (run': seq<State>, events': seq<Event>)
    requires IsRun(run, events) && run[|events|] == XHolds(x) && x != a
    ensures IsRun(run', events') && run'[|events'|] == XGone(a)
  {
    ArriveBehind(x, a);
    XLeaves(x, a);
    run', events' := Extend(run, events, Arrive(0, a));
    run', events' := Extend(run', events', Arrive(1, a));
    run', events' := Extend(run', events', Finished(x));
  }

  /** The same when a was still waiting at the refusal: x leaves and a takes the slot before the refused call exits. */
  lemma TwoHoldersAfterLateExit(x: string, a: string, b: string) returns (run: seq<State>, events: seq<Event>)
    requires x != a
    ensures IsRun(run, events) && At(run[|events|], 0, Holding) && At(run[|events|], 2, Holding)
  {
    run, events := [INIT], [];
    run, events := ArriveAndTake(run, events, 3, x);
    assert run[|events|].calls == map[3 := Call(x, Holding)];
    run, events := RepeatBehind(run, events, x, a);
    run, events := TakeSlot(run, events, 0);
    assert run[|events|].calls == map[0 := Call(a, Holding), 1 := Call(a, Refused)];
    run, events := UnsetThenTake(run, events, a, b);
  }
}
