/**
 The queue that lets one volume operation at a time through (pkg/driver/utils.go, OperateResourceQueue).

 A call of Queue is three atomic steps: the check and insertion of the name, the return of the blocking
 Lock, and the marking of the name as operating.  UnsetQueue is one step.  The steps of different callers
 interleave freely.
 */
module ResourceQueue {
  import opened Wrappers

  /** resources maps a queued name to whether it operates; acquiring is the caller that has the mutex but has not marked yet. */
  datatype State = State(resources: map<string, bool>, locked: bool, acquiring: Option<string>)

  datatype Step = Insert(name: string) | Acquire(name: string) | Mark(name: string) | Unset(name: string)

  const INIT := State(map[], false, None)

  predicate Pending(s: State, name: string) {
    name in s.resources && !s.resources[name]
  }

  predicate Operating(s: State, name: string) {
    name in s.resources && s.resources[name]
  }

  /** Lock returns to one of the blocked callers only when the mutex is free; Mark follows Acquire in the same call. */
  predicate Enabled(s: State, e: Step) {
    match e
    case Insert(_) => true
    case Acquire(name) => Pending(s, name) && !s.locked
    case Mark(name) => s.acquiring == Some(name)
    case Unset(_) => true
  }

  /** An insertion of a queued name is refused and changes nothing; so does an Unset of a name that does not operate. */
  function Next(s: State, e: Step): (t: State)
    requires Enabled(s, e)
  {
    match e
    case Insert(name) => if name in s.resources then s else s.(resources := s.resources[name := false])
    case Acquire(name) => s.(locked := true, acquiring := Some(name))
    case Mark(name) => s.(resources := s.resources[name := true], acquiring := None)
    case Unset(name) => if Operating(s, name) then s.(resources := s.resources - {name}, locked := false) else s
  }

  /** Unlock is called by this step. */
  predicate Unlocks(s: State, e: Step) {
    e.Unset? && Operating(s, e.name)
  }

  /** The mutex is held for exactly one name: the one that operates, or the one being acquired. */
  ghost predicate Inv(s: State) {
    && (s.locked <==> s.acquiring.Some? || exists n :: Operating(s, n))
    && (forall m, n :: Operating(s, m) && Operating(s, n) ==> m == n)
    && (s.acquiring.Some? ==> Pending(s, s.acquiring.value) && forall n :: !Operating(s, n))
  }

  /** Every step keeps the discipline, unlocks only a held mutex, and drops no name that waits. */
  lemma StepKeepsInv(s: State, e: Step)
    requires Inv(s) && Enabled(s, e)
    ensures Inv(Next(s, e))
    ensures Unlocks(s, e) ==> s.locked && !Next(s, e).locked
    ensures forall n :: Pending(s, n) ==> n in Next(s, e).resources
  {
    var t := Next(s, e);
    match e {
      case Insert(name) =>
        assert forall n :: Operating(t, n) <==> Operating(s, n);
      case Acquire(name) =>
        assert forall n :: Operating(t, n) <==> Operating(s, n);
      case Mark(name) =>
        assert Operating(t, name);
        assert forall n :: Operating(t, n) <==> n == name || Operating(s, n);
      case Unset(name) =>
        assert forall n :: Operating(t, n) <==> Operating(s, n) && n != name;
    }
  }

  /** The states of a run. */
  ghost predicate IsRun(run: seq<State>, steps: seq<Step>) {
    && |run| == |steps| + 1 && run[0] == INIT
    && forall i :: 0 <= i < |steps| ==> Enabled(run[i], steps[i]) && run[i + 1] == Next(run[i], steps[i])
  }

  lemma {:induction false} RunKeepsInv(run: seq<State>, steps: seq<Step>, k: nat)
    requires IsRun(run, steps) && k < |run|
    ensures Inv(run[k])
  {
    if k > 0 {
      RunKeepsInv(run, steps, k - 1);
      StepKeepsInv(run[k - 1], steps[k - 1]);
    }
  }

  /** In every run, duplicate calls included: the mutex discipline, no Unlock of a free mutex, no lost waiter. */
  lemma MutexDiscipline(run: seq<State>, steps: seq<Step>, k: nat)
    requires IsRun(run, steps) && k < |steps|
    ensures run[k].locked <==> run[k].acquiring.Some? || exists n :: Operating(run[k], n)
    ensures forall m, n :: Operating(run[k], m) && Operating(run[k], n) ==> m == n
    ensures Unlocks(run[k], steps[k]) ==> run[k].locked
    ensures forall n :: Pending(run[k], n) ==> n in run[k + 1].resources
  {
    RunKeepsInv(run, steps, k);
    StepKeepsInv(run[k], steps[k]);
  }

  /** The queue object; a caller runs the three parts of Queue in turn and blocks before LockReturns. */
  class OperateResourceQueue {
    var resources: map<string, bool>
    var queueMutex: bool
    ghost var acquiring: Option<string>

    ghost function View(): (s: State)
      reads this
    {
      State(resources, queueMutex, acquiring)
    }

    constructor ()
      ensures View() == INIT && Inv(View())
    {
      resources, queueMutex, acquiring := map[], false, None;
    }

    method CheckAndInsert(name: string) returns (r: Result<()>)
      requires Inv(View())
      modifies this
      ensures View() == Next(old(View()), Insert(name)) && Inv(View())
      ensures r.Err? <==> name in old(resources)
      ensures resources == (if r.Ok? then old(resources)[name := false] else old(resources)) && queueMutex == old(queueMutex)
    {
      StepKeepsInv(View(), Insert(name));
      if name in resources {
        return Err("Duplicate Queue called");
      }
      resources := resources[name := false];
      return Ok(());
    }

    method LockReturns(name: string)
      requires Inv(View()) && Enabled(View(), Acquire(name))
      modifies this
      ensures View() == Next(old(View()), Acquire(name)) && Inv(View())
      ensures !old(queueMutex) && queueMutex && resources == old(resources)
    {
      StepKeepsInv(View(), Acquire(name));
      queueMutex := true;
      acquiring := Some(name);
    }

    method MarkOperating(name: string)
      requires Inv(View()) && Enabled(View(), Mark(name))
      modifies this
      ensures View() == Next(old(View()), Mark(name)) && Inv(View())
      ensures queueMutex && resources == old(resources)[name := true]
    {
      StepKeepsInv(View(), Mark(name));
      resources := resources[name := true];
      acquiring := None;
    }

    method UnsetQueue(name: string)
      requires Inv(View())
      modifies this
      ensures View() == Next(old(View()), Unset(name)) && Inv(View())
      ensures if name in old(resources) && old(resources)[name]
              then old(queueMutex) && !queueMutex && resources == old(resources) - {name}
              else queueMutex == old(queueMutex) && resources == old(resources)
    {
      StepKeepsInv(View(), Unset(name));
      if name !in resources || !resources[name] {
        return;
      }
      resources := resources - {name};
      assert queueMutex;
      queueMutex := false;
    }
  }
}
