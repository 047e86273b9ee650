/** Runs of the security group syncer against a cloud that settles its edits at any time. */
module SyncerRuns {
  import opened Syncer
  import opened Wrappers

  // ---------- the system ----------

  /** The memory of the syncer, the group, and the group as it was when the syncer last found nothing to do. */
  datatype System = System(memory: State, group: Option<Group>, seen: Option<Group>)

  datatype Event =
    | Sync(i: Inputs, o: Outcomes, act: Action)
    | Settle(k: nat)                             // the cloud finishes the edit of entry k

  ghost function Entries(g: Option<Group>): (h: Group) {
    if g.Some? then g.value else []
  }

  ghost function Finished(g: Group, k: nat): (h: Group)
    requires k < |g|
  {
    if g[k].status.Revoking? then g[..k] + g[k + 1..] else g[k := g[k].(status := Authorized)]
  }

  ghost predicate Step(x: System, e: Event, y: System) {
    match e
    case Sync(i, o, act) =>
      && Synced(x.memory, x.group, i, o, y.memory, y.group, act)
      && y.seen == if Compares(x.memory, x.group, i, o) && !y.memory.hasTask then Some(Entries(x.group)) else x.seen
    case Settle(k) =>
      x.group.Some? && k < |x.group.value| && y == x.(group := Some(Finished(x.group.value, k)))
  }

  /** No address is listed twice, and at most one entry is in transition. */
  ghost predicate SafeGroup(g: Group) {
    && (forall i, j :: 0 <= i < j < |g| ==> g[i].cidrIP != g[j].cidrIP)
    && (forall i, j :: 0 <= i < |g| && 0 <= j < |g| && !g[i].status.Authorized? && !g[j].status.Authorized? ==> i == j)
  }

  /** The entries that stay once every edit has settled. */
  ghost function Live(g: Group): (l: set<string>) {
    set r | r in g && !r.status.Revoking? :: r.cidrIP
  }

  ghost predicate NoRevoking(g: Group) {
    forall r :: r in g ==> !r.status.Revoking?
  }

  /** When no work is left, the group was seen to list the last nodes, and has only settled since. */
  ghost predicate MemoryInv(x: System) {
    !x.memory.hasTask ==>
      && x.memory.lastNodes.Some? && x.memory.lastInput.Some? && x.seen.Some?
      && SafeGroup(x.seen.value) && Listed(x.seen.value) == Target(x.memory.lastNodes.value)
      && Live(Entries(x.group)) == Live(x.seen.value)
  }

  ghost predicate Init(x: System, restoreClusterID: bool) {
    x.memory == State(true, restoreClusterID, None, None) && SafeGroup(Entries(x.group)) && x.seen == None
  }

  ghost predicate IsRun(run: seq<System>, events: seq<Event>, restoreClusterID: bool) {
    && |run| == |events| + 1 && Init(run[0], restoreClusterID)
    && forall i :: 0 <= i < |events| ==> Step(run[i], events[i], run[i + 1])
  }

  // ---------- safety ----------

  lemma ApplyKeepsSafe(g: Group, act: Action)
    requires SafeGroup(g)
    requires act != NoEdit ==> Editable(g) && (act.Authorize? ==> act.cidr !in Listed(g))
    ensures SafeGroup(Apply(g, act))
  {
    if act.Authorize? {
      assert forall i :: 0 <= i < |g| ==> g[i] in g && g[i].cidrIP in Listed(g);
    }
    if act.Revoke? {
      assert forall i :: 0 <= i < |g| ==> g[i] in g && g[i].status.Authorized?;
    }
  }

  lemma FinishedKeepsSafe(g: Group, k: nat)
    requires SafeGroup(g) && k < |g|
    ensures SafeGroup(Finished(g, k))
  {
    var h := Finished(g, k);
    if g[k].status.Revoking? {
      assert forall i :: 0 <= i < |h| ==> h[i] == if i < k then g[i] else g[i + 1];
    }
  }

  lemma StepKeepsSafe(x: System, e: Event, y: System)
    requires SafeGroup(Entries(x.group)) && Step(x, e, y)
    ensures SafeGroup(Entries(y.group))
  {
    match e {
      case Sync(i, o, act) => ApplyKeepsSafe(Entries(x.group), act);
      case Settle(k) => FinishedKeepsSafe(x.group.value, k);
    }
  }

  lemma FinishedKeepsLive(g: Group, k: nat)
    requires k < |g|
    ensures Live(Finished(g, k)) == Live(g)
  {
    var h := Finished(g, k);
    forall r | r in g && !r.status.Revoking?
      ensures r.cidrIP in Live(h)
    {
      var i :| 0 <= i < |g| && g[i] == r;
      var j := if g[k].status.Revoking? && i > k then i - 1 else i;
      assert h[j].cidrIP == r.cidrIP && !h[j].status.Revoking? && h[j] in h;
    }
    forall r | r in h && !r.status.Revoking?
      ensures r.cidrIP in Live(g)
    {
      var j :| 0 <= j < |h| && h[j] == r;
      var i := if g[k].status.Revoking? && j >= k then j + 1 else j;
      assert g[i].cidrIP == r.cidrIP && !g[i].status.Revoking? && g[i] in g;
    }
  }

  lemma StepKeepsMemory(x: System, e: Event, y: System)
    requires MemoryInv(x) && SafeGroup(Entries(x.group)) && Step(x, e, y)
    ensures MemoryInv(y)
  {
    if e.Settle? {
      FinishedKeepsLive(x.group.value, e.k);
    }
  }

  lemma {:induction false} RunKeepsInv(run: seq<System>, events: seq<Event>, restoreClusterID: bool, k: nat)
    requires IsRun(run, events, restoreClusterID) && k < |run|
    ensures SafeGroup(Entries(run[k].group)) && MemoryInv(run[k])
  {
    if k > 0 {
      RunKeepsInv(run, events, restoreClusterID, k - 1);
      StepKeepsSafe(run[k - 1], events[k - 1], run[k]);
      StepKeepsMemory(run[k - 1], events[k - 1], run[k]);
    }
  }

  /**
   In every run: never two entries in transition, no node of the sync is revoked, and a revoke is issued only
   when every node is listed and every entry is authorized.
   */
  lemma EditsAreSafe(run: seq<System>, events: seq<Event>, restoreClusterID: bool, k: nat)
    requires IsRun(run, events, restoreClusterID) && k < |events|
    ensures SafeGroup(Entries(run[k].group)) && SafeGroup(Entries(run[k + 1].group))
    ensures events[k].Sync? && events[k].act.Revoke? ==>
              var nodes, g := events[k].i.nodes, Entries(run[k].group);
              && nodes.Ok? && Target(nodes.value) <= Listed(g) && Editable(g)
              && events[k].act.cidr in Listed(g) && forall ip :: ip in nodes.value ==> Cidr(ip) != events[k].act.cidr
    ensures events[k].Sync? && events[k].act.Authorize? ==>
              var nodes, g := events[k].i.nodes, Entries(run[k].group);
              && nodes.Ok? && Editable(g) && events[k].act.cidr !in Listed(g)
              && exists ip :: ip in nodes.value && Cidr(ip) == events[k].act.cidr
  {
    RunKeepsInv(run, events, restoreClusterID, k);
    RunKeepsInv(run, events, restoreClusterID, k + 1);
  }

  /** After an edit that the cloud accepts, the next sync makes none: one edit has to settle before the next. */
  lemma EditsWaitForSettling(x: System, e: Event, y: System, f: Event, z: System)
    requires Step(x, e, y) && e.Sync? && e.act != NoEdit && e.o.edit
    requires Step(y, f, z) && f.Sync?
    ensures f.act == NoEdit && exists r :: r in y.group.value && !r.status.Authorized?
  {
    var g, h := Entries(x.group), y.group.value;
    match e.act {
      case Authorize(c) =>
        assert h[|g|] in h && !h[|g|].status.Authorized?;
      case Revoke(c) =>
        var k :| 0 <= k < |g| && g[k].cidrIP == c;
        assert h[k] in h && !h[k].status.Authorized?;
    }
  }

  // ---------- skipping ----------

  /** When a safe group lists exactly the target, it keeps listing it as it settles exactly if nothing is being revoked. */
  lemma LiveIffNoRevoking(target: set<string>, g: Group)
    requires SafeGroup(g) && Listed(g) == target
    ensures Live(g) == target <==> NoRevoking(g)
  {
    if r :| r in g && r.status.Revoking? {
      assert r.cidrIP in Listed(g);
      forall q | q in g && !q.status.Revoking?
        ensures q.cidrIP != r.cidrIP
      {
        var i, j :| 0 <= i < |g| && 0 <= j < |g| && g[i] == q && g[j] == r;
      }
      assert r.cidrIP !in Live(g);
    } else {
      assert Live(g) == Listed(g);
    }
  }

  /**
   In every run, while the syncer believes that no work is left, the settled group is that of the last nodes
   exactly if nothing was being revoked when it came to believe so.
   */
  lemma BeliefIff(run: seq<System>, events: seq<Event>, restoreClusterID: bool, k: nat)
    requires IsRun(run, events, restoreClusterID) && k < |run| && !run[k].memory.hasTask
    ensures run[k].memory.lastNodes.Some? && run[k].seen.Some?
    ensures Live(Entries(run[k].group)) == Target(run[k].memory.lastNodes.value) <==> NoRevoking(run[k].seen.value)
  {
    RunKeepsInv(run, events, restoreClusterID, k);
    LiveIffNoRevoking(Target(run[k].memory.lastNodes.value), run[k].seen.value);
  }

  /**
   In every run, a sync that the internal check skips over a settled group would have made no edit exactly if
   nothing was being revoked when the syncer came to believe that no work is left.
   */
  lemma SkipIsSoundIff(run: seq<System>, events: seq<Event>, restoreClusterID: bool, k: nat, i: Inputs, act: Action, task: bool)
    requires IsRun(run, events, restoreClusterID) && k < |run|
    requires i.internalCheck && i.nodes.Ok? && i.input.Ok? && Stops(run[k].memory, i)
    requires Editable(Entries(run[k].group)) && Decided(i.nodes.value, Entries(run[k].group), act, task)
    ensures run[k].seen.Some? && (act == NoEdit && !task <==> NoRevoking(run[k].seen.value))
  {
    BeliefIff(run, events, restoreClusterID, k);
    assert Live(Entries(run[k].group)) == Listed(Entries(run[k].group));
  }

  // ---------- convergence ----------

  /** The number of entries that are missing or too many once every edit has settled. */
  ghost function Gap(target: set<string>, live: set<string>): (n: nat) {
    |Missing(live, target)| + |Missing(target, live)|
  }

  /** The entries of b that are not in a. */
  ghost function Missing(a: set<string>, b: set<string>): (m: set<string>) {
    set c | c in b && c !in a
  }

  lemma GapIs(target: set<string>, live: set<string>)
    ensures Gap(target, live) == |target - live| + |live - target|
  {
    assert Missing(live, target) == target - live && Missing(target, live) == live - target;
  }

  ghost function GapOf(nodes: set<string>, x: System): (n: nat) {
    Gap(Target(nodes), Live(Entries(x.group)))
  }

  lemma GapZeroIff(target: set<string>, live: set<string>)
    ensures Gap(target, live) == 0 <==> target == live
  {
    GapIs(target, live);
    if Gap(target, live) == 0 {
      assert target - live == {} && live - target == {};
    }
  }

  lemma GapAfterAdd(target: set<string>, live: set<string>, c: string)
    requires c in target - live
    ensures Gap(target, live + {c}) == Gap(target, live) - 1
  {
    GapIs(target, live);
    GapIs(target, live + {c});
    assert target - (live + {c}) == (target - live) - {c};
    assert (live + {c}) - target == live - target;
  }

  lemma GapAfterRemove(target: set<string>, live: set<string>, c: string)
    requires c in live - target
    ensures Gap(target, live - {c}) == Gap(target, live) - 1
  {
    GapIs(target, live);
    GapIs(target, live - {c});
    assert target - (live - {c}) == target - live;
    assert (live - {c}) - target == (live - target) - {c};
  }

  lemma LiveAfterAuthorize(g: Group, c: string)
    ensures Live(Apply(g, Authorize(c))) == Live(g) + {c}
  {
    var h := Apply(g, Authorize(c));
    assert h[|g|] == IPRange(c, Authorizing);
    assert forall r :: r in h <==> r in g || r == IPRange(c, Authorizing);
  }

  lemma LiveAfterRevoke(g: Group, c: string)
    ensures Live(Apply(g, Revoke(c))) == Live(g) - {c}
  {
    var h := Apply(g, Revoke(c));
    forall r | r in g && r.cidrIP != c
      ensures r in h
    {
      var k :| 0 <= k < |g| && g[k] == r;
      assert h[k] == r;
    }
    forall r | r in h && !r.status.Revoking?
      ensures r in g && r.cidrIP != c
    {
      var k :| 0 <= k < |h| && h[k] == r;
    }
  }

  lemma LiveIsListed(g: Group)
    requires NoRevoking(g)
    ensures Live(g) == Listed(g)
  {
  }

  /** A decision to edit closes the gap by one; over a settled group it is to edit exactly if there is a gap. */
  lemma DecisionClosesGap(nodes: set<string>, g: Group, act: Action, task: bool)
    requires Decided(nodes, g, act, task)
    ensures Gap(Target(nodes), Live(Apply(g, act))) == Gap(Target(nodes), Live(g)) - if act == NoEdit then 0 else 1
    ensures Editable(g) ==> (task <==> act != NoEdit) && (task <==> Gap(Target(nodes), Live(g)) > 0)
  {
    if Editable(g) {
      LiveIsListed(g);
      GapZeroIff(Target(nodes), Live(g));
    }
    match act {
      case NoEdit =>
      case Authorize(c) =>
        LiveAfterAuthorize(g, c);
        GapAfterAdd(Target(nodes), Live(g), c);
      case Revoke(c) =>
        LiveAfterRevoke(g, c);
        GapAfterRemove(Target(nodes), Live(g), c);
    }
  }

  /** A sync with these nodes in which every call succeeds. */
  ghost predicate GoodSync(nodes: set<string>, e: Event) {
    e.Sync? ==> e.i.nodes == Ok(nodes) && e.i.input.Ok? && e.o == ALL_OK
  }

  function Edits(e: Event): (n: nat) {
    if e.Sync? && e.act != NoEdit then 1 else 0
  }

  lemma StepClosesGap(nodes: set<string>, x: System, e: Event, y: System)
    requires Step(x, e, y) && GoodSync(nodes, e)
    ensures GapOf(nodes, y) + Edits(e) == GapOf(nodes, x)
  {
    match e {
      case Settle(k) => FinishedKeepsLive(x.group.value, k);
      case Sync(i, o, act) =>
        if !Stops(x.memory, i) {
          DecisionClosesGap(nodes, Entries(x.group), act, y.memory.hasTask);
        }
    }
  }

  /** Over a settled group the gap counts the nodes without entry and the entries without node. */
  lemma GapOfSettled(nodes: set<string>, x: System)
    requires x.group.Some? && forall r :: r in x.group.value ==> r.status.Authorized?
    ensures var listed := set r | r in x.group.value :: r.cidrIP;
            var needed := set ip | ip in nodes :: ip + "/32";
            GapOf(nodes, x) == |needed - listed| + |listed - needed|
  {
    LiveIsListed(x.group.value);
    GapIs(Target(nodes), Listed(x.group.value));
    assert (set ip | ip in nodes :: ip + "/32") == Target(nodes);
    assert (set r | r in x.group.value :: r.cidrIP) == Listed(x.group.value);
  }

  /** The edits among the first k events. */
  function EditCount(events: seq<Event>, k: nat): (n: nat)
    requires k <= |events|
  {
    if k == 0 then 0 else EditCount(events, k - 1) + Edits(events[k - 1])
  }

  /** The syncs among the first k events. */
  function SyncCount(events: seq<Event>, k: nat): (n: nat)
    requires k <= |events|
  {
    if k == 0 then 0 else SyncCount(events, k - 1) + if events[k - 1].Sync? then 1 else 0
  }

  /** A run towards fixed nodes with successful calls, from any state; the cloud settles whenever it likes. */
  ghost predicate IsGoodRun(nodes: set<string>, run: seq<System>, events: seq<Event>) {
    && |run| == |events| + 1
    && forall k :: 0 <= k < |events| ==> GoodStep(nodes, run, events, k)
  }

  ghost predicate GoodStep(nodes: set<string>, run: seq<System>, events: seq<Event>, k: nat)
    requires |run| == |events| + 1 && k < |events|
  {
    Step(run[k], events[k], run[k + 1]) && GoodSync(nodes, events[k])
  }

  lemma GapShrinks(nodes: set<string>, run: seq<System>, events: seq<Event>, k: nat)
    requires IsGoodRun(nodes, run, events) && k < |events|
    ensures GapOf(nodes, run[k + 1]) + Edits(events[k]) == GapOf(nodes, run[k])
  {
    assert GoodStep(nodes, run, events, k);
    StepClosesGap(nodes, run[k], events[k], run[k + 1]);
  }

  lemma {:induction false} EditsAddUp(events: seq<Event>, gaps: seq<nat>, k: nat)
    requires |gaps| == |events| + 1 && k <= |events|
    requires forall i :: 0 <= i < |events| ==> gaps[i + 1] + Edits(events[i]) == gaps[i]
    ensures EditCount(events, k) + gaps[k] == gaps[0]
  {
    if k > 0 {
      EditsAddUp(events, gaps, k - 1);
    }
  }

  /** The gaps along a run. */
  lemma GapsShrink(nodes: set<string>, run: seq<System>, events: seq<Event>, k: nat) returns (gaps: seq<nat>)
    requires IsGoodRun(nodes, run, events) && k < |run|
    ensures |gaps| == |run| && gaps[0] == GapOf(nodes, run[0]) && gaps[k] == GapOf(nodes, run[k])
    ensures forall i :: 0 <= i < |events| ==> gaps[i + 1] + Edits(events[i]) == gaps[i]
  {
    gaps := seq(|run|, i requires 0 <= i < |run| => GapOf(nodes, run[i]));
    forall i | 0 <= i < |events|
      ensures gaps[i + 1] + Edits(events[i]) == gaps[i]
    {
      GapShrinks(nodes, run, events, i);
    }
  }

  /** From any state, the edits made and the gap that is left always add up to the first gap, however the cloud settles. */
  lemma EditsPlusGap(nodes: set<string>, run: seq<System>, events: seq<Event>, k: nat)
    requires IsGoodRun(nodes, run, events) && k <= |events|
    ensures EditCount(events, k) + GapOf(nodes, run[k]) == GapOf(nodes, run[0])
  {
    var gaps := GapsShrink(nodes, run, events, k);
    EditsAddUp(events, gaps, k);
  }

  /** The cloud settles before each sync. */
  ghost predicate SettlesFirst(run: seq<System>, events: seq<Event>)
    requires |run| == |events| + 1
  {
    forall j :: 0 <= j < |events| ==> SettledAt(run, events, j)
  }

  ghost predicate SettledAt(run: seq<System>, events: seq<Event>, j: nat)
    requires |run| == |events| + 1 && j < |events|
  {
    events[j].Sync? ==> Editable(Entries(run[j].group))
  }

  function Min(m: nat, n: nat): (k: nat) {
    if m < n then m else n
  }

  /** What an event does to the gap and the task when the cloud settles before each sync. */
  ghost predicate SettledMove(e: Event, gap: nat, gap': nat, task: bool, task': bool) {
    && gap' + Edits(e) == gap
    && if !e.Sync? then task' == task
       else (Edits(e) == Min(1, gap) && (task' <==> gap > 0)) || (Edits(e) == 0 && !task && !task')
  }

  lemma SettledStepMoves(nodes: set<string>, run: seq<System>, events: seq<Event>, k: nat)
    requires IsGoodRun(nodes, run, events) && SettlesFirst(run, events) && k < |events|
    ensures SettledMove(events[k], GapOf(nodes, run[k]), GapOf(nodes, run[k + 1]), run[k].memory.hasTask, run[k + 1].memory.hasTask)
  {
    assert GoodStep(nodes, run, events, k) && SettledAt(run, events, k);
    GapShrinks(nodes, run, events, k);
    if events[k].Sync? && !Stops(run[k].memory, events[k].i) {
      DecisionClosesGap(nodes, Entries(run[k].group), events[k].act, run[k + 1].memory.hasTask);
    }
  }

  /** So the first syncs each make an edit, as many as the first gap, and the next one clears the task. */
  lemma {:induction false} MovesAddUp(events: seq<Event>, gaps: seq<nat>, tasks: seq<bool>, k: nat)
    requires |gaps| == |tasks| == |events| + 1 && tasks[0] && k <= |events|
    requires forall i :: 0 <= i < |events| ==> SettledMove(events[i], gaps[i], gaps[i + 1], tasks[i], tasks[i + 1])
    ensures EditCount(events, k) == Min(SyncCount(events, k), gaps[0]) && EditCount(events, k) + gaps[k] == gaps[0]
    ensures tasks[k] <==> SyncCount(events, k) <= gaps[0]
  {
    if k > 0 {
      MovesAddUp(events, gaps, tasks, k - 1);
      assert SettledMove(events[k - 1], gaps[k - 1], gaps[k], tasks[k - 1], tasks[k]);
    }
  }

  /** The gaps and the tasks along a run in which the cloud settles before each sync. */
  lemma SettledMoves(nodes: set<string>, run: seq<System>, events: seq<Event>, k: nat) returns (gaps: seq<nat>, tasks: seq<bool>)
    requires IsGoodRun(nodes, run, events) && SettlesFirst(run, events) && k < |run|
    ensures |gaps| == |tasks| == |run| && gaps[0] == GapOf(nodes, run[0])
    ensures tasks[0] == run[0].memory.hasTask && tasks[k] == run[k].memory.hasTask
    ensures forall i :: 0 <= i < |events| ==> SettledMove(events[i], gaps[i], gaps[i + 1], tasks[i], tasks[i + 1])
  {
    gaps := seq(|run|, i requires 0 <= i < |run| => GapOf(nodes, run[i]));
    tasks := seq(|run|, i requires 0 <= i < |run| => run[i].memory.hasTask);
    forall i | 0 <= i < |events|
      ensures SettledMove(events[i], gaps[i], gaps[i + 1], tasks[i], tasks[i + 1])
    {
      SettledStepMoves(nodes, run, events, i);
    }
  }

  lemma SyncsEditWhileGap(nodes: set<string>, run: seq<System>, events: seq<Event>, k: nat)
    requires IsGoodRun(nodes, run, events) && run[0].memory.hasTask && SettlesFirst(run, events) && k <= |events|
    ensures EditCount(events, k) == Min(SyncCount(events, k), GapOf(nodes, run[0]))
    ensures run[k].memory.hasTask <==> SyncCount(events, k) <= GapOf(nodes, run[0])
  {
    var gaps, tasks := SettledMoves(nodes, run, events, k);
    MovesAddUp(events, gaps, tasks, k);
  }

  /**
   When the cloud settles before each sync, the first syncs each make an edit, as many as entries were missing or
   too many; from then on the group is that of the nodes, and the next sync leaves no work.
   */
  lemma Converges(nodes: set<string>, run: seq<System>, events: seq<Event>, k: nat)
    requires IsGoodRun(nodes, run, events) && run[0].memory.hasTask && SettlesFirst(run, events) && k <= |events|
    ensures var n, m := GapOf(nodes, run[0]), SyncCount(events, k);
            && EditCount(events, k) == (if m < n then m else n)
            && (run[k].memory.hasTask <==> m <= n)
            && (m >= n <==> Live(Entries(run[k].group)) == Target(nodes))
  {
    SyncsEditWhileGap(nodes, run, events, k);
    EditsPlusGap(nodes, run, events, k);
    GapZeroIff(Target(nodes), Live(Entries(run[k].group)));
  }

  // ---------- when the belief is right ----------

  /** The settled group is that of the nodes. */
  ghost predicate HasTarget(nodes: set<string>, x: System) {
    Live(Entries(x.group)) == Target(nodes)
  }

  /** The group does not look finished while something is still being revoked. */
  ghost predicate NotDeceiving(nodes: set<string>, g: Group) {
    Listed(g) == Target(nodes) ==> NoRevoking(g)
  }

  /** What a run towards these nodes keeps: a belief is right, and until then the group does not deceive. */
  ghost predicate OnTheWay(nodes: set<string>, x: System) {
    && SafeGroup(Entries(x.group))
    && if x.memory.hasTask then NotDeceiving(nodes, Entries(x.group)) else HasTarget(nodes, x)
  }

  /** An entry that is being revoked is gone when it has settled, and nothing else changes in a safe group. */
  lemma FinishedInSafe(g: Group, k: nat)
    requires SafeGroup(g) && k < |g|
    ensures NoRevoking(g) || g[k].status.Revoking? || Finished(g, k) == g
    ensures NoRevoking(g) || g[k].status.Revoking? ==> NoRevoking(Finished(g, k))
  {
    var h := Finished(g, k);
    if g[k].status.Revoking? {
      assert forall i :: 0 <= i < |h| ==> h[i] == if i < k then g[i] else g[i + 1];
    } else if NoRevoking(g) {
      assert forall i :: 0 <= i < |h| ==> h[i].status.Authorized? || h[i] == g[i];
    } else {
      var i :| 0 <= i < |g| && g[i].status.Revoking?;
      assert g[k].status.Authorized?;
    }
  }

  lemma SettleStaysOnTheWay(nodes: set<string>, x: System, k: nat, y: System)
    requires Step(x, Settle(k), y) && OnTheWay(nodes, x)
    ensures OnTheWay(nodes, y)
  {
    FinishedKeepsSafe(x.group.value, k);
    FinishedKeepsLive(x.group.value, k);
    FinishedInSafe(x.group.value, k);
  }

  /** An edit leaves a group that does not deceive. */
  lemma ApplyDoesNotDeceive(nodes: set<string>, g: Group, act: Action)
    requires Decided(nodes, g, act, true) && SafeGroup(g) && NotDeceiving(nodes, g)
    ensures NotDeceiving(nodes, Apply(g, act))
  {
    var h := Apply(g, act);
    match act {
      case NoEdit =>
      case Authorize(c) =>
        assert forall i :: 0 <= i < |g| ==> g[i] in g && g[i].status.Authorized?;
        assert forall i :: 0 <= i < |h| ==> !h[i].status.Revoking?;
      case Revoke(c) =>
        var k :| 0 <= k < |g| && g[k].cidrIP == c;
        assert h[k].cidrIP == c && h[k] in h;
        assert c in Listed(h);
    }
  }

  lemma SyncStaysOnTheWay(nodes: set<string>, x: System, e: Event, y: System)
    requires Step(x, e, y) && e.Sync? && GoodSync(nodes, e) && OnTheWay(nodes, x)
    ensures OnTheWay(nodes, y)
  {
    StepKeepsSafe(x, e, y);
    if !Stops(x.memory, e.i) {
      var g := Entries(x.group);
      if y.memory.hasTask {
        if !x.memory.hasTask {
          BeliefIsNotDeceiving(nodes, g);
        }
        ApplyDoesNotDeceive(nodes, g, e.act);
      } else {
        if !x.memory.hasTask {
          BeliefIsNotDeceiving(nodes, g);
        }
        LiveIsListed(g);
      }
    }
  }

  lemma BeliefIsNotDeceiving(nodes: set<string>, g: Group)
    requires SafeGroup(g) && Live(g) == Target(nodes)
    ensures NotDeceiving(nodes, g)
  {
    if Listed(g) == Target(nodes) {
      LiveIffNoRevoking(Target(nodes), g);
    }
  }

  lemma {:induction false} StaysOnTheWay(nodes: set<string>, run: seq<System>, events: seq<Event>, k: nat)
    requires IsGoodRun(nodes, run, events) && OnTheWay(nodes, run[0]) && k <= |events|
    ensures OnTheWay(nodes, run[k])
  {
    if k > 0 {
      StaysOnTheWay(nodes, run, events, k - 1);
      assert GoodStep(nodes, run, events, k - 1);
      if events[k - 1].Sync? {
        SyncStaysOnTheWay(nodes, run[k - 1], events[k - 1], run[k]);
      } else {
        SettleStaysOnTheWay(nodes, run[k - 1], events[k - 1].k, run[k]);
      }
    }
  }

  /**
   However the cloud settles: once the syncer believes that no work is left, the group is that of the nodes and it
   has made exactly the edits of the first gap, if the group did not deceive it at first.
   */
  lemma BelievesOnlyWhenDone(nodes: set<string>, run: seq<System>, events: seq<Event>, k: nat)
    requires IsGoodRun(nodes, run, events) && run[0].memory.hasTask && SafeGroup(Entries(run[0].group))
    requires NotDeceiving(nodes, Entries(run[0].group))
    requires k <= |events| && !run[k].memory.hasTask
    ensures Live(Entries(run[k].group)) == Target(nodes) && EditCount(events, k) == GapOf(nodes, run[0])
  {
    StaysOnTheWay(nodes, run, events, k);
    EditsPlusGap(nodes, run, events, k);
    GapZeroIff(Target(nodes), Live(Entries(run[k].group)));
  }

  /** In the run, every belief that no work is left is right. */
  ghost predicate BeliefsAreRight(nodes: set<string>, run: seq<System>) {
    forall k :: 0 <= k < |run| && !run[k].memory.hasTask ==> HasTarget(nodes, run[k])
  }

  /** The very next good sync over a group that deceives clears the task, wrongly. */
  lemma DeceivedAtOnce(nodes: set<string>, x: System, e: Event, y: System)
    requires x.memory.hasTask && SafeGroup(Entries(x.group)) && !NotDeceiving(nodes, Entries(x.group))
    requires Step(x, e, y) && e.Sync? && GoodSync(nodes, e)
    ensures !y.memory.hasTask && !HasTarget(nodes, y)
  {
    LiveIffNoRevoking(Target(nodes), Entries(x.group));
  }

  /** The sync that follows when nothing is done. */
  ghost function IdleSync(nodes: set<string>): (e: Event) {
    Sync(Inputs(true, true, Ok(nodes), Ok(GroupInput("", ""))), ALL_OK, NoEdit)
  }

  lemma IdleSyncSteps(nodes: set<string>, x: System) returns (y: System)
    requires x.memory.hasTask && x.group.Some? && Listed(x.group.value) == Target(nodes)
    ensures Step(x, IdleSync(nodes), y)
  {
    var i := IdleSync(nodes).i;
    y := System(Remembered(x.memory, i).(restoreClusterID := false, hasTask := false), x.group, Some(x.group.value));
    assert Apply(x.group.value, NoEdit) == x.group.value;
  }

  /** From a safe group, every good run has only right beliefs if and only if the group does not deceive at first. */
  lemma BelievesOnlyWhenDoneIff(nodes: set<string>, x: System)
    requires x.memory.hasTask && SafeGroup(Entries(x.group))
    ensures (forall run: seq<System>, events: seq<Event> :: IsGoodRun(nodes, run, events) && run[0] == x ==> BeliefsAreRight(nodes, run))
       <==> NotDeceiving(nodes, Entries(x.group))
  {
    if NotDeceiving(nodes, Entries(x.group)) {
      forall run: seq<System>, events: seq<Event> | IsGoodRun(nodes, run, events) && run[0] == x
        ensures BeliefsAreRight(nodes, run)
      {
        forall k | 0 <= k < |run| && !run[k].memory.hasTask
          ensures HasTarget(nodes, run[k])
        {
          BelievesOnlyWhenDone(nodes, run, events, k);
        }
      }
    } else {
      var y := IdleSyncSteps(nodes, x);
      DeceivedAtOnce(nodes, x, IdleSync(nodes), y);
      var run, events := [x, y], [IdleSync(nodes)];
      assert Step(run[0], events[0], run[0 + 1]);
      assert IsGoodRun(nodes, run, events) && run[0] == x;
      assert !run[1].memory.hasTask && !HasTarget(nodes, run[1]);
      assert !BeliefsAreRight(nodes, run);
    }
  }

  // ---------- a node that returns ----------

  lemma Extend(run: seq<System>, events: seq<Event>, restoreClusterID: bool, e: Event, y: System)
    requires IsRun(run, events, restoreClusterID) && Step(run[|run| - 1], e, y)
    ensures IsRun(run + [y], events + [e], restoreClusterID)
  {
  }

  /**
   A node that leaves and returns while its entry is being revoked is taken for listed: the entry goes, and the
   internal check skips from then on.
   */
  lemma ReturningNodeLosesEntry(ip: string, input: GroupInput)
    ensures exists run: seq<System>, events: seq<Event> ::
              && IsRun(run, events, false) && var last := run[|run| - 1];
              && !last.memory.hasTask && last.memory.lastNodes == Some({ip}) && last.group == Some([])
              && Stops(last.memory, Inputs(true, false, Ok({ip}), Ok(input)))
  {
    var c := Cidr(ip);
    var g0, g1 := [IPRange(c, Authorized)], [IPRange(c, Revoking)];
    var x0 := System(State(true, false, None, None), Some(g0), None);
    var x1 := System(State(true, false, Some({}), Some(input)), Some(g1), None);
    var x2 := System(State(false, false, Some({ip}), Some(input)), Some(g1), Some(g1));
    var x3 := x2.(group := Some([]));
    var away, back := Inputs(true, false, Ok({}), Ok(input)), Inputs(true, false, Ok({ip}), Ok(input));
    var e0, e1, e2 := Sync(away, ALL_OK, Revoke(c)), Sync(back, ALL_OK, NoEdit), Settle(0);
    assert Step(x0, e0, x1) by {
      assert IPRange(c, Authorized) in g0 && c in Listed(g0);
      assert Apply(g0, Revoke(c)) == g1;
    }
    assert Step(x1, e1, x2) by {
      assert g1[0] in g1 && Listed(g1) == {c} == Target({ip});
    }
    assert Step(x2, e2, x3) by {
      assert Finished(g1, 0) == [];
    }
    Extend([x0], [], false, e0, x1);
    Extend([x0] + [x1], [] + [e0], false, e1, x2);
    Extend([x0] + [x1] + [x2], [] + [e0] + [e1], false, e2, x3);
    var run := [x0] + [x1] + [x2] + [x3];
    assert run[|run| - 1] == x3;
  }
}
