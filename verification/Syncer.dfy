/**
 The synchronisation of the NAS security group with the private addresses of the nodes
 (pkg/driver/securitygroup_syncer.go).

 A sync makes at most one edit, and the cloud settles it later.  Between syncs the syncer remembers the last
 nodes and whether work is left, and skips syncs by that.
 */
module Syncer {
  import opened Wrappers

  datatype Status = Authorized | Authorizing | Revoking

  datatype IPRange = IPRange(cidrIP: string, status: Status)

  type Group = seq<IPRange>

  datatype GroupInput = GroupInput(zone: string, name: string)

  /** The edit that a sync asks the cloud for. */
  datatype Action = NoEdit | Authorize(cidr: string) | Revoke(cidr: string)

  /** What the clock and the API server say at a sync: the periodic checks, the node addresses, the group to use. */
  datatype Inputs = Inputs(internalCheck: bool, cloudCheck: bool, nodes: Result<set<string>>, input: Result<GroupInput>)

  /** Which of the calls to the cloud succeed. */
  datatype Outcomes = Outcomes(get: bool, create: bool, restore: bool, edit: bool)

  const ALL_OK := Outcomes(true, true, true, true)

  datatype State = State(hasTask: bool, restoreClusterID: bool, lastNodes: Option<set<string>>, lastInput: Option<GroupInput>)

  // ---------- groups and edits ----------

  function Cidr(ip: string): (c: string) {
    ip + "/32"
  }

  /** The entries that the nodes need. */
  ghost function Target(nodes: set<string>): (t: set<string>) {
    set ip | ip in nodes :: Cidr(ip)
  }

  /** The entries of the group, in whatever status. */
  ghost function Listed(g: Group): (l: set<string>) {
    set r | r in g :: r.cidrIP
  }

  ghost predicate Editable(g: Group) {
    forall r :: r in g ==> r.status.Authorized?
  }

  /** What the cloud makes of an edit at first. */
  function Apply(g: Group, act: Action): (h: Group) {
    match act
    case NoEdit => g
    case Authorize(c) => g + [IPRange(c, Authorizing)]
    case Revoke(c) => seq(|g|, i requires 0 <= i < |g| => if g[i].cidrIP == c then g[i].(status := Revoking) else g[i])
  }

  /** The edit for a group and a set of nodes, and whether work is left: missing entries first, then extra ones. */
  ghost predicate Decided(nodes: set<string>, g: Group, act: Action, task: bool) {
    if !(Target(nodes) <= Listed(g)) then
      task && if Editable(g) then act.Authorize? && act.cidr in Target(nodes) - Listed(g) else act == NoEdit
    else if !(Listed(g) <= Target(nodes)) then
      task && if Editable(g) then act.Revoke? && act.cidr in Listed(g) - Target(nodes) else act == NoEdit
    else !task && act == NoEdit
  }

  // ---------- one sync ----------

  /** The sync stops before it asks the cloud. */
  ghost predicate Stops(s: State, i: Inputs) {
    || (!s.hasTask && !i.internalCheck && !i.cloudCheck)
    || i.nodes.Err? || i.input.Err?
    || (Unchanged(s, i) && !s.hasTask && !i.cloudCheck)
  }

  ghost predicate Unchanged(s: State, i: Inputs)
    requires i.nodes.Ok? && i.input.Ok?
  {
    s.lastNodes == Some(i.nodes.value) && s.lastInput == Some(i.input.value)
  }

  /** The memory after the internal check. */
  ghost function Remembered(s: State, i: Inputs): (t: State)
    requires i.nodes.Ok? && i.input.Ok?
  {
    if Unchanged(s, i) then s else State(true, s.restoreClusterID, Some(i.nodes.value), Some(i.input.value))
  }

  /** The whole effect of a sync on the memory and on the group, which may not exist yet. */
  ghost predicate Synced(s: State, g: Option<Group>, i: Inputs, o: Outcomes, s': State, g': Option<Group>, act: Action) {
    if Stops(s, i) then s' == s && g' == g && act == NoEdit
    else
      var m := Remembered(s, i);
      if !o.get || (g.None? && !o.create) then s' == m && g' == g && act == NoEdit
      else
        var h := if g.Some? then g.value else [];
        if m.restoreClusterID && !o.restore then s' == m.(restoreClusterID := false) && g' == Some(h) && act == NoEdit
        else
          && Decided(i.nodes.value, h, act, s'.hasTask)
          && s' == m.(restoreClusterID := false, hasTask := s'.hasTask)
          && g' == Some(if o.edit then Apply(h, act) else h)
  }

  /** The sync gets as far as comparing the group with the nodes. */
  ghost predicate Compares(s: State, g: Option<Group>, i: Inputs, o: Outcomes) {
    !Stops(s, i) && o.get && (g.Some? || o.create) && (s.restoreClusterID ==> o.restore)
  }

  /** The sync reports an error: something it needed could not be read, or a call to the cloud failed. */
  ghost predicate Fails(s: State, g: Option<Group>, i: Inputs, o: Outcomes, act: Action) {
    if Stops(s, i) then (s.hasTask || i.internalCheck || i.cloudCheck) && (i.nodes.Err? || i.input.Err?)
    else !Compares(s, g, i, o) || (act != NoEdit && !o.edit)
  }

  // ---------- a sync in plain terms ----------

  lemma TargetIs(nodes: set<string>, c: string)
    ensures c in Target(nodes) <==> exists ip :: ip in nodes && c == ip + "/32"
  {
  }

  /** The group lists the /32 of every node and nothing else. */
  ghost predicate Agree(nodes: set<string>, g: Group) {
    && (forall ip :: ip in nodes ==> exists r :: r in g && r.cidrIP == ip + "/32")
    && (forall r :: r in g ==> exists ip :: ip in nodes && r.cidrIP == ip + "/32")
  }

  lemma AgreeIff(nodes: set<string>, g: Group)
    ensures Agree(nodes, g) <==> Listed(g) == Target(nodes)
  {
    if Agree(nodes, g) {
      forall ip | ip in nodes
        ensures Cidr(ip) in Listed(g)
      {
        var r :| r in g && r.cidrIP == ip + "/32";
      }
    } else if Listed(g) == Target(nodes) {
      forall ip | ip in nodes
        ensures exists r :: r in g && r.cidrIP == ip + "/32"
      {
        assert Cidr(ip) in Listed(g);
      }
      forall r | r in g
        ensures exists ip :: ip in nodes && r.cidrIP == ip + "/32"
      {
        assert r.cidrIP in Target(nodes);
      }
    }
  }

  /** There is something to do, a cloud check is due, or the internal check is due and something changed. */
  ghost predicate HasReason(s: State, i: Inputs)
    requires i.nodes.Ok? && i.input.Ok?
  {
    || s.hasTask || i.cloudCheck
    || (i.internalCheck && !(s.lastNodes == Some(i.nodes.value) && s.lastInput == Some(i.input.value)))
  }

  /** A sync goes on exactly if it can read its inputs and has a reason. */
  lemma StopsIff(s: State, i: Inputs)
    ensures Stops(s, i) <==> i.nodes.Err? || i.input.Err? || !HasReason(s, i)
  {
  }

  /** What a sync remembers at least when it has a reason. */
  ghost function Noted(s: State, i: Inputs): (t: State)
    requires i.nodes.Ok? && i.input.Ok?
  {
    var changed := !(s.lastNodes == Some(i.nodes.value) && s.lastInput == Some(i.input.value));
    State(s.hasTask || changed, s.restoreClusterID, Some(i.nodes.value), Some(i.input.value))
  }

  /** A sync without readable inputs or without a reason does nothing; one that does not get the group only notes its inputs. */
  lemma SyncWithoutGroup(s: State, g: Option<Group>, i: Inputs, o: Outcomes, s': State, g': Option<Group>, act: Action)
    requires Synced(s, g, i, o, s', g', act)
    ensures i.nodes.Err? || i.input.Err? || !HasReason(s, i) ==> s' == s && g' == g && act == NoEdit
    ensures i.nodes.Ok? && i.input.Ok? && HasReason(s, i) && !(o.get && (g.Some? || o.create)) ==>
              s' == Noted(s, i) && g' == g && act == NoEdit
    ensures i.nodes.Ok? && i.input.Ok? && HasReason(s, i) && o.get && (g.Some? || o.create) && s.restoreClusterID && !o.restore ==>
              s' == Noted(s, i).(restoreClusterID := false) && g' == (if g.Some? then g else Some([])) && act == NoEdit
  {
  }

  /** It reports an error exactly if it needed something that it did not get. */
  lemma FailsIff(s: State, g: Option<Group>, i: Inputs, o: Outcomes, act: Action)
    ensures Fails(s, g, i, o, act) <==>
              if i.nodes.Ok? && i.input.Ok? then
                HasReason(s, i) && (!(o.get && (g.Some? || o.create) && (s.restoreClusterID ==> o.restore)) || (act != NoEdit && !o.edit))
              else s.hasTask || i.internalCheck || i.cloudCheck
  {
  }

  /**
   A sync that has a reason and gets the group, or creates an empty one, compares: the edit is right, and the task
   says whether they agree.
   */
  lemma SyncWithReason(s: State, was: Option<Group>, i: Inputs, o: Outcomes, s': State, g': Option<Group>, act: Action, g: Group)
    requires Synced(s, was, i, o, s', g', act)
    requires i.nodes.Ok? && i.input.Ok? && HasReason(s, i) && o.get && (s.restoreClusterID ==> o.restore)
    requires if was.Some? then g == was.value else o.create && g == []
    ensures act != NoEdit ==> forall r :: r in g ==> r.status.Authorized?
    ensures act.Authorize? ==>
              && (exists ip :: ip in i.nodes.value && act.cidr == ip + "/32")
              && (forall r :: r in g ==> r.cidrIP != act.cidr)
    ensures act.Revoke? ==>
              && (exists r :: r in g && r.cidrIP == act.cidr)
              && (forall ip :: ip in i.nodes.value ==> act.cidr != ip + "/32")
              && (forall ip :: ip in i.nodes.value ==> exists r :: r in g && r.cidrIP == ip + "/32")
    ensures s' == State(!Agree(i.nodes.value, g), false, Some(i.nodes.value), Some(i.input.value))
    ensures (forall r :: r in g ==> r.status.Authorized?) ==> (act == NoEdit <==> Agree(i.nodes.value, g))
    ensures g' == Some(if o.edit then Apply(g, act) else g)
  {
    AgreeIff(i.nodes.value, g);
    if act.Revoke? {
      forall ip | ip in i.nodes.value
        ensures exists r :: r in g && r.cidrIP == ip + "/32"
      {
        assert Cidr(ip) in Listed(g);
      }
    }
  }

  /** A periodic check of the cloud over a settled group finds every difference, whatever the memory says. */
  lemma CloudCheckFinds(s: State, g: Group, i: Inputs, s': State, g': Option<Group>, act: Action)
    requires Synced(s, Some(g), i, ALL_OK, s', g', act)
    requires i.nodes.Ok? && i.input.Ok? && i.cloudCheck && forall r :: r in g ==> r.status.Authorized?
    ensures act == NoEdit <==> Agree(i.nodes.value, g)
    ensures act == NoEdit <==> Listed(g) == Target(i.nodes.value)
  {
    SyncWithReason(s, Some(g), i, ALL_OK, s', g', act, g);
    AgreeIff(i.nodes.value, g);
  }

  class Cloud {
    var group: Option<Group>

    method CreateNasSecurityGroup(ok: bool) returns (r: Result<Group>)
      modifies this
      ensures ok ==> r == Ok([]) && group == Some([])
      ensures !ok ==> r.Err? && group == old(group)
    {
      if !ok {
        return Err("Error creating NASSecurityGroup");
      }
      group := Some([]);
      return Ok([]);
    }

    method Edit(act: Action, ok: bool) returns (r: Result<()>)
      requires group.Some?
      modifies this
      ensures r.Ok? == ok && group == Some(if ok then Apply(old(group).value, act) else old(group).value)
    {
      if !ok {
        return Err("Error editing NASSecurityGroup ingress");
      }
      group := Some(Apply(group.value, act));
      return Ok(());
    }
  }

  /** Some node address whose entry is not in the group; the nodes come in any order. */
  method FindMissing(nodes: set<string>, g: Group) returns (missing: Option<string>)
    ensures missing.Some? ==> missing.value in Target(nodes) - Listed(g)
    ensures missing.None? ==> Target(nodes) <= Listed(g)
  {
    var rest := nodes;
    while rest != {}
      invariant rest <= nodes && Target(nodes - rest) <= Listed(g)
      decreases rest
    {
      var ip :| ip in rest;
      var ipRange := Cidr(ip);
      var authorized := false;
      for k := 0 to |g|
        invariant !authorized && forall j :: 0 <= j < k ==> g[j].cidrIP != ipRange
      {
        if g[k].cidrIP == ipRange {
          authorized := true;
          break;
        }
      }
      if !authorized {
        return Some(ipRange);
      }
      rest := rest - {ip};
      assert nodes - rest == (nodes - (rest + {ip})) + {ip};
      assert Target(nodes - rest) == Target(nodes - (rest + {ip})) + {ipRange};
    }
    assert nodes - rest == nodes;
    return None;
  }

  /** The first entry of the group that no node needs. */
  method FindExtra(nodes: set<string>, g: Group) returns (extra: Option<string>)
    ensures extra.Some? ==> extra.value in Listed(g) - Target(nodes)
    ensures extra.Some? ==> exists k ::
                0 <= k < |g| && g[k].cidrIP == extra.value && forall j :: 0 <= j < k ==> g[j].cidrIP in Target(nodes)
    ensures extra.None? ==> Listed(g) <= Target(nodes)
  {
    for k := 0 to |g|
      invariant forall j :: 0 <= j < k ==> g[j].cidrIP in Target(nodes)
    {
      var nodeExists := false;
      var rest := nodes;
      while rest != {}
        invariant rest <= nodes && !nodeExists && g[k].cidrIP !in Target(nodes - rest)
        decreases rest
      {
        var ip :| ip in rest;
        if g[k].cidrIP == Cidr(ip) {
          nodeExists := true;
          break;
        }
        rest := rest - {ip};
        assert Target(nodes - rest) == Target(nodes - (rest + {ip})) + {Cidr(ip)} by {
          assert nodes - rest == (nodes - (rest + {ip})) + {ip};
        }
      }
      if !nodeExists {
        assert nodes - rest == nodes;
        return Some(g[k].cidrIP);
      }
    }
    return None;
  }

  method IsEditable(g: Group) returns (editable: bool)
    ensures editable <==> Editable(g)
  {
    editable := true;
    for k := 0 to |g|
      invariant editable && forall j :: 0 <= j < k ==> g[j].status.Authorized?
    {
      if !g[k].status.Authorized? {
        editable := false;
        break;
      }
    }
  }

  class NSGSyncer {
    var hasTask: bool
    var restoreClusterID: bool
    var lastNodePrivateIps: Option<set<string>>
    var lastSecurityGroupInput: Option<GroupInput>
    const cloud: Cloud

    ghost function View(): (s: State)
      reads this
    {
      State(hasTask, restoreClusterID, lastNodePrivateIps, lastSecurityGroupInput)
    }

    constructor (cloud: Cloud, restoreClusterID: bool)
      ensures View() == State(true, restoreClusterID, None, None) && this.cloud == cloud
    {
      this.cloud := cloud;
      this.hasTask, this.restoreClusterID := true, restoreClusterID;
      this.lastNodePrivateIps, this.lastSecurityGroupInput := None, None;
    }

    /** The internal check: whether to go on, and what to remember. */
    method InternalCheck(i: Inputs) returns (r: Result<()>, stop: bool)
      modifies this
      ensures stop == Stops(old(View()), i)
      ensures View() == if stop then old(View()) else Remembered(old(View()), i)
      ensures !stop <==> i.nodes.Ok? && i.input.Ok? && HasReason(old(View()), i)
      ensures stop ==> View() == old(View())
      ensures !stop ==> lastNodePrivateIps == Some(i.nodes.value) && lastSecurityGroupInput == Some(i.input.value)
      ensures !stop ==> restoreClusterID == old(restoreClusterID)
      ensures !stop ==> (hasTask <==> old(hasTask) || old(lastNodePrivateIps) != Some(i.nodes.value)
                                      || old(lastSecurityGroupInput) != Some(i.input.value))
      ensures r.Err? <==> (old(hasTask) || i.internalCheck || i.cloudCheck) && (i.nodes.Err? || i.input.Err?)
    {
      if !hasTask && !i.internalCheck && !i.cloudCheck {
        return Ok(()), true;
      }
      if i.nodes.Err? {
        return Err("Error getting node private IPs"), true;
      }
      if i.input.Err? {
        return Err(i.input.error), true;
      }
      var nodes, input := i.nodes.value, i.input.value;
      if lastNodePrivateIps.Some? && lastSecurityGroupInput.Some? {
        if nodes == lastNodePrivateIps.value && input == lastSecurityGroupInput.value {
          if !hasTask && !i.cloudCheck {
            return Ok(()), true;
          }
        } else {
          lastNodePrivateIps, lastSecurityGroupInput, hasTask := Some(nodes), Some(input), true;
        }
      } else {
        lastNodePrivateIps, lastSecurityGroupInput, hasTask := Some(nodes), Some(input), true;
      }
      return Ok(()), false;
    }

    /** Gets the group, or creates an empty one, and restores the names of groups once. */
    method PrepareGroup(o: Outcomes) returns (r: Result<()>)
      modifies this`restoreClusterID, cloud
      ensures var got := o.get && (old(cloud.group).Some? || o.create);
              && (r.Ok? <==> got && (old(restoreClusterID) ==> o.restore))
              && restoreClusterID == (!got && old(restoreClusterID))
              && cloud.group == if got && old(cloud.group).None? then Some([]) else old(cloud.group)
    {
      if !o.get {
        return Err("Error getting NASSecurityGroup");
      }
      if cloud.group.None? {
        var created := cloud.CreateNasSecurityGroup(o.create);
        if created.Err? {
          return Err(created.error);
        }
      }
      if restoreClusterID {
        restoreClusterID := false;
        if !o.restore {
          return Err("Error restoring NASSecurityGroup names");
        }
      }
      return Ok(());
    }

    /** One edit at most: authorize a missing entry, or else revoke an extra one. */
    method Reconcile(nodes: set<string>, ok: bool) returns (r: Result<()>, act: Action)
      requires cloud.group.Some?
      modifies this`hasTask, cloud
      ensures Decided(nodes, old(cloud.group).value, act, hasTask)
      ensures cloud.group == Some(if ok then Apply(old(cloud.group).value, act) else old(cloud.group).value)
      ensures r.Err? <==> act != NoEdit && !ok
    {
      act := NoEdit;
      r := Ok(());
      var nsg := cloud.group.value;
      var editable := IsEditable(nsg);
      var missing := FindMissing(nodes, nsg);
      if missing.Some? {
        hasTask := true;
        if !editable {
          return;
        }
        act := Authorize(missing.value);
        r := cloud.Edit(act, ok);
        return;
      }
      var extra := FindExtra(nodes, nsg);
      if extra.Some? {
        hasTask := true;
        if !editable {
          return;
        }
        act := Revoke(extra.value);
        r := cloud.Edit(act, ok);
        return;
      }
      hasTask := false;
    }

    method SyncNasSecurityGroups(i: Inputs, o: Outcomes) returns (r: Result<()>, act: Action)
      modifies this, cloud
      ensures Synced(old(View()), old(cloud.group), i, o, View(), cloud.group, act)
      ensures r.Err? <==> Fails(old(View()), old(cloud.group), i, o, act)
    {
      var stop;
      r, stop := InternalCheck(i);
      if stop {
        return r, NoEdit;
      }
      r := PrepareGroup(o);
      if r.Err? {
        return r, NoEdit;
      }
      r, act := Reconcile(i.nodes.value, o.edit);
    }
  }
}
