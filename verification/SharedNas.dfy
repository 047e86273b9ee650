/**
 Placement of a volume on a shared NAS instance (pkg/driver/shared_utils.go).

 The driver looks at the instances numbered 1 to 10 in turn.  It knows an instance only by a name prefix,
 and finds the volumes of the instance by looking for that text in the handles of all persistent volumes.
 */
module SharedNas {
  import opened Capacity
  import opened Strings
  import opened Wrappers

  /** A persistent volume; one without a CSI source has no handle, and its capacity may not be an integer. */
  datatype PV = PV(name: string, handle: Option<string>, capacity: Option<int>)

  /** A NAS instance; its storage in GiB comes as text and may not parse. */
  datatype Nas = Nas(id: string, deleting: bool, storage: Option<int>)

  function CapacityBytes(n: Nas): (bytes: int) {
    if n.storage.Some? then GbToBytes(n.storage.value) else 0
  }

  // ---------- reading the volume list ----------

  predicate Mentions(pv: PV, nasName: string) {
    pv.handle.Some? && Contains(pv.handle.value, nasName)
  }

  function CapOf(pv: PV): (bytes: int) {
    if pv.capacity.Some? then pv.capacity.value else 0
  }

  /** The sum of the capacities of the volumes that a test selects. */
  ghost function SumIf(pvs: seq<PV>, on: PV -> bool): (bytes: int) {
    if pvs == [] then 0
    else SumIf(pvs[..|pvs| - 1], on) + (if on(pvs[|pvs| - 1]) then CapOf(pvs[|pvs| - 1]) else 0)
  }

  ghost function Mentioning(nasName: string): (on: PV -> bool) {
    pv => Mentions(pv, nasName)
  }

  /** The sum of the capacities of the volumes whose handle contains the name. */
  ghost function ReservedCap(pvs: seq<PV>, nasName: string): (bytes: int) {
    SumIf(pvs, Mentioning(nasName))
  }

  lemma {:induction false} SumIfConcat(a: seq<PV>, b: seq<PV>, on: PV -> bool)
    ensures SumIf(a + b, on) == SumIf(a, on) + SumIf(b, on)
  {
    if b == [] {
      assert a + b == a;
    } else {
      var init := b[..|b| - 1];
      assert (a + b)[..|a + b| - 1] == a + init;
      SumIfConcat(a, init, on);
    }
  }

  /** A volume at position k of the list adds its own capacity. */
  lemma SumIfSplit(a: seq<PV>, pv: PV, b: seq<PV>, on: PV -> bool)
    ensures SumIf(a + [pv] + b, on) == SumIf(a + b, on) + (if on(pv) then CapOf(pv) else 0)
  {
    SumIfConcat(a + [pv], b, on);
    SumIfConcat(a, [pv], on);
    SumIfConcat(a, b, on);
    assert [pv][..0] == [];
  }

  lemma {:induction false} SumIfMonotone(pvs: seq<PV>, f: PV -> bool, g: PV -> bool)
    requires forall pv :: pv in pvs ==> (f(pv) ==> g(pv)) && (g(pv) && !f(pv) ==> CapOf(pv) >= 0)
    ensures SumIf(pvs, f) <= SumIf(pvs, g)
  {
    if pvs != [] {
      SumIfMonotone(pvs[..|pvs| - 1], f, g);
    }
  }

  method GetNasInstanceReservedCap(pvs: seq<PV>, nasName: string) returns (used: int)
    ensures used == ReservedCap(pvs, nasName)
  {
    used := 0;
    for i := 0 to |pvs|
      invariant used == ReservedCap(pvs[..i], nasName)
    {
      assert pvs[..i + 1][..i] == pvs[..i];
      var pv := pvs[i];
      if pv.handle.Some? {
        if Contains(pv.handle.value, nasName) {
          if pv.capacity.Some? {
            used := used + pv.capacity.value;
          }
        }
      }
    }
    assert pvs[..|pvs|] == pvs;
  }

  /** The list shows the name, and no volume but the given one mentions it; an error if nothing mentions it. */
  method NoOtherPvsInSharedNas(pvs: seq<PV>, name: string, nasName: string) returns (r: Result<bool>)
    ensures r.Ok? <==> exists pv :: pv in pvs && Mentions(pv, nasName)
    ensures r.Ok? ==> (r.value <==> forall pv :: pv in pvs && Mentions(pv, nasName) ==> pv.name == name)
  {
    var nasFound, noOtherPVs := false, true;
    for i := 0 to |pvs|
      invariant nasFound <==> exists k :: 0 <= k < i && Mentions(pvs[k], nasName)
      invariant noOtherPVs <==> forall k :: 0 <= k < i && Mentions(pvs[k], nasName) ==> pvs[k].name == name
    {
      var pv := pvs[i];
      if Mentions(pv, nasName) {
        nasFound := true;
        if name != pv.name {
          noOtherPVs := false;
        }
      }
    }
    if !nasFound {
      return Err("Nas not found in PV list");
    }
    return Ok(noOtherPVs);
  }

  /** The handle of the first volume that mentions the name. */
  ghost function FirstHandle(pvs: seq<PV>, nasName: string): (h: Option<string>)
    ensures h.Some? ==> Contains(h.value, nasName) && exists pv :: pv in pvs && pv.handle == h
  {
    if pvs == [] then None
    else if Mentions(pvs[0], nasName) then assert pvs[0] in pvs; pvs[0].handle
    else FirstHandle(pvs[1..], nasName)
  }

  /** The full name of the instance, read from a handle. */
  ghost function NameFromPv(pvs: seq<PV>, nasName: string): (r: Option<string>) {
    var h := FirstHandle(pvs, nasName);
    if h.Some? && |Split(h.value)| == 3 then Some(Split(h.value)[1]) else None
  }

  /** Entry k is the first volume whose handle contains the name. */
  ghost predicate IsFirstMention(pvs: seq<PV>, nasName: string, k: int) {
    && 0 <= k < |pvs| && pvs[k].handle.Some? && Contains(pvs[k].handle.value, nasName)
    && forall m :: 0 <= m < k ==> !(pvs[m].handle.Some? && Contains(pvs[m].handle.value, nasName))
  }

  method GetSharedNameFromExistingPv(pvs: seq<PV>, nasName: string) returns (r: Result<string>)
    ensures r.Ok? <==> NameFromPv(pvs, nasName).Some?
    ensures r.Ok? ==> r.value == NameFromPv(pvs, nasName).value
    ensures r.Ok? ==> exists k ::
              IsFirstMention(pvs, nasName, k) && |Split(pvs[k].handle.value)| == 3 && r.value == Split(pvs[k].handle.value)[1]
    ensures r.Err? ==> forall k :: IsFirstMention(pvs, nasName, k) ==> |Split(pvs[k].handle.value)| != 3
  {
    for i := 0 to |pvs|
      invariant FirstHandle(pvs, nasName) == FirstHandle(pvs[i..], nasName)
      invariant forall m :: 0 <= m < i ==> !(pvs[m].handle.Some? && Contains(pvs[m].handle.value, nasName))
    {
      assert pvs[i..][1..] == pvs[i + 1..];
      if Mentions(pvs[i], nasName) {
        assert IsFirstMention(pvs, nasName, i) && forall k :: IsFirstMention(pvs, nasName, k) ==> k == i;
        var tokens := Split(pvs[i].handle.value);
        if |tokens| != 3 {
          return Err("VolumeHandle format error");
        }
        return Ok(tokens[1]);
      }
    }
    return Err("Cannot find VolumeHandle");
  }

  // ---------- reading the instance list ----------

  ghost predicate Usable(n: Nas, nasName: string) {
    Contains(n.id, nasName) && !n.deleting
  }

  /** The name of the first instance that contains the name and is not being deleted. */
  ghost function NameFromNas(instances: seq<Nas>, nasName: string): (r: Option<string>)
    ensures r.Some? ==> Contains(r.value, nasName) && exists n :: n in instances && n.id == r.value
  {
    if instances == [] then None
    else if Usable(instances[0], nasName) then assert instances[0] in instances; Some(instances[0].id)
    else NameFromNas(instances[1..], nasName)
  }

  /** Entry k is the first instance that contains the name and is not being deleted. */
  ghost predicate IsFirstUsable(instances: seq<Nas>, nasName: string, k: int) {
    && 0 <= k < |instances| && Contains(instances[k].id, nasName) && !instances[k].deleting
    && forall m :: 0 <= m < k ==> !(Contains(instances[m].id, nasName) && !instances[m].deleting)
  }

  method GetSharedNameFromExistingNas(instances: seq<Nas>, nasName: string) returns (name: string, ok: bool)
    ensures ok <==> NameFromNas(instances, nasName).Some?
    ensures name == if ok then NameFromNas(instances, nasName).value else nasName
    ensures ok <==> exists k :: 0 <= k < |instances| && Contains(instances[k].id, nasName) && !instances[k].deleting
    ensures ok ==> exists k :: IsFirstUsable(instances, nasName, k) && name == instances[k].id
  {
    for i := 0 to |instances|
      invariant NameFromNas(instances, nasName) == NameFromNas(instances[i..], nasName)
      invariant forall m :: 0 <= m < i ==> !(Contains(instances[m].id, nasName) && !instances[m].deleting)
    {
      assert instances[i..][1..] == instances[i + 1..];
      if Contains(instances[i].id, nasName) && !instances[i].deleting {
        assert IsFirstUsable(instances, nasName, i);
        return instances[i].id, true;
      }
    }
    return nasName, false;
  }

  /** The instance with exactly this name. */
  function Lookup(instances: seq<Nas>, id: string): (r: Option<Nas>)
    ensures r.Some? ==> r.value in instances && r.value.id == id
    ensures r.None? ==> forall n :: n in instances ==> n.id != id
  {
    if instances == [] then None
    else if instances[0].id == id then Some(instances[0])
    else Lookup(instances[1..], id)
  }

  // ---------- placement ----------

  const MAX_SHARED := 10

  /** fmt.Sprintf("%03d", i), for the numbers in use. */
  function IndexText(i: nat): (s: string)
    requires 1 <= i <= MAX_SHARED
  {
    if i < 10 then "00" + [("0123456789")[i]] else "010"
  }

  function Base(clusterUID: string): (s: string) {
    "cluster-" + clusterUID + "-shd"
  }

  function IndexPrefix(clusterUID: string, instanceType: string, i: nat): (s: string)
    requires 1 <= i <= MAX_SHARED
  {
    Base(clusterUID) + instanceType + IndexText(i)
  }

  /** What the lists say about instance number i: no capacity reserved, an unreadable entry, or a name and its free bytes. */
  datatype Slot = Empty | Broken | Room(nas: string, free: int)

  ghost function SlotAt(pvs: seq<PV>, instances: seq<Nas>, prefix: string): (s: Slot) {
    if ReservedCap(pvs, prefix) == 0 then Empty
    else
      var name := NameFromPv(pvs, prefix);
      if name.None? then Broken
      else
        var nas := Lookup(instances, name.value);
        if nas.None? then Broken
        else Room(name.value, CapacityBytes(nas.value) - ReservedCap(pvs, prefix))
  }

  /** The volume fits: the instance is new, or has the room. */
  ghost predicate Fits(s: Slot, capBytes: int) {
    s.Empty? || (s.Room? && capBytes <= s.free)
  }

  /** The name of the instance for slot s. */
  ghost function NameFor(s: Slot, instances: seq<Nas>, prefix: string, suffix: string): (name: string)
    requires !s.Broken?
  {
    if s.Room? then s.nas
    else if NameFromNas(instances, prefix).Some? then NameFromNas(instances, prefix).value
    else prefix + "-" + suffix
  }

  /** Everything that placement looks at. */
  datatype Lists = Lists(pvs: seq<PV>, instances: seq<Nas>, clusterUID: string, instanceType: string) {
    ghost function Slot(i: nat): (s: Slot)
      requires 1 <= i <= MAX_SHARED
    {
      SlotAt(pvs, instances, IndexPrefix(clusterUID, instanceType, i))
    }

    /** All instances before number i are in use and too full. */
    ghost predicate FullBefore(i: nat, capBytes: int)
      requires 1 <= i <= MAX_SHARED + 1
    {
      forall j :: 1 <= j < i ==> Slot(j).Room? && !Fits(Slot(j), capBytes)
    }
  }

  /** First fit: number i is the lowest where the volume fits, and the name is the one for it. */
  ghost predicate PlacedAt(l: Lists, capBytes: int, suffix: string, i: nat, name: string) {
    && 1 <= i <= MAX_SHARED
    && l.FullBefore(i, capBytes)
    && Fits(l.Slot(i), capBytes)
    && name == NameFor(l.Slot(i), l.instances, IndexPrefix(l.clusterUID, l.instanceType, i), suffix)
  }

  /** The search has no place: all ten are full, or an unreadable entry comes before any place. */
  ghost predicate NoPlace(l: Lists, capBytes: int) {
    || l.FullBefore(MAX_SHARED + 1, capBytes)
    || exists i :: 1 <= i <= MAX_SHARED && l.FullBefore(i, capBytes) && l.Slot(i).Broken?
  }

  /** Whether the volume fits on the instance with this prefix, and the name to use then. */
  method TryInstance(pvs: seq<PV>, instances: seq<Nas>, prefix: string, capBytes: int, suffix: string)
    returns (name: Result<string>, fits: bool)
    ensures var s := SlotAt(pvs, instances, prefix);
            && (name.Err? <==> s.Broken?)
            && (name.Ok? ==> (fits <==> Fits(s, capBytes)) && (fits ==> name.value == NameFor(s, instances, prefix, suffix)))
  {
    var reservedBytes := GetNasInstanceReservedCap(pvs, prefix);
    if reservedBytes == 0 {
      var newName, ok := GetSharedNameFromExistingNas(instances, prefix);
      if !ok {
        newName := newName + "-" + suffix;
      }
      return Ok(newName), true;
    }
    name := GetSharedNameFromExistingPv(pvs, prefix);
    if name.Err? {
      return Err("Error getting shared nas name"), false;
    }
    var nas := Lookup(instances, name.value);
    if nas.None? {
      return Err("Error getting nas instance"), false;
    }
    fits := capBytes <= CapacityBytes(nas.value) - reservedBytes;
  }

  /** The loop over the instance numbers. */
  method FindPlace(l: Lists, capBytes: int, suffix: string) returns (r: Result<string>)
    ensures r.Ok? ==> exists i :: PlacedAt(l, capBytes, suffix, i, r.value)
    ensures r.Err? ==> NoPlace(l, capBytes)
  {
    var sharedName := "";
    var sharedNamePrefix := Base(l.clusterUID) + l.instanceType;
    for i := 1 to MAX_SHARED + 1
      invariant l.FullBefore(i, capBytes)
    {
      sharedName := sharedNamePrefix + IndexText(i);
      var name, fits := TryInstance(l.pvs, l.instances, sharedName, capBytes, suffix);
      if name.Err? {
        return name;
      }
      if fits {
        assert PlacedAt(l, capBytes, suffix, i, name.value);
        return name;
      }
      if i == MAX_SHARED {
        return Err("Cannot create more than 10 shared NASs");
      }
    }
    return Err("Cannot create more than 10 shared NASs");
  }

  /** The place is unique, and there is one exactly when the search does not fail. */
  lemma PlaceIsUnique(l: Lists, capBytes: int, suffix: string, i: nat, name: string, j: nat, other: string)
    requires PlacedAt(l, capBytes, suffix, i, name)
    ensures !NoPlace(l, capBytes)
    ensures PlacedAt(l, capBytes, suffix, j, other) ==> i == j && name == other
  {
  }

  /** When every entry can be read, the request is refused exactly when all ten are reserved and none has room. */
  lemma RefusedOnlyWhenFull(l: Lists, capBytes: int)
    requires forall i :: 1 <= i <= 10 ==> !l.Slot(i).Broken?
    ensures NoPlace(l, capBytes) <==> forall i :: 1 <= i <= 10 ==> l.Slot(i).Room? && capBytes > l.Slot(i).free
  {
    if forall i :: 1 <= i <= 10 ==> l.Slot(i).Room? && capBytes > l.Slot(i).free {
      assert l.FullBefore(MAX_SHARED + 1, capBytes);
    }
  }

  // ---------- placement in plain terms ----------

  /** The last three characters of the name of a number are its decimal digits. */
  lemma IndexTextIs(i: nat)
    requires 1 <= i <= 10
    ensures var t := IndexText(i);
            && |t| == 3 && (forall k :: 0 <= k < 3 ==> '0' <= t[k] <= '9')
            && 100 * (t[0] as int - '0' as int) + 10 * (t[1] as int - '0' as int) + (t[2] as int - '0' as int) == i
  {
  }

  lemma IndexPrefixIs(clusterUID: string, instanceType: string, i: nat)
    requires 1 <= i <= 10
    ensures IndexPrefix(clusterUID, instanceType, i) == "cluster-" + clusterUID + "-shd" + instanceType + IndexText(i)
  {
  }

  /** No number of an instance type is found when another one is looked for. */
  lemma PrefixesApart(clusterUID: string, instanceType: string, i: nat, j: nat)
    requires 1 <= i <= 10 && 1 <= j <= 10 && i != j
    ensures !Contains(IndexPrefix(clusterUID, instanceType, i), IndexPrefix(clusterUID, instanceType, j))
  {
    var p, q := IndexPrefix(clusterUID, instanceType, i), IndexPrefix(clusterUID, instanceType, j);
    IndexTextIs(i);
    IndexTextIs(j);
    assert p[|p| - 3..] == IndexText(i) && q[|q| - 3..] == IndexText(j);
    ContainsSameLength(p, q);
  }

  /** But number 1 of no type is found in number 10 of type 0. */
  lemma PrefixesOfTypesMeet(clusterUID: string)
    ensures Contains(IndexPrefix(clusterUID, "0", 10), IndexPrefix(clusterUID, "", 1))
  {
    var q := IndexPrefix(clusterUID, "", 1);
    assert Base(clusterUID) + "0" + "010" == q + "0";
    ContainsPrefix(q, "0");
  }

  /** A volume in the list counts with its capacity, if it can be read, exactly when its handle contains the name. */
  lemma ReservedCapIs(a: seq<PV>, pv: PV, b: seq<PV>, nasName: string)
    ensures ReservedCap([], nasName) == 0
    ensures ReservedCap(a + [pv] + b, nasName) == ReservedCap(a + b, nasName)
            + if pv.handle.Some? && Contains(pv.handle.value, nasName) && pv.capacity.Some? then pv.capacity.value else 0
  {
    SumIfSplit(a, pv, b, Mentioning(nasName));
  }

  lemma FirstMention(pvs: seq<PV>, nasName: string) returns (k: nat)
    ensures FirstHandle(pvs, nasName).Some? ==> IsFirstMention(pvs, nasName, k) && FirstHandle(pvs, nasName) == pvs[k].handle
    ensures FirstHandle(pvs, nasName).None? ==> forall m :: !IsFirstMention(pvs, nasName, m)
  {
    k := 0;
    if pvs != [] && !Mentions(pvs[0], nasName) {
      var j := FirstMention(pvs[1..], nasName);
      k := j + 1;
      if FirstHandle(pvs, nasName).None? {
        forall m | IsFirstMention(pvs, nasName, m)
          ensures IsFirstMention(pvs[1..], nasName, m - 1)
        {
        }
      }
    }
  }

  lemma MentionIsUnique(pvs: seq<PV>, nasName: string, k: int, m: int)
    requires IsFirstMention(pvs, nasName, k) && IsFirstMention(pvs, nasName, m)
    ensures k == m
  {
  }

  function Bytes(n: Nas): (bytes: int) {
    if n.storage.Some? then n.storage.value * 0x4000_0000 else 0
  }

  /** What it means that a number is unreserved, unreadable, or has room. */
  lemma SlotMeans(l: Lists, i: nat) returns (k: nat)
    requires 1 <= i <= 10
    ensures var p, s := IndexPrefix(l.clusterUID, l.instanceType, i), l.Slot(i);
            && (s.Empty? <==> ReservedCap(l.pvs, p) == 0)
            && (s.Room? ==> IsFirstMention(l.pvs, p, k) && HandleNames(l.pvs[k], s.nas))
            && (s.Room? ==> exists n :: n in l.instances && n.id == s.nas && s.free == Bytes(n) - ReservedCap(l.pvs, p))
            && (s.Broken? ==> forall m, n :: IsFirstMention(l.pvs, p, m) && n in l.instances ==> !HandleNames(l.pvs[m], n.id))
  {
    var p := IndexPrefix(l.clusterUID, l.instanceType, i);
    k := FirstMention(l.pvs, p);
    if l.Slot(i).Broken? {
      forall m, n | IsFirstMention(l.pvs, p, m) && n in l.instances
        ensures !HandleNames(l.pvs[m], n.id)
      {
        MentionIsUnique(l.pvs, p, k, m);
      }
    }
  }

  /** The middle one of three parts of the handle. */
  ghost predicate HandleNames(pv: PV, nas: string) {
    pv.handle.Some? && |Split(pv.handle.value)| == 3 && Split(pv.handle.value)[1] == nas
  }

  lemma FirstUsable(instances: seq<Nas>, nasName: string) returns (k: nat)
    ensures NameFromNas(instances, nasName).Some? ==>
              IsFirstUsable(instances, nasName, k) && NameFromNas(instances, nasName) == Some(instances[k].id)
    ensures NameFromNas(instances, nasName).None? ==> forall n :: n in instances ==> n.deleting || !Contains(n.id, nasName)
  {
    k := 0;
    if instances != [] && !Usable(instances[0], nasName) {
      var j := FirstUsable(instances[1..], nasName);
      k := j + 1;
    }
  }

  /**
   What first fit means: a number from 1 to 10 below which every number is reserved and too full; its instance is
   the one that the first mentioning volume is on and that has the room; or, if the number is unreserved, the first
   instance of that name that is not being deleted, or else a new one.
   */
  lemma PlacedMeans(l: Lists, capBytes: int, suffix: string, i: nat, name: string) returns (k: nat)
    requires PlacedAt(l, capBytes, suffix, i, name)
    ensures 1 <= i <= 10
    ensures forall j :: 1 <= j < i ==> l.Slot(j).Room? && capBytes > l.Slot(j).free
    ensures var p := IndexPrefix(l.clusterUID, l.instanceType, i);
            if ReservedCap(l.pvs, p) != 0 then
              && IsFirstMention(l.pvs, p, k) && HandleNames(l.pvs[k], name)
              && exists n :: n in l.instances && n.id == name && capBytes + ReservedCap(l.pvs, p) <= Bytes(n)
            else
              || (IsFirstUsable(l.instances, p, k) && name == l.instances[k].id)
              || (name == p + "-" + suffix && forall n :: n in l.instances ==> n.deleting || !Contains(n.id, p))
  {
    k := SlotMeans(l, i);
    if l.Slot(i).Empty? {
      k := FirstUsable(l.instances, IndexPrefix(l.clusterUID, l.instanceType, i));
    }
  }

  /** The parameters of a CreateVolume request that matter here. */
  datatype Request = Request(name: string, shared: bool, range: Option<CapacityRange>, instanceType: string,
                             capacityParInstanceGiB: Option<int>)

  /** convertSharedRequest, after its call of Queue: the instance to use and the size of that instance. */
  method ConvertSharedRequest(req: Request, clusterUID: Result<string>, pvs: seq<PV>, instances: seq<Nas>, suffix: string)
    returns (r: Result<(string, int)>)
    ensures !req.shared ==> r == Ok((req.name, RequestCapacity(req.range, 100 * 0x4000_0000)))
    ensures req.shared && r.Ok? ==>
              && clusterUID.Ok? && req.capacityParInstanceGiB.Some?
              && r.value.1 == req.capacityParInstanceGiB.value * 0x4000_0000
              && RequestCapacity(req.range, 0) <= r.value.1
              && exists i :: PlacedAt(Lists(pvs, instances, clusterUID.value, req.instanceType),
                                      RequestCapacity(req.range, 0), suffix, i, r.value.0)
    ensures req.shared && r.Err? ==>
              || clusterUID.Err? || req.capacityParInstanceGiB.None?
              || RequestCapacity(req.range, 0) > GbToBytes(req.capacityParInstanceGiB.value)
              || NoPlace(Lists(pvs, instances, clusterUID.value, req.instanceType), RequestCapacity(req.range, 0))
  {
    if !req.shared {
      return Ok((req.name, RequestCapacity(req.range, MIN_VOLUME_SIZE)));
    }
    var capBytes := RequestCapacity(req.range, 0);
    if req.capacityParInstanceGiB.None? {
      return Err("Invalid value in capacityParInstanceGiB");
    }
    var sharedCapBytes := GbToBytes(req.capacityParInstanceGiB.value);
    if capBytes > sharedCapBytes {
      return Err("Request capacity is too big to share a NAS instance");
    }
    if clusterUID.Err? {
      return Err("Error getting namespace UID");
    }
    var place := FindPlace(Lists(pvs, instances, clusterUID.value, req.instanceType), capBytes, suffix);
    if place.Err? {
      return Err(place.error);
    }
    return Ok((place.value, sharedCapBytes));
  }
}
