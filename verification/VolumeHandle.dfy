/**
 Volume handles: `region/instance` for a NAS instance of one volume, `region/instance/volume` for a volume
 on a shared instance (pkg/cloud/cloud.go, pkg/driver/controller.go, pkg/driver/shared_utils.go).
 */
module VolumeHandle {
  import opened Strings
  import opened Wrappers

  /** GenerateVolumeIDFromNasInstance. */
  function VolumeID(region: string, instance: string): (id: string) {
    Join([region, instance])
  }

  /** The handle that CreateVolume answers with. */
  function Handle(region: string, instance: string, sharedVolume: Option<string>): (id: string) {
    if sharedVolume.Some? then VolumeID(region, instance) + [SEP] + sharedVolume.value else VolumeID(region, instance)
  }

  /** The instance name that GetNasInstanceFromVolumeID looks up. */
  function InstanceOfVolumeID(id: string): (r: Result<string>) {
    var tokens := Split(id);
    if |tokens| != 2 then Err("unexpected format") else Ok(tokens[1])
  }

  datatype Target = Target(instance: string, sharedVolume: Option<string>)

  /** What DeleteVolume makes of a handle: three tokens mean a shared instance. */
  function ParseHandle(id: string): (r: Result<Target>) {
    var tokens := Split(id);
    var volumeID := if |tokens| == 3 then Join(tokens[..2]) else id;
    var instance := InstanceOfVolumeID(volumeID);
    if instance.Err? then Err(instance.error)
    else Ok(Target(instance.value, if |tokens| == 3 then Some(tokens[2]) else None))
  }

  ghost predicate Plain(region: string, instance: string, sharedVolume: Option<string>) {
    SlashFree(region) && SlashFree(instance) && (sharedVolume.Some? ==> SlashFree(sharedVolume.value))
  }

  ghost function Tokens(region: string, instance: string, sharedVolume: Option<string>): (tokens: seq<string>) {
    [region, instance] + (if sharedVolume.Some? then [sharedVolume.value] else [])
  }

  lemma VolumeIDIs(region: string, instance: string)
    ensures VolumeID(region, instance) == region + [SEP] + instance
  {
    JoinTwo(region, instance);
  }

  lemma HandleIsJoin(region: string, instance: string, sharedVolume: Option<string>)
    ensures Handle(region, instance, sharedVolume) == Join(Tokens(region, instance, sharedVolume))
  {
    VolumeIDIs(region, instance);
    if sharedVolume.Some? {
      assert Tokens(region, instance, sharedVolume) == [region, instance, sharedVolume.value];
      JoinThree(region, instance, sharedVolume.value);
    }
  }

  lemma HandleSplits(region: string, instance: string, sharedVolume: Option<string>)
    requires Plain(region, instance, sharedVolume)
    ensures Split(Handle(region, instance, sharedVolume)) == Tokens(region, instance, sharedVolume)
  {
    HandleIsJoin(region, instance, sharedVolume);
    SplitJoin(Tokens(region, instance, sharedVolume));
  }

  /** The text of a handle. */
  lemma HandleText(region: string, instance: string, volume: string)
    ensures Handle(region, instance, None) == region + "/" + instance
    ensures Handle(region, instance, Some(volume)) == region + "/" + instance + "/" + volume
  {
    VolumeIDIs(region, instance);
  }

  /** Printing then parsing recovers the instance and the volume. */
  lemma HandleRoundTrip(region: string, instance: string, sharedVolume: Option<string>)
    requires Plain(region, instance, sharedVolume)
    ensures ParseHandle(Handle(region, instance, sharedVolume)) == Ok(Target(instance, sharedVolume))
  {
    HandleSplits(region, instance, sharedVolume);
    SplitJoin([region, instance]);
    if sharedVolume.Some? {
      assert Tokens(region, instance, sharedVolume)[..2] == [region, instance];
    }
  }

  lemma ParseThree(id: string)
    requires |Split(id)| == 3
    ensures ParseHandle(id) == Ok(Target(Split(id)[1], Some(Split(id)[2])))
  {
    JoinSplit(id);
    SplitJoin(Split(id)[..2]);
  }

  /** A handle that parses is the print of what it parses to, in some region: parsing accepts nothing else. */
  lemma ParsedHandleIsPrinted(id: string)
    ensures ParseHandle(id).Ok? <==> |Split(id)| == 2 || |Split(id)| == 3
    ensures ParseHandle(id).Ok? ==>
              id == Handle(Split(id)[0], ParseHandle(id).value.instance, ParseHandle(id).value.sharedVolume)
  {
    var tokens := Split(id);
    if |tokens| == 3 {
      ParseThree(id);
      SplitThree(id);
      VolumeIDIs(tokens[0], tokens[1]);
    } else if |tokens| == 2 {
      JoinSplit(id);
      assert tokens == [tokens[0], tokens[1]];
    }
  }

  /** Printing is injective; in particular shared and other handles never collide. */
  lemma HandleInjective(r1: string, i1: string, v1: Option<string>, r2: string, i2: string, v2: Option<string>)
    requires Plain(r1, i1, v1) && Plain(r2, i2, v2) && Handle(r1, i1, v1) == Handle(r2, i2, v2)
    ensures r1 == r2 && i1 == i2 && v1 == v2
  {
    HandleSplits(r1, i1, v1);
    HandleSplits(r2, i2, v2);
    assert Tokens(r1, i1, v1)[0] == r1 && Tokens(r2, i2, v2)[0] == r2;
    HandleRoundTrip(r1, i1, v1);
    HandleRoundTrip(r2, i2, v2);
  }

  /** A text without '/' is found in a handle exactly when it is in one of its parts. */
  lemma ContainsInHandle(region: string, instance: string, sharedVolume: Option<string>, sub: string)
    requires SlashFree(sub)
    ensures Contains(Handle(region, instance, sharedVolume), sub)
       <==> Contains(region, sub) || Contains(instance, sub) || (sharedVolume.Some? && Contains(sharedVolume.value, sub))
  {
    VolumeIDIs(region, instance);
    ContainsInPart(region, instance, sub);
    if sharedVolume.Some? {
      ContainsInPart(VolumeID(region, instance), sharedVolume.value, sub);
    }
  }
}
