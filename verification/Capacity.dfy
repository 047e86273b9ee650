/** Sizes: what a request asks for and what an instance is given (pkg/driver/controller.go, pkg/util/util.go). */
module Capacity {
  import opened Wrappers

  const GB := 0x4000_0000
  const MIN_VOLUME_SIZE := 100 * GB

  function GbToBytes(gbs: int): (bytes: int) {
    gbs * GB
  }

  function Min(a: int, b: int): int {
    if a < b then a else b
  }

  function Max(a: int, b: int): int {
    if a > b then a else b
  }

  /** A capacity range of a request; zero means not set. */
  datatype CapacityRange = CapacityRange(required: int, limit: int)

  /**
   The size to provision honours the range: never above a limit, never below what is required unless the
   limit is, and never below the minimum unless the limit is; and no more than that, except that a limit
   alone asks for the limit.
   */
  function RequestCapacity(range: Option<CapacityRange>, min: int): (bytes: int)
    ensures range.None? ==> bytes == min
    ensures range.Some? && range.value.limit > 0 ==> bytes <= range.value.limit
    ensures range.Some? ==> bytes >= range.value.required || bytes == range.value.limit
    ensures range.Some? ==> bytes >= min || bytes == range.value.limit > 0
    ensures range.Some? && range.value.required == 0 && range.value.limit > 0 ==> bytes == range.value.limit
    ensures range.Some? && (range.value.required != 0 || range.value.limit <= 0) ==>
              bytes <= range.value.required || bytes <= min
  {
    if range.None? then min
    else
      var rCap, lCap := range.value.required, range.value.limit;
      if lCap > 0 then
        if rCap == 0 then lCap else Min(Max(rCap, min), lCap)
      else Max(rCap, min)
  }

  /** The size of one allocation step in GiB. */
  function Unit(instanceType: int): (u: nat)
    ensures u > 0
  {
    if instanceType == 1 then 1000 else 100
  }

  const MAX_STEPS := 9

  /** The least number of steps that covers the size, at most nine. */
  ghost predicate IsAllocation(capBytes: int, instanceType: int, gib: int) {
    exists n :: IsSteps(capBytes, instanceType, n) && gib == n * Unit(instanceType)
  }

  ghost predicate IsSteps(capBytes: int, instanceType: int, n: int) {
    && 1 <= n <= MAX_STEPS
    && (forall k :: 1 <= k < n ==> GbToBytes(k * Unit(instanceType)) < capBytes)
    && (n < MAX_STEPS ==> GbToBytes(n * Unit(instanceType)) >= capBytes)
  }

  /** In thousands of GiB for type 1, in hundreds for others: the least of nine sizes that covers, or the largest. */
  method GetAllocatedStorage(capBytes: int, instanceType: int) returns (gib: int)
    ensures IsAllocation(capBytes, instanceType, gib)
    ensures instanceType == 1 ==>
              && gib % 1000 == 0 && 1000 <= gib <= 9000
              && (gib * 0x4000_0000 >= capBytes || gib == 9000)
              && ((gib - 1000) * 0x4000_0000 < capBytes || gib == 1000)
    ensures instanceType != 1 ==>
              && gib % 100 == 0 && 100 <= gib <= 900
              && (gib * 0x4000_0000 >= capBytes || gib == 900)
              && ((gib - 100) * 0x4000_0000 < capBytes || gib == 100)
  {
    gib := if instanceType == 1 then 1000 else 100;
    ghost var n := 1;
    var i := 1;
    while i < 10
      invariant 1 <= i <= 10 && n == (if i == 1 then 1 else i - 1) && gib == n * Unit(instanceType)
      invariant forall k :: 1 <= k < i ==> GbToBytes(k * Unit(instanceType)) < capBytes
      decreases 10 - i
    {
      n := i;
      if instanceType == 1 {
        gib := i * 1000;
      } else {
        gib := i * 100;
      }
      if GbToBytes(gib) >= capBytes {
        break;
      }
      i := i + 1;
    }
    assert IsSteps(capBytes, instanceType, n);
    AllocationMeans(capBytes, instanceType, gib);
  }

  /** One step less does not cover. */
  lemma LeastStep(capBytes: int, instanceType: int, n: int)
    requires IsSteps(capBytes, instanceType, n)
    ensures n > 1 ==> (n * Unit(instanceType) - Unit(instanceType)) * 0x4000_0000 < capBytes
  {
    if n > 1 {
      assert GbToBytes((n - 1) * Unit(instanceType)) < capBytes;
      assert (n - 1) * Unit(instanceType) == n * Unit(instanceType) - Unit(instanceType);
    }
  }

  /** The allocation covers the size exactly when nine steps do, and it is the only such allocation. */
  lemma AllocationCovers(capBytes: int, instanceType: int, gib: int)
    requires IsAllocation(capBytes, instanceType, gib)
    ensures GbToBytes(gib) >= capBytes <==> capBytes <= GbToBytes(MAX_STEPS * Unit(instanceType))
  {
    var n :| IsSteps(capBytes, instanceType, n) && gib == n * Unit(instanceType);
    assert n * Unit(instanceType) <= MAX_STEPS * Unit(instanceType);
  }

  /** The allocation in GiB: thousands for type 1, hundreds for others; the least of nine that covers, or the largest. */
  lemma AllocationMeans(capBytes: int, instanceType: int, gib: int)
    requires IsAllocation(capBytes, instanceType, gib)
    ensures instanceType == 1 ==>
              && gib % 1000 == 0 && 1000 <= gib <= 9000
              && (gib * 0x4000_0000 >= capBytes || gib == 9000)
              && ((gib - 1000) * 0x4000_0000 < capBytes || gib == 1000)
    ensures instanceType != 1 ==>
              && gib % 100 == 0 && 100 <= gib <= 900
              && (gib * 0x4000_0000 >= capBytes || gib == 900)
              && ((gib - 100) * 0x4000_0000 < capBytes || gib == 100)
  {
    var n :| IsSteps(capBytes, instanceType, n) && gib == n * Unit(instanceType);
    LeastStep(capBytes, instanceType, n);
  }

  lemma AllocationIsUnique(capBytes: int, instanceType: int, a: int, b: int)
    requires IsAllocation(capBytes, instanceType, a) && IsAllocation(capBytes, instanceType, b)
    ensures a == b
  {
    var m :| IsSteps(capBytes, instanceType, m) && a == m * Unit(instanceType);
    var n :| IsSteps(capBytes, instanceType, n) && b == n * Unit(instanceType);
    assert m == n;
  }
}
