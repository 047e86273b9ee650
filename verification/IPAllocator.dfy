/** The allocator of private addresses for new NAS instances (pkg/driver/utils.go). */
module IPAllocator {
  import opened Ipv4
  import opened Wrappers

  /** Every address of the block below the value v is taken. */
  ghost predicate TakenBelow(n: IPNet, taken: set<IP>, v: nat) {
    forall w: IP :: Lo(n) <= Val(w) < v ==> w in taken
  }

  ghost predicate AllTaken(n: IPNet, taken: set<IP>) {
    TakenBelow(n, taken, Hi(n) + 1)
  }

  ghost predicate IsLeastFree(n: IPNet, taken: set<IP>, ip: IP) {
    Lo(n) <= Val(ip) <= Hi(n) && ip !in taken && TakenBelow(n, taken, Val(ip))
  }

  lemma TakenOneMore(n: IPNet, taken: set<IP>, ip: IP)
    requires TakenBelow(n, taken, Val(ip)) && ip in taken
    ensures TakenBelow(n, taken, Val(ip) + 1)
  {
    forall w: IP | Lo(n) <= Val(w) < Val(ip) + 1
      ensures w in taken
    {
      ValInjective(w, ip);
    }
  }

  /** The least free address, and a full block, in terms of the byte-wise membership test. */
  lemma LeastFreeMeans(n: IPNet, taken: set<IP>, ip: IP)
    ensures IsLeastFree(n, taken, ip) <==>
              && Contains(n, ip) && ip !in taken
              && forall w: IP :: Contains(n, w) && w !in taken ==> Val(ip) <= Val(w)
    ensures AllTaken(n, taken) <==> forall w: IP :: Contains(n, w) ==> w in taken
  {
    forall w: IP
      ensures Contains(n, w) <==> Lo(n) <= Val(w) <= Hi(n)
    {
      ContainsIsInterval(n, w);
    }
  }

  /** The two outcomes exclude each other and the address is determined. */
  lemma LeastFreeIsUnique(n: IPNet, taken: set<IP>, a: IP, b: IP)
    requires IsLeastFree(n, taken, a)
    ensures !AllTaken(n, taken)
    ensures IsLeastFree(n, taken, b) ==> a == b
  {
    ValInjective(a, b);
  }

  class IPAllocator {
    var pendingIPs: set<IP>

    constructor (pendingIPs: set<IP>)
      ensures this.pendingIPs == pendingIPs
    {
      this.pendingIPs := pendingIPs;
    }

    method HoldIP(ip: IP)
      modifies this
      ensures pendingIPs == old(pendingIPs) + {ip}
    {
      pendingIPs := pendingIPs + {ip};
    }

    /** Releasing after a failed reservation names no address and releases nothing. */
    method ReleaseIP(ip: Option<IP>)
      modifies this
      ensures pendingIPs == if ip.Some? then old(pendingIPs) - {ip.value} else old(pendingIPs)
    {
      if ip.Some? {
        pendingIPs := pendingIPs - {ip.value};
      }
    }

    /**
     The least address of the block that is neither reserved in the cloud nor pending; exactly that
     address becomes pending.  Fails only when the block does not parse or is full, for every prefix length.
     */
    method GetUnreservedIP(cidr: Option<IPNet>, reserved: set<IP>) returns (r: Result<IP>)
      modifies this
      ensures r.Ok? ==> cidr.Some? && IsLeastFree(cidr.value, reserved + old(pendingIPs), r.value)
      ensures r.Ok? ==> Contains(cidr.value, r.value) && r.value !in reserved + old(pendingIPs)
      ensures r.Ok? ==> forall w: IP :: Contains(cidr.value, w) && w !in reserved + old(pendingIPs) ==> Val(r.value) <= Val(w)
      ensures r.Ok? ==> pendingIPs == old(pendingIPs) + {r.value}
      ensures r.Err? ==> cidr.None? || forall w: IP :: Contains(cidr.value, w) ==> w in reserved + old(pendingIPs)
      ensures r.Err? ==> cidr.None? || AllTaken(cidr.value, reserved + old(pendingIPs))
      ensures r.Err? ==> pendingIPs == old(pendingIPs)
    {
      if cidr.None? {
        return Err("invalid CIDR address");
      }
      r := FirstFree(cidr.value, reserved + pendingIPs);
      LeastFreeMeans(cidr.value, reserved + pendingIPs, if r.Ok? then r.value else cidr.value.ip);
      if r.Ok? {
        HoldIP(r.value);
      }
    }
  }

  /** Scans the block upwards; at the top of the address space the increment fails and ends the scan. */
  method FirstFree(n: IPNet, reservedIPs: set<IP>) returns (r: Result<IP>)
    ensures r.Ok? ==> IsLeastFree(n, reservedIPs, r.value)
    ensures r.Err? ==> AllTaken(n, reservedIPs)
  {
    var target := StartIP(n);
    ContainsIsInterval(n, target);
    while Contains(n, target)
      invariant Lo(n) <= Val(target) <= Hi(n) + 1 && TakenBelow(n, reservedIPs, Val(target))
      invariant Contains(n, target) <==> Val(target) <= Hi(n)
      decreases SPACE - Val(target)
    {
      var used := IsUsed(target, reservedIPs);
      if !used {
        return Ok(target);
      }
      TakenOneMore(n, reservedIPs, target);
      var next := IncrementIP(target, 1);
      if next.Err? {
        break;
      }
      target := next.value;
      ContainsIsInterval(n, target);
    }
    return Err("all of the IPs in the cidr are reserved");
  }

  /** Walks the whole set, in any order, comparing each entry with the address. */
  method IsUsed(ip: IP, reserved: set<IP>) returns (used: bool)
    ensures used <==> ip in reserved
  {
    used := false;
    var rest := reserved;
    while rest != {}
      invariant rest <= reserved
      invariant used <==> ip in reserved - rest
      decreases rest
    {
      var r :| r in rest;
      if ip == r {
        used := true;
      }
      rest := rest - {r};
    }
  }
}
