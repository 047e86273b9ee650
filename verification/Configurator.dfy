/**
 The CIDR block that the configurator recommends for NAS instances: the private LAN divided into
 blocks, minus the blocks that databases, DHCP pools and static leases use
 (pkg/driver/configurator.go, configure).
 */
module Configurator {
  import opened Arith
  import opened CidrDivs
  import opened Filter
  import opened Ipv4
  import opened Wrappers

  /** What the cloud reports; an address that does not parse is None. */
  datatype Rdb = Rdb(networkID: string, address: Option<IP>)
  datatype Pool = Pool(start: Option<IP>, stop: Option<IP>)
  datatype Dhcp = Dhcp(pools: seq<Pool>, staticIPs: seq<Option<IP>>)

  const COMMON_PRIVATE := "net-COMMON_PRIVATE"

  // ---------- what the recommendation means ----------

  /** How many more bits of mask the blocks have than the LAN: four, or less to leave blocks of 32 addresses. */
  ghost function Offset(lan: IPNet): (offset: int) {
    if lan.ones <= 23 then 4 else 27 - lan.ones
  }

  /** The blocks to choose from; the first and the last are not offered when there are at least eight. */
  ghost function Candidates(lan: IPNet): (bs: seq<IPNet>)
    requires lan.ones <= 26
  {
    var bs := Blocks(lan, Offset(lan));
    if Offset(lan) >= 3 then BlocksMany(lan); bs[1..|bs| - 1] else bs
  }

  lemma BlocksMany(lan: IPNet)
    requires Offset(lan) >= 3
    ensures |Blocks(lan, Offset(lan))| >= 8
  {
    Pow2Monotone(3, Offset(lan));
    assert Pow2(3) == 8;
  }

  ghost function HitBy(os: seq<Obstacle>): (f: IPNet -> bool) {
    b => exists o :: o in os && Meets(b, o)
  }

  /** The blocks that meet no obstacle, in order. */
  ghost function Clear(divs: seq<IPNet>, os: seq<Obstacle>): (r: seq<IPNet>) {
    Keep(divs, HitBy(os))
  }

  lemma ClearNothing(divs: seq<IPNet>)
    ensures Clear(divs, []) == divs
  {
    KeepAll(divs, HitBy([]));
  }

  lemma ClearMore(divs: seq<IPNet>, os: seq<Obstacle>, more: seq<Obstacle>)
    ensures Clear(Clear(divs, os), more) == Clear(divs, os + more)
  {
    KeepTwice(divs, HitBy(os), HitBy(more), HitBy(os + more));
  }

  lemma ClearOneMore(divs: seq<IPNet>, os: seq<Obstacle>, o: Obstacle)
    ensures Without(Clear(divs, os), o) == Clear(divs, os + [o])
  {
    KeepTwice(divs, HitBy(os), Hit(o), HitBy(os + [o]));
  }

  ghost predicate AllParse(ips: seq<Option<IP>>) {
    forall i :: 0 <= i < |ips| ==> ips[i].Some?
  }

  ghost function Point(ip: IP): (o: Obstacle) {
    Obstacle(Val(ip), Val(ip))
  }

  ghost function Points(ips: seq<Option<IP>>): (os: seq<Obstacle>)
    requires AllParse(ips)
  {
    seq(|ips|, i requires 0 <= i < |ips| => Point(ips[i].value))
  }

  lemma PointsStep(ips: seq<Option<IP>>, ip: Option<IP>)
    requires AllParse(ips) && ip.Some?
    ensures AllParse(ips + [ip]) && Points(ips + [ip]) == Points(ips) + [Point(ip.value)]
  {
  }

  ghost predicate PoolsParse(pools: seq<Pool>) {
    forall i :: 0 <= i < |pools| ==> pools[i].start.Some? && pools[i].stop.Some?
  }

  ghost function Range(p: Pool): (o: Obstacle)
    requires p.start.Some? && p.stop.Some?
  {
    Obstacle(Val(p.start.value), Val(p.stop.value))
  }

  /** The pools as intervals, with their ends as they come. */
  ghost function Ranges(pools: seq<Pool>): (os: seq<Obstacle>)
    requires PoolsParse(pools)
  {
    seq(|pools|, i requires 0 <= i < |pools| => Range(pools[i]))
  }

  lemma RangesStep(pools: seq<Pool>, p: Pool)
    requires PoolsParse(pools) && p.start.Some? && p.stop.Some?
    ensures PoolsParse(pools + [p]) && Ranges(pools + [p]) == Ranges(pools) + [Range(p)]
  {
  }

  /** The addresses of the databases on the network. */
  ghost function RdbAddresses(dbs: seq<Rdb>, networkID: string): (ips: seq<Option<IP>>) {
    if dbs == [] then []
    else RdbAddresses(dbs[..|dbs| - 1], networkID)
         + (if dbs[|dbs| - 1].networkID == networkID then [dbs[|dbs| - 1].address] else [])
  }

  lemma RdbStep(dbs: seq<Rdb>, networkID: string, i: nat)
    requires i < |dbs|
    ensures RdbAddresses(dbs[..i + 1], networkID)
         == if dbs[i].networkID == networkID then RdbAddresses(dbs[..i], networkID) + [dbs[i].address]
            else RdbAddresses(dbs[..i], networkID)
  {
    assert dbs[..i + 1][..i] == dbs[..i];
  }

  ghost predicate InputsParse(dbs: seq<Rdb>, dhcp: Dhcp, networkID: string) {
    AllParse(RdbAddresses(dbs, networkID)) && PoolsParse(dhcp.pools) && AllParse(dhcp.staticIPs)
  }

  /** Everything a recommended block has to stay away from. */
  ghost function InUse(dbs: seq<Rdb>, dhcp: Dhcp, networkID: string): (os: seq<Obstacle>)
    requires InputsParse(dbs, dhcp, networkID)
  {
    Points(RdbAddresses(dbs, networkID)) + Ranges(dhcp.pools) + Points(dhcp.staticIPs)
  }

  ghost function Middle(divs: seq<IPNet>): (b: Option<IPNet>) {
    if divs == [] then None else Some(divs[|divs| / 2])
  }

  /** The candidates are whole blocks of the LAN, at least 32 addresses each, one after the other. */
  lemma CandidatesAreBlocks(lan: IPNet)
    requires lan.ones <= 26
    ensures Ascending(Candidates(lan))
    ensures forall b :: b in Candidates(lan) ==> Size(b) >= 32 && Lo(lan) <= Lo(b) && Hi(b) <= Hi(lan)
  {
    var bs := Blocks(lan, Offset(lan));
    BlocksAscend(lan, Offset(lan));
    if Offset(lan) >= 3 {
      BlocksMany(lan);
      SliceOrdered(bs, 1, |bs| - 1, Before);
    }
    forall b | b in Candidates(lan)
      ensures Size(b) >= 32 && Lo(lan) <= Lo(b) && Hi(b) <= Hi(lan)
    {
      CandidateIsBlock(lan, b);
    }
  }

  lemma CandidateIsBlock(lan: IPNet, b: IPNet)
    requires lan.ones <= 26 && b in Candidates(lan)
    ensures Size(b) >= 32 && Lo(lan) <= Lo(b) && Hi(b) <= Hi(lan)
  {
    var bs := Blocks(lan, Offset(lan));
    var i :| 0 <= i < |bs| && b == bs[i];
    CandidateIsBig(lan, i);
    BlockInside(lan, Offset(lan), i);
  }

  lemma CandidateIsBig(lan: IPNet, i: nat)
    requires lan.ones <= 26 && i < Pow2(Offset(lan))
    ensures Size(Block(lan, Offset(lan), i)) >= 32
  {
    BlockBounds(lan, Offset(lan), i);
    Pow2Monotone(5, 32 - lan.ones - Offset(lan));
    assert Pow2(5) == 32;
  }

  // ---------- in plain terms ----------

  /** The block that is chosen has as many blocks before it as after it, or one more. */
  lemma MiddleIs(left: seq<IPNet>)
    ensures Middle(left).None? <==> left == []
    ensures left != [] ==>
              exists before, after :: left == before + [Middle(left).value] + after && |after| <= |before| <= |after| + 1
  {
    if left != [] {
      var m := |left| / 2;
      assert left == left[..m] + [left[m]] + left[m + 1..];
    }
  }

  /** How many candidates there are, and their prefix. */
  lemma CandidatesAre(lan: IPNet)
    ensures Offset(lan) > 0 <==> lan.ones <= 26
    ensures lan.ones <= 26 ==>
              && |Candidates(lan)| == (if lan.ones <= 23 then 14 else if lan.ones == 24 then 6 else if lan.ones == 25 then 4 else 2)
              && forall b :: b in Candidates(lan) ==> b.ones == if lan.ones <= 23 then lan.ones + 4 else 27
  {
    assert Pow2(1) == 2 && Pow2(2) == 4 && Pow2(3) == 8 && Pow2(4) == 16;
  }

  lemma CandidateIndex(lan: IPNet, b: IPNet) returns (i: nat)
    requires lan.ones <= 26 && b in Candidates(lan)
    ensures i < Pow2(Offset(lan)) && b == Block(lan, Offset(lan), i)
    ensures Offset(lan) >= 3 ==> 0 < i < Pow2(Offset(lan)) - 1
  {
    var bs := Blocks(lan, Offset(lan));
    i :| 0 <= i < |bs| && bs[i] == b && (Offset(lan) >= 3 ==> 0 < i < |bs| - 1);
  }

  lemma IndexIsCandidate(lan: IPNet, i: nat)
    requires lan.ones <= 26 && i < Pow2(Offset(lan)) && (Offset(lan) >= 3 ==> 0 < i < Pow2(Offset(lan)) - 1)
    ensures Block(lan, Offset(lan), i) in Candidates(lan)
  {
    var bs := Blocks(lan, Offset(lan));
    assert bs[i] == Block(lan, Offset(lan), i);
    if Offset(lan) >= 3 {
      assert Candidates(lan)[i - 1] == bs[i];
    }
  }

  /** How far the candidates stay away from the ends of the LAN. */
  ghost function Margin(lan: IPNet): (m: nat)
    requires lan.ones <= 26
  {
    if Offset(lan) >= 3 then BlockSize(lan, Offset(lan)) else 0
  }

  lemma MarginIs(lan: IPNet)
    requires lan.ones <= 26
    ensures Margin(lan) == if lan.ones <= 23 then Pow2(28 - lan.ones) else if lan.ones == 24 then 32 else 0
  {
    assert Pow2(5) == 32;
  }

  lemma CandidateStaysAway(lan: IPNet, b: IPNet, v: nat)
    requires lan.ones <= 26 && b in Candidates(lan) && In(v, b)
    ensures Lo(lan) + Margin(lan) <= v <= Hi(lan) - Margin(lan)
  {
    var i := CandidateIndex(lan, b);
    BlockAway(lan, Offset(lan), i);
    BlockInside(lan, Offset(lan), i);
  }

  lemma CandidateOf(lan: IPNet, v: nat) returns (b: IPNet)
    requires lan.ones <= 26 && Lo(lan) + Margin(lan) <= v <= Hi(lan) - Margin(lan)
    ensures b in Candidates(lan) && In(v, b)
  {
    var i := BlockOf(lan, Offset(lan), v);
    BlockAway(lan, Offset(lan), i);
    IndexIsCandidate(lan, i);
    b := Block(lan, Offset(lan), i);
  }

  /** The candidates cover the LAN; or, up to /24, all but one block's worth of addresses at either end. */
  lemma CandidatesCover(lan: IPNet, v: nat)
    requires lan.ones <= 26
    ensures var margin := if lan.ones <= 23 then Pow2(28 - lan.ones) else if lan.ones == 24 then 32 else 0;
            (exists b :: b in Candidates(lan) && In(v, b)) <==> Lo(lan) + margin <= v <= Hi(lan) - margin
  {
    MarginIs(lan);
    if b :| b in Candidates(lan) && In(v, b) {
      CandidateStaysAway(lan, b, v);
    }
    if Lo(lan) + Margin(lan) <= v <= Hi(lan) - Margin(lan) {
      var b := CandidateOf(lan, v);
    }
  }

  /** Exactly the addresses of the databases on the network are looked at. */
  lemma RdbAddressesAre(dbs: seq<Rdb>, networkID: string, address: Option<IP>)
    ensures address in RdbAddresses(dbs, networkID) <==> exists db :: db in dbs && db.networkID == networkID && db.address == address
  {
    if dbs != [] {
      var init, last := dbs[..|dbs| - 1], dbs[|dbs| - 1];
      RdbAddressesAre(init, networkID, address);
      assert forall db :: db in dbs <==> db in init || db == last;
    }
  }

  lemma InputsParseIff(dbs: seq<Rdb>, dhcp: Dhcp, networkID: string)
    ensures InputsParse(dbs, dhcp, networkID) <==>
              && (forall db :: db in dbs && db.networkID == networkID ==> db.address.Some?)
              && (forall p :: p in dhcp.pools ==> p.start.Some? && p.stop.Some?)
              && (forall ip :: ip in dhcp.staticIPs ==> ip.Some?)
  {
    var ips := RdbAddresses(dbs, networkID);
    RdbAddressesAre(dbs, networkID, None);
    assert AllParse(ips) <==> None !in ips;
    assert AllParse(dhcp.staticIPs) <==> None !in dhcp.staticIPs;
  }

  /** The block holds the address of a database on the network, of a static lease, or of a pool. */
  ghost predicate Occupied(b: IPNet, dbs: seq<Rdb>, dhcp: Dhcp, networkID: string) {
    || (exists db :: db in dbs && db.networkID == networkID && db.address.Some? && In(Val(db.address.value), b))
    || (exists ip :: ip in dhcp.staticIPs && ip.Some? && In(Val(ip.value), b))
    || (exists p, v: nat :: p in dhcp.pools && p.start.Some? && p.stop.Some?
                            && Val(p.start.value) <= v <= Val(p.stop.value) && In(v, b))
  }

  lemma PointsHit(b: IPNet, ips: seq<Option<IP>>)
    requires AllParse(ips)
    ensures (exists o :: o in Points(ips) && Meets(b, o)) <==> exists ip :: ip in ips && ip.Some? && In(Val(ip.value), b)
  {
    if o :| o in Points(ips) && Meets(b, o) {
      var i :| 0 <= i < |ips| && Points(ips)[i] == o;
      assert ips[i] in ips && In(Val(ips[i].value), b);
    }
    if ip :| ip in ips && ip.Some? && In(Val(ip.value), b) {
      var i :| 0 <= i < |ips| && ips[i] == ip;
      assert Points(ips)[i] in Points(ips) && Meets(b, Points(ips)[i]);
    }
  }

  lemma RangesHit(b: IPNet, pools: seq<Pool>)
    requires PoolsParse(pools) && InOrder(Ranges(pools))
    ensures (exists o :: o in Ranges(pools) && Meets(b, o)) <==>
              exists p, v: nat :: p in pools && p.start.Some? && p.stop.Some?
                                  && Val(p.start.value) <= v <= Val(p.stop.value) && In(v, b)
  {
    if o :| o in Ranges(pools) && Meets(b, o) {
      var i :| 0 <= i < |pools| && Ranges(pools)[i] == o;
      MeetsIff(b, o);
      var v: nat :| In(v, b) && o.from <= v <= o.to;
      assert pools[i] in pools;
    }
    if p, v: nat :| p in pools && p.start.Some? && p.stop.Some? && Val(p.start.value) <= v <= Val(p.stop.value) && In(v, b) {
      var i :| 0 <= i < |pools| && pools[i] == p;
      assert Ranges(pools)[i] in Ranges(pools);
      MeetsIff(b, Ranges(pools)[i]);
    }
  }

  /** With pools in order, meeting anything in use is being occupied. */
  lemma InUseMeans(b: IPNet, dbs: seq<Rdb>, dhcp: Dhcp, networkID: string)
    requires InputsParse(dbs, dhcp, networkID) && InOrder(Ranges(dhcp.pools))
    ensures (exists o :: o in InUse(dbs, dhcp, networkID) && Meets(b, o)) <==> Occupied(b, dbs, dhcp, networkID)
  {
    var ips := RdbAddresses(dbs, networkID);
    PointsHit(b, ips);
    RangesHit(b, dhcp.pools);
    PointsHit(b, dhcp.staticIPs);
    forall ip
      ensures ip in ips <==> exists db :: db in dbs && db.networkID == networkID && db.address == ip
    {
      RdbAddressesAre(dbs, networkID, ip);
    }
    assert forall o :: o in InUse(dbs, dhcp, networkID) <==>
                         o in Points(ips) || o in Ranges(dhcp.pools) || o in Points(dhcp.staticIPs);
  }

  /** With pools in order: the block chosen is a candidate that is not occupied, and there is none iff all are. */
  lemma RecommendedMeans(lan: IPNet, dbs: seq<Rdb>, dhcp: Dhcp, networkID: string, cidr: Option<IPNet>)
    requires lan.ones <= 26 && InputsParse(dbs, dhcp, networkID) && InOrder(Ranges(dhcp.pools))
    requires Recommended(Candidates(lan), dbs, dhcp, networkID, cidr)
    ensures cidr.Some? ==> cidr.value in Candidates(lan) && !Occupied(cidr.value, dbs, dhcp, networkID)
    ensures cidr.None? <==> forall b :: b in Candidates(lan) ==> Occupied(b, dbs, dhcp, networkID)
  {
    RecommendationIsFree(lan, InUse(dbs, dhcp, networkID));
    forall b: IPNet
      ensures (exists o :: o in InUse(dbs, dhcp, networkID) && Meets(b, o)) <==> Occupied(b, dbs, dhcp, networkID)
    {
      InUseMeans(b, dbs, dhcp, networkID);
    }
  }

  /** The recommended block meets nothing in use, and there is none only if every candidate is hit. */
  lemma RecommendationIsFree(lan: IPNet, os: seq<Obstacle>)
    requires lan.ones <= 26
    ensures var r := Middle(Clear(Candidates(lan), os));
            && (r.Some? ==> r.value in Candidates(lan) && forall o :: o in os ==> !Meets(r.value, o))
            && (r.None? <==> forall b :: b in Candidates(lan) ==> exists o :: o in os && Meets(b, o))
  {
    var cs, left := Candidates(lan), Clear(Candidates(lan), os);
    if left != [] {
      KeepMember(cs, HitBy(os), left[|left| / 2]);
      KeepMember(cs, HitBy(os), left[0]);
    } else {
      forall b | b in cs
        ensures exists o :: o in os && Meets(b, o)
      {
        KeepMember(cs, HitBy(os), b);
      }
    }
  }

  // ---------- ranges in any order ----------

  /** What dropping one range leaves. */
  ghost function AfterRange(divs: seq<IPNet>, r: Obstacle): (left: seq<IPNet>) {
    var o := Dropped(divs, r.from, r.to);
    if o.Some? then Without(divs, o.value) else divs
  }

  /** What dropping ranges one after the other leaves, with their ends in whatever order. */
  ghost function AfterRanges(divs: seq<IPNet>, rs: seq<Obstacle>): (left: seq<IPNet>) {
    if rs == [] then divs else AfterRange(AfterRanges(divs, rs[..|rs| - 1]), rs[|rs| - 1])
  }

  lemma AfterOneMore(divs: seq<IPNet>, rs: seq<Obstacle>, r: Obstacle)
    ensures AfterRanges(divs, rs + [r]) == AfterRange(AfterRanges(divs, rs), r)
  {
    assert (rs + [r])[..|rs|] == rs;
  }

  ghost predicate InOrder(rs: seq<Obstacle>) {
    forall i :: 0 <= i < |rs| ==> rs[i].from <= rs[i].to
  }

  /** With all ends in order, dropping the ranges is one filter. */
  lemma {:induction false} AfterRangesInOrder(divs: seq<IPNet>, rs: seq<Obstacle>)
    requires InOrder(rs)
    ensures AfterRanges(divs, rs) == Clear(divs, rs)
  {
    if rs == [] {
      ClearNothing(divs);
    } else {
      var init, last := rs[..|rs| - 1], rs[|rs| - 1];
      AfterRangesInOrder(divs, init);
      ClearOneMore(divs, init, last);
      assert rs == init + [last];
    }
  }

  /** The block does not meet the range, or at least holds neither end of it when they come in the wrong order. */
  ghost predicate Avoids(b: IPNet, r: Obstacle) {
    && !In(r.from, b) && !In(r.to, b)
    && (r.from <= r.to ==> !Meets(b, r))
  }

  lemma AfterRangeAvoids(divs: seq<IPNet>, r: Obstacle, b: IPNet)
    requires b in AfterRange(divs, r)
    ensures b in divs && Avoids(b, r)
  {
    var o := Dropped(divs, r.from, r.to);
    if o.Some? {
      KeepMember(divs, Hit(o.value), b);
    }
  }

  /** Whatever the order of the ends, a block that is left avoids every range. */
  lemma {:induction false} AfterRangesAvoids(divs: seq<IPNet>, rs: seq<Obstacle>, b: IPNet)
    requires b in AfterRanges(divs, rs)
    ensures b in divs && forall r :: r in rs ==> Avoids(b, r)
  {
    if rs != [] {
      var init, last := rs[..|rs| - 1], rs[|rs| - 1];
      AfterRangeAvoids(AfterRanges(divs, init), last, b);
      AfterRangesAvoids(divs, init, b);
      assert forall r :: r in rs <==> r in init || r == last;
    }
  }

  /** The block lies between the two ends of a range in the wrong order. */
  ghost predicate Inside(b: IPNet, r: Obstacle) {
    r.to < Lo(b) && Hi(b) < r.from
  }

  /**
   With the ends in the wrong order, dropping leaves no block that meets the interval between them if and only
   if both ends are covered by blocks, or no block lies strictly between them.
   */
  lemma ReversedRangeIsClearedIff(divs: seq<IPNet>, r: Obstacle)
    requires r.from > r.to
    ensures (forall b :: b in AfterRange(divs, r) ==> !Meets(b, Obstacle(r.to, r.from)))
       <==> (Covers(divs, r.from) && Covers(divs, r.to)) || forall b :: b in divs ==> !Inside(b, r)
  {
    var o := Dropped(divs, r.from, r.to);
    forall b
      ensures b in AfterRange(divs, r) <==> b in divs && (o.Some? ==> !Meets(b, o.value))
    {
      if o.Some? {
        KeepMember(divs, Hit(o.value), b);
      }
    }
    forall b | b in AfterRange(divs, r)
      ensures Meets(b, Obstacle(r.to, r.from)) <==> Inside(b, r)
    {
      AfterRangeAvoids(divs, r, b);
    }
  }

  // ---------- everything together ----------

  /** What is left of the candidates cs. */
  ghost function Left(cs: seq<IPNet>, dbs: seq<Rdb>, dhcp: Dhcp, networkID: string): (left: seq<IPNet>)
    requires InputsParse(dbs, dhcp, networkID)
  {
    var noRdbs := Clear(cs, Points(RdbAddresses(dbs, networkID)));
    Clear(AfterRanges(noRdbs, Ranges(dhcp.pools)), Points(dhcp.staticIPs))
  }

  /** When start and stop of all pools are in order, the three removals are one filter by everything in use. */
  lemma LeftIsFilter(cs: seq<IPNet>, dbs: seq<Rdb>, dhcp: Dhcp, networkID: string)
    requires InputsParse(dbs, dhcp, networkID) && InOrder(Ranges(dhcp.pools))
    ensures Left(cs, dbs, dhcp, networkID) == Clear(cs, InUse(dbs, dhcp, networkID))
  {
    var a, b, c := Points(RdbAddresses(dbs, networkID)), Ranges(dhcp.pools), Points(dhcp.staticIPs);
    AfterRangesInOrder(Clear(cs, a), b);
    ClearMore(cs, a, b);
    ClearMore(cs, a + b, c);
  }

  /** The block meets no database, no static address and no pool in order, and holds no end of any pool. */
  ghost predicate Usable(b: IPNet, dbs: seq<Rdb>, dhcp: Dhcp, networkID: string)
    requires InputsParse(dbs, dhcp, networkID)
  {
    && (forall o :: o in Points(RdbAddresses(dbs, networkID)) ==> !Meets(b, o))
    && (forall o :: o in Points(dhcp.staticIPs) ==> !Meets(b, o))
    && (forall r :: r in Ranges(dhcp.pools) ==> Avoids(b, r))
  }

  /** Whatever the pools are, every block that is left is a usable candidate. */
  lemma LeftIsUsable(cs: seq<IPNet>, dbs: seq<Rdb>, dhcp: Dhcp, networkID: string, b: IPNet)
    requires InputsParse(dbs, dhcp, networkID) && b in Left(cs, dbs, dhcp, networkID)
    ensures b in cs && Usable(b, dbs, dhcp, networkID)
  {
    var noRdbs := Clear(cs, Points(RdbAddresses(dbs, networkID)));
    KeepMember(AfterRanges(noRdbs, Ranges(dhcp.pools)), HitBy(Points(dhcp.staticIPs)), b);
    AfterRangesAvoids(noRdbs, Ranges(dhcp.pools), b);
    KeepMember(cs, HitBy(Points(RdbAddresses(dbs, networkID))), b);
  }

  /** The recommendation: the middle of what is left, usable in any case, and the exact filter when pools are in order. */
  ghost predicate Recommended(cs: seq<IPNet>, dbs: seq<Rdb>, dhcp: Dhcp, networkID: string, cidr: Option<IPNet>)
    requires InputsParse(dbs, dhcp, networkID)
  {
    && cidr == Middle(Left(cs, dbs, dhcp, networkID))
    && (cidr.Some? ==> cidr.value in cs && Usable(cidr.value, dbs, dhcp, networkID))
    && (InOrder(Ranges(dhcp.pools)) ==> cidr == Middle(Clear(cs, InUse(dbs, dhcp, networkID))))
  }

  lemma MiddleIsRecommended(cs: seq<IPNet>, dbs: seq<Rdb>, dhcp: Dhcp, networkID: string)
    requires InputsParse(dbs, dhcp, networkID)
    ensures Recommended(cs, dbs, dhcp, networkID, Middle(Left(cs, dbs, dhcp, networkID)))
  {
    var left := Left(cs, dbs, dhcp, networkID);
    if left != [] {
      LeftIsUsable(cs, dbs, dhcp, networkID, left[|left| / 2]);
    }
    if InOrder(Ranges(dhcp.pools)) {
      LeftIsFilter(cs, dbs, dhcp, networkID);
    }
  }

  /** A pool from the last address of the LAN back to the first. */
  ghost function BackwardPool(lan: IPNet): (p: Pool) {
    Pool(Some(FromVal(Hi(lan))), Some(FromVal(Lo(lan))))
  }

  /** The candidates lie strictly between the first and the last address when the first and the last block are not offered. */
  lemma CandidateIsInside(lan: IPNet, b: IPNet)
    requires Offset(lan) >= 3 && b in Candidates(lan)
    ensures Lo(lan) < Lo(b) && Hi(b) < Hi(lan)
  {
    var bs := Blocks(lan, Offset(lan));
    BlocksMany(lan);
    var i :| 0 < i < |bs| - 1 && bs[i] == b;
    BlockStrictlyInside(lan, Offset(lan), i);
  }

  /** Such a pool covers the whole LAN and drops nothing: the block chosen lies inside it. */
  lemma BackwardPoolIsIgnored(lan: IPNet, networkID: string)
    requires Offset(lan) >= 3
    ensures var dhcp := Dhcp([BackwardPool(lan)], []);
            && InputsParse([], dhcp, networkID)
            && Left(Candidates(lan), [], dhcp, networkID) == Candidates(lan) != []
            && var r := Middle(Left(Candidates(lan), [], dhcp, networkID));
            r.Some? && Inside(r.value, Range(BackwardPool(lan)))
  {
    var dhcp, cs, r := Dhcp([BackwardPool(lan)], []), Candidates(lan), Range(BackwardPool(lan));
    BlocksMany(lan);
    BackwardDropsNothing(lan);
    ClearNothing(cs);
    assert Points([]) == [] && Ranges(dhcp.pools) == [r];
    CandidateIsInside(lan, cs[|cs| / 2]);
  }

  lemma BackwardDropsNothing(lan: IPNet)
    requires Offset(lan) >= 3
    ensures AfterRanges(Candidates(lan), [Range(BackwardPool(lan))]) == Candidates(lan)
  {
    var cs, r := Candidates(lan), Range(BackwardPool(lan));
    forall b | b in cs
      ensures !In(r.from, b) && !In(r.to, b)
    {
      CandidateIsInside(lan, b);
    }
    assert !Covers(cs, r.from) && !Covers(cs, r.to);
    assert [] + [r] == [r];
    AfterOneMore(cs, [], r);
  }

  // ---------- the code ----------

  /** Drops the blocks of all the given addresses. */
  method DropAddresses(d: CidrDivs, ips: seq<Option<IP>>) returns (r: Result<()>)
    requires d.Valid()
    modifies d`divs
    ensures d.Valid()
    ensures r.Ok? <==> AllParse(ips)
    ensures r.Ok? ==> d.divs == Clear(old(d.divs), Points(ips))
  {
    ClearNothing(d.divs);
    assert Points(ips[..0]) == [];
    for i := 0 to |ips|
      invariant d.Valid()
      invariant AllParse(ips[..i]) && d.divs == Clear(old(d.divs), Points(ips[..i]))
    {
      assert ips[..i + 1] == ips[..i] + [ips[i]];
      var e := d.DropWithIP(ips[i]);
      if e.Err? {
        return e;
      }
      ClearOneMore(old(d.divs), Points(ips[..i]), Point(ips[i].value));
      PointsStep(ips[..i], ips[i]);
    }
    assert ips[..|ips|] == ips;
    return Ok(());
  }

  /** Drops the blocks of the databases that are on the network. */
  method DropRdbs(d: CidrDivs, dbs: seq<Rdb>, networkID: string) returns (r: Result<()>)
    requires d.Valid()
    modifies d`divs
    ensures d.Valid()
    ensures r.Ok? <==> AllParse(RdbAddresses(dbs, networkID))
    ensures r.Ok? ==> d.divs == Clear(old(d.divs), Points(RdbAddresses(dbs, networkID)))
  {
    ClearNothing(d.divs);
    assert Points(RdbAddresses(dbs[..0], networkID)) == [];
    for i := 0 to |dbs|
      invariant d.Valid()
      invariant AllParse(RdbAddresses(dbs[..i], networkID))
      invariant d.divs == Clear(old(d.divs), Points(RdbAddresses(dbs[..i], networkID)))
    {
      RdbStep(dbs, networkID, i);
      if dbs[i].networkID == networkID {
        ghost var ips := RdbAddresses(dbs[..i], networkID);
        var e := d.DropWithIP(dbs[i].address);
        if e.Err? {
          RdbUnparsed(dbs, networkID, i);
          return e;
        }
        ClearOneMore(old(d.divs), Points(ips), Point(dbs[i].address.value));
        PointsStep(ips, dbs[i].address);
      }
    }
    assert dbs[..|dbs|] == dbs;
    return Ok(());
  }

  /** One database on the network without a readable address spoils the list. */
  lemma {:induction false} RdbUnparsed(dbs: seq<Rdb>, networkID: string, i: nat)
    requires i < |dbs| && dbs[i].networkID == networkID && dbs[i].address.None?
    ensures !AllParse(RdbAddresses(dbs, networkID))
  {
    var init, ips := dbs[..|dbs| - 1], RdbAddresses(dbs, networkID);
    if i == |dbs| - 1 {
      assert ips[|ips| - 1].None?;
    } else {
      RdbUnparsed(init, networkID, i);
      var k :| 0 <= k < |RdbAddresses(init, networkID)| && RdbAddresses(init, networkID)[k].None?;
      assert ips[k].None?;
    }
  }

  /** Drops the blocks of all DHCP pools. */
  method DropPools(d: CidrDivs, pools: seq<Pool>) returns (r: Result<()>)
    requires d.Valid()
    modifies d`divs
    ensures d.Valid()
    ensures r.Ok? <==> PoolsParse(pools)
    ensures r.Ok? ==> d.divs == AfterRanges(old(d.divs), Ranges(pools))
  {
    assert Ranges(pools[..0]) == [];
    for i := 0 to |pools|
      invariant d.Valid() && PoolsParse(pools[..i])
      invariant d.divs == AfterRanges(old(d.divs), Ranges(pools[..i]))
    {
      var e := d.DropWithIPRange(pools[i].start, pools[i].stop);
      if e.Err? {
        return e;
      }
      assert pools[..i + 1] == pools[..i] + [pools[i]];
      RangesStep(pools[..i], pools[i]);
      AfterOneMore(old(d.divs), Ranges(pools[..i]), Range(pools[i]));
    }
    assert pools[..|pools|] == pools;
    return Ok(());
  }

  /** The divided LAN without its first and last block; dropping those two never fails. */
  method NewCandidates(lan: IPNet) returns (r: Result<CidrDivs>)
    ensures r.Ok? <==> lan.ones <= 26
    ensures r.Ok? ==> fresh(r.value) && r.value.Valid() && r.value.divs == Candidates(lan)
    ensures r.Ok? ==>
              && |r.value.divs| == (if lan.ones <= 23 then 14 else if lan.ones == 24 then 6 else if lan.ones == 25 then 4 else 2)
              && forall b :: b in r.value.divs ==> b.ones == if lan.ones <= 23 then lan.ones + 4 else 27
  {
    CandidatesAre(lan);
    var offset, minMaskForDiv := 4, 5;
    while 32 - lan.ones - offset < minMaskForDiv
      invariant Offset(lan) <= offset <= 4
    {
      offset := offset - 1;
    }
    var blocks := DivideNet(lan, offset);
    if blocks.Err? {
      return Err("initialing recommended cidr divs");
    }
    BlocksAscend(lan, offset);
    var rcmd := new CidrDivs(lan, offset, blocks.value);
    if offset >= 3 {
      BlocksMany(lan);
      var e := rcmd.DropHeadAndTail();
      if e.Err? {
        return Err("dropping recommended cidr divs");
      }
    }
    return Ok(rcmd);
  }

  class Configurator {
    var networkID: string
    var cidr: Option<IPNet>

    constructor (networkID: string)
      ensures this.networkID == networkID && this.cidr == None
    {
      this.networkID, this.cidr := networkID, None;
    }

    /** The recommendation; every call to the cloud may fail. */
    method Recommend(lan: Result<IPNet>, dbs: Result<seq<Rdb>>, dhcp: Result<Dhcp>) returns (r: Result<()>)
      modifies this`cidr
      ensures r.Ok? <==> && lan.Ok? && lan.value.ones <= 26 && dbs.Ok? && dhcp.Ok?
                         && InputsParse(dbs.value, dhcp.value, networkID)
      ensures r.Ok? ==> Recommended(Candidates(lan.value), dbs.value, dhcp.value, networkID, cidr)
      ensures r.Err? ==> cidr == old(cidr)
    {
      if lan.Err? {
        return Err("getting private lan");
      }
      var cs := NewCandidates(lan.value);
      if cs.Err? {
        return Err(cs.error);
      }
      var rcmd := cs.value;
      if dbs.Err? {
        return Err("getting RDB list");
      }
      var e := DropRdbs(rcmd, dbs.value, networkID);
      if e.Err? {
        return e;
      }
      if dhcp.Err? {
        return Err("getting dhcp ip pool");
      }
      e := DropPools(rcmd, dhcp.value.pools);
      if e.Err? {
        return e;
      }
      e := DropAddresses(rcmd, dhcp.value.staticIPs);
      if e.Err? {
        return e;
      }
      MiddleIsRecommended(Candidates(lan.value), dbs.value, dhcp.value, networkID);
      if |rcmd.divs| == 0 {
        cidr := None;
      } else {
        cidr := Some(rcmd.divs[|rcmd.divs| / 2]);
      }
      return Ok(());
    }

    /** The common private network has no block; otherwise one is recommended when classes are configured. */
    method ConfigureCidr(configureClasses: bool, recommend: bool, lan: Result<IPNet>, dbs: Result<seq<Rdb>>,
                         dhcp: Result<Dhcp>)
      returns (r: Result<()>)
      modifies this`cidr
      ensures networkID == "net-COMMON_PRIVATE" ==> r.Ok? && cidr == None
      ensures networkID != COMMON_PRIVATE && !(configureClasses && recommend) ==> r.Ok? && cidr == old(cidr)
      ensures networkID != COMMON_PRIVATE && configureClasses && recommend ==>
                (r.Ok? <==> && lan.Ok? && lan.value.ones <= 26 && dbs.Ok? && dhcp.Ok?
                            && InputsParse(dbs.value, dhcp.value, networkID))
      ensures networkID != COMMON_PRIVATE && configureClasses && recommend && r.Ok? ==>
                Recommended(Candidates(lan.value), dbs.value, dhcp.value, networkID, cidr)
      ensures r.Err? ==> cidr == old(cidr)
    {
      r := Ok(());
      if networkID == COMMON_PRIVATE {
        cidr := None;
      } else if configureClasses && recommend {
        r := Recommend(lan, dbs, dhcp);
      }
    }
  }
}
