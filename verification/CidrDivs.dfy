/**
 Division of a network into equal blocks and the removal of blocks that are in use
 (pkg/driver/configurator.go).

 The code divides by walking addresses and drops blocks by splicing a slice between the first and
 the last index that it finds.  Here the division is the list `Blocks` given by arithmetic, and every
 drop is the filter `Without`; both are proved of the loops.
 */
module CidrDivs {
  import opened Arith
  import opened Filter
  import opened Ipv4
  import opened Wrappers

  // ---------- division ----------

  /** Where block number i of size s starts, in a network that starts at lo. */
  function BlockLo(lo: nat, s: nat, i: nat): (v: nat) {
    if i == 0 then lo else BlockLo(lo, s, i - 1) + s
  }

  lemma {:induction false} BlockLoIs(lo: nat, s: nat, i: nat)
    ensures BlockLo(lo, s, i) == lo + i * s
  {
    if i > 0 {
      BlockLoIs(lo, s, i - 1);
      assert i * s == (i - 1) * s + s;
    }
  }

  lemma {:induction false} BlockLoAscends(lo: nat, s: nat, i: nat, j: nat)
    requires i < j
    ensures BlockLo(lo, s, i) + s <= BlockLo(lo, s, j)
  {
    if i + 1 < j {
      BlockLoAscends(lo, s, i, j - 1);
    }
  }

  /** The size of each of the 2^k blocks of a network. */
  function BlockSize(cidr: IPNet, k: nat): (s: nat)
    requires k <= 32 - cidr.ones
    ensures s > 0
  {
    Pow2(32 - cidr.ones - k)
  }

  /** Number i of the 2^k equal blocks of a network. */
  function Block(cidr: IPNet, k: nat, i: nat): (b: IPNet)
    requires k <= 32 - cidr.ones && i < Pow2(k)
  {
    BlockFits(cidr, k, i);
    IPNet(FromVal(BlockLo(Lo(cidr), BlockSize(cidr, k), i)), cidr.ones + k)
  }

  function Blocks(cidr: IPNet, k: nat): (bs: seq<IPNet>)
    requires k <= 32 - cidr.ones
  {
    seq(Pow2(k), i requires 0 <= i < Pow2(k) => Block(cidr, k, i))
  }

  lemma SizeIsBlocks(cidr: IPNet, k: nat)
    requires k <= 32 - cidr.ones
    ensures Size(cidr) == Pow2(k) * BlockSize(cidr, k)
  {
    Pow2Add(k, 32 - cidr.ones - k);
  }

  /** The blocks fill the parent. */
  lemma BlocksFill(cidr: IPNet, k: nat)
    requires k <= 32 - cidr.ones
    ensures BlockLo(Lo(cidr), BlockSize(cidr, k), Pow2(k)) == Hi(cidr) + 1
  {
    SizeIsBlocks(cidr, k);
    BlockLoIs(Lo(cidr), BlockSize(cidr, k), Pow2(k));
  }

  lemma BlockFits(cidr: IPNet, k: nat, i: nat)
    requires k <= 32 - cidr.ones && i < Pow2(k)
    ensures BlockLo(Lo(cidr), BlockSize(cidr, k), i) + BlockSize(cidr, k) <= Hi(cidr) + 1 <= SPACE
  {
    BlocksFill(cidr, k);
    BlockLoAscends(Lo(cidr), BlockSize(cidr, k), i, Pow2(k));
  }

  /** The blocks are aligned, of equal size, and lie one after the other from the start of the parent. */
  lemma BlockBounds(cidr: IPNet, k: nat, i: nat)
    requires k <= 32 - cidr.ones && i < Pow2(k)
    ensures Size(Block(cidr, k, i)) == BlockSize(cidr, k)
    ensures Val(Block(cidr, k, i).ip) == Lo(Block(cidr, k, i)) == BlockLo(Lo(cidr), BlockSize(cidr, k), i)
    ensures Hi(Block(cidr, k, i)) == BlockLo(Lo(cidr), BlockSize(cidr, k), i) + BlockSize(cidr, k) - 1
  {
    BlockFits(cidr, k, i);
    BlockIsAligned(cidr, k, i);
  }

  lemma BlockIsAligned(cidr: IPNet, k: nat, i: nat)
    requires k <= 32 - cidr.ones
    ensures var v := BlockLo(Lo(cidr), BlockSize(cidr, k), i); RoundDown(v, BlockSize(cidr, k)) == v
  {
    SizeIsBlocks(cidr, k);
    BlockLoIs(Lo(cidr), BlockSize(cidr, k), i);
    RoundDownAligned(Val(cidr.ip), Pow2(k), BlockSize(cidr, k), i);
  }

  /** Every block is inside the parent. */
  lemma BlockInside(cidr: IPNet, k: nat, i: nat)
    requires k <= 32 - cidr.ones && i < Pow2(k)
    ensures Lo(cidr) <= Lo(Block(cidr, k, i)) && Hi(Block(cidr, k, i)) <= Hi(cidr)
  {
    BlockBounds(cidr, k, i);
    BlockFits(cidr, k, i);
    if i > 0 {
      BlockLoAscends(Lo(cidr), BlockSize(cidr, k), 0, i);
    }
  }

  /** All but the first and the last block are away from the ends of the parent. */
  lemma BlockStrictlyInside(cidr: IPNet, k: nat, i: nat)
    requires k <= 32 - cidr.ones && 0 < i < Pow2(k) - 1
    ensures Lo(cidr) < Lo(Block(cidr, k, i)) && Hi(Block(cidr, k, i)) < Hi(cidr)
  {
    BlockBounds(cidr, k, i);
    BlockFits(cidr, k, i + 1);
    BlockLoAscends(Lo(cidr), BlockSize(cidr, k), 0, i);
  }

  /** And at least one block away. */
  lemma BlockAway(cidr: IPNet, k: nat, i: nat)
    requires k <= 32 - cidr.ones && i < Pow2(k)
    ensures i > 0 ==> Lo(cidr) + BlockSize(cidr, k) <= Lo(Block(cidr, k, i))
    ensures i == 0 ==> Hi(Block(cidr, k, i)) < Lo(cidr) + BlockSize(cidr, k)
    ensures i + 1 < Pow2(k) ==> Hi(Block(cidr, k, i)) + BlockSize(cidr, k) <= Hi(cidr)
    ensures i + 1 == Pow2(k) ==> Lo(Block(cidr, k, i)) + BlockSize(cidr, k) == Hi(cidr) + 1
  {
    BlockBounds(cidr, k, i);
    if i > 0 {
      BlockLoAscends(Lo(cidr), BlockSize(cidr, k), 0, i);
    }
    if i + 1 < Pow2(k) {
      BlockFits(cidr, k, i + 1);
    } else {
      BlocksFill(cidr, k);
    }
  }

  /** Every address of the parent is in a block. */
  lemma BlockOf(cidr: IPNet, k: nat, v: nat) returns (i: nat)
    requires k <= 32 - cidr.ones && In(v, cidr)
    ensures i < Pow2(k) && In(v, Block(cidr, k, i))
  {
    BlocksFill(cidr, k);
    i := IndexOf(Lo(cidr), BlockSize(cidr, k), Pow2(k), v);
    BlockBounds(cidr, k, i);
  }

  /** The blocks partition the parent into 2^k equal pieces, one after the other. */
  lemma BlocksPartition(cidr: IPNet, k: nat)
    requires k <= 32 - cidr.ones
    ensures |Blocks(cidr, k)| == Pow2(k)
    ensures forall b :: b in Blocks(cidr, k) ==> Size(b) == BlockSize(cidr, k) && Val(b.ip) == Lo(b)
    ensures Ascending(Blocks(cidr, k))
    ensures forall v: nat :: In(v, cidr) <==> exists b :: b in Blocks(cidr, k) && In(v, b)
  {
    forall b | b in Blocks(cidr, k)
      ensures Size(b) == BlockSize(cidr, k) && Val(b.ip) == Lo(b)
      ensures Lo(cidr) <= Lo(b) && Hi(b) <= Hi(cidr)
    {
      var i :| 0 <= i < Pow2(k) && b == Blocks(cidr, k)[i];
      BlockBounds(cidr, k, i);
      BlockInside(cidr, k, i);
    }
    BlocksAscend(cidr, k);
    forall v: nat
      ensures In(v, cidr) <==> exists b :: b in Blocks(cidr, k) && In(v, b)
    {
      if In(v, cidr) {
        var i := BlockOf(cidr, k, v);
        assert Blocks(cidr, k)[i] == Block(cidr, k, i);
      }
    }
  }

  /** The number of the block that holds v. */
  lemma {:induction false} IndexOf(lo: nat, s: nat, n: nat, v: nat) returns (i: nat)
    requires s > 0 && lo <= v < BlockLo(lo, s, n)
    ensures i < n && BlockLo(lo, s, i) <= v < BlockLo(lo, s, i) + s
  {
    if v < BlockLo(lo, s, n - 1) {
      i := IndexOf(lo, s, n - 1, v);
    } else {
      i := n - 1;
    }
  }

  ghost predicate In(v: nat, b: IPNet) {
    Lo(b) <= v <= Hi(b)
  }

  /** One block lies wholly before the next. */
  ghost predicate Ascending(divs: seq<IPNet>) {
    Ordered(divs, Before)
  }

  lemma BlocksAscend(cidr: IPNet, k: nat)
    requires k <= 32 - cidr.ones
    ensures Ascending(Blocks(cidr, k))
  {
    forall i, j | 0 <= i < j < Pow2(k)
      ensures Before(Block(cidr, k, i), Block(cidr, k, j))
    {
      BlockBounds(cidr, k, i);
      BlockBounds(cidr, k, j);
      BlockLoAscends(Lo(cidr), BlockSize(cidr, k), i, j);
    }
  }

  /** The network starts where block number i does, and has its size. */
  ghost predicate IsBlock(cidr: IPNet, k: nat, i: nat, div: IPNet)
    requires k <= 32 - cidr.ones
  {
    Val(div.ip) == BlockLo(Lo(cidr), BlockSize(cidr, k), i) && div.ones == cidr.ones + k
  }

  lemma IsBlockIs(cidr: IPNet, k: nat, i: nat, div: IPNet)
    requires k <= 32 - cidr.ones && i < Pow2(k) && IsBlock(cidr, k, i, div)
    ensures div == Block(cidr, k, i)
  {
    BlockBounds(cidr, k, i);
    ValInjective(div.ip, Block(cidr, k, i).ip);
  }

  /** The address after the end of a block, if there is another one, is where that one starts, and does not wrap. */
  lemma NextBlock(cidr: IPNet, k: nat, i: nat, div: IPNet, next: IPNet)
    requires k <= 32 - cidr.ones && i + 1 < Pow2(k) && IsBlock(cidr, k, i, div)
    requires Val(next.ip) == (if Hi(div) == SPACE - 1 then 0 else Hi(div) + 1) && next.ones == div.ones
    ensures IsBlock(cidr, k, i + 1, next)
  {
    IsBlockIs(cidr, k, i, div);
    BlockBounds(cidr, k, i);
    BlockFits(cidr, k, i + 1);
  }

  method DivideNet(cidr: IPNet, maskOffset: int) returns (r: Result<seq<IPNet>>)
    ensures r.Ok? <==> 0 < maskOffset <= 32 - cidr.ones
    ensures r.Ok? ==> r.value == Blocks(cidr, maskOffset)
  {
    if maskOffset <= 0 {
      return Err("mask offset must be positive value");
    }
    var divNum := 1;
    for i := 0 to maskOffset
      invariant divNum == Pow2(i)
    {
      divNum := divNum * 2;
    }
    if maskOffset > 32 - cidr.ones {
      return Err("mask offset is too big");
    }
    var divs := WalkBlocks(cidr, maskOffset, divNum);
    forall j | 0 <= j < divNum
      ensures divs[j] == Block(cidr, maskOffset, j)
    {
      IsBlockIs(cidr, maskOffset, j, divs[j]);
    }
    return Ok(divs);
  }

  /** Walks from the start of the network to the end of each block; after the last block the walk may wrap. */
  method WalkBlocks(cidr: IPNet, maskOffset: nat, divNum: nat) returns (divs: seq<IPNet>)
    requires maskOffset <= 32 - cidr.ones && divNum == Pow2(maskOffset)
    ensures |divs| == divNum && forall j :: 0 <= j < divNum ==> IsBlock(cidr, maskOffset, j, divs[j])
  {
    divs := [];
    var start := StartIP(cidr);
    for i := 0 to divNum
      invariant |divs| == i && forall j :: 0 <= j < i ==> IsBlock(cidr, maskOffset, j, divs[j])
      invariant i < divNum ==> IsBlock(cidr, maskOffset, i, IPNet(start, cidr.ones + maskOffset))
    {
      var div := IPNet(start, cidr.ones + maskOffset);
      var end := EndIP(div);
      start := IncIP(end);
      divs := divs + [div];
      if i + 1 < divNum {
        NextBlock(cidr, maskOffset, i, div, IPNet(start, cidr.ones + maskOffset));
      }
    }
  }

  // ---------- removal of blocks in use ----------

  /** A closed interval of addresses that are in use. */
  datatype Obstacle = Obstacle(from: nat, to: nat)

  ghost predicate Meets(b: IPNet, o: Obstacle) {
    Lo(b) <= o.to && o.from <= Hi(b)
  }

  ghost function Hit(o: Obstacle): (f: IPNet -> bool) {
    b => Meets(b, o)
  }

  /** The blocks that do not meet an obstacle, in order. */
  ghost function Without(divs: seq<IPNet>, o: Obstacle): (r: seq<IPNet>) {
    Keep(divs, Hit(o))
  }

  ghost predicate Before(a: IPNet, b: IPNet) {
    Hi(a) < Lo(b)
  }

  lemma WithoutAscends(divs: seq<IPNet>, o: Obstacle)
    requires Ascending(divs)
    ensures Ascending(Without(divs, o))
  {
    KeepOrdered(divs, Hit(o), Before);
  }

  /** In an ascending list the blocks that meet an obstacle are contiguous: one splice removes them. */
  lemma SpliceIsWithout(divs: seq<IPNet>, o: Obstacle, first: nat, last: nat)
    requires Ascending(divs) && first <= last < |divs|
    requires Meets(divs[first], o) && Meets(divs[last], o)
    requires forall i :: 0 <= i < first || last < i < |divs| ==> !Meets(divs[i], o)
    ensures Without(divs, o) == divs[..first] + divs[last + 1..]
  {
    forall i | first < i < last
      ensures Meets(divs[i], o)
    {
      assert Before(divs[first], divs[i]) && Before(divs[i], divs[last]);
    }
    SpliceIsKeep(divs, Hit(o), first, last);
  }

  /** Some block holds the address. */
  ghost predicate Covers(divs: seq<IPNet>, v: nat) {
    exists i :: 0 <= i < |divs| && In(v, divs[i])
  }

  /**
   What dropping a range removes: the blocks that meet it.  When the ends come in the wrong order, the
   blocks between the two ends if both are covered, and otherwise the block that holds the covered end.
   */
  ghost function Dropped(divs: seq<IPNet>, from: nat, to: nat): (o: Option<Obstacle>) {
    if from <= to then Some(Obstacle(from, to))
    else if Covers(divs, from) && Covers(divs, to) then Some(Obstacle(to, from))
    else if Covers(divs, from) then Some(Obstacle(from, from))
    else if Covers(divs, to) then Some(Obstacle(to, to))
    else None
  }

  ghost predicate InRange(from: nat, to: nat, b: IPNet) {
    In(from, b) || In(to, b) || (from < Lo(b) && Hi(b) < to)
  }

  /** A block meets an interval exactly if they share an address. */
  lemma MeetsIff(b: IPNet, o: Obstacle)
    ensures In(Lo(b), b) && In(Hi(b), b)
    ensures Meets(b, o) && o.from <= o.to <==> exists v: nat :: In(v, b) && o.from <= v <= o.to
  {
    if Meets(b, o) && o.from <= o.to {
      var v := if Lo(b) <= o.from then o.from else Lo(b);
      assert In(v, b);
    }
  }

  /** With the ends in order, the test of the code is interval overlap. */
  lemma InRangeIsMeets(from: nat, to: nat, b: IPNet)
    ensures from <= to ==> (InRange(from, to, b) <==> Meets(b, Obstacle(from, to)))
    ensures from > to ==> (InRange(from, to, b) <==> In(from, b) || In(to, b))
  {
  }

  /** The splice between the first and the last block in range removes what `Dropped` says. */
  lemma SpliceIsDropped(divs: seq<IPNet>, from: nat, to: nat, first: nat, last: nat)
    requires Ascending(divs) && first <= last < |divs|
    requires InRange(from, to, divs[first]) && InRange(from, to, divs[last])
    requires forall i :: 0 <= i < first || last < i < |divs| ==> !InRange(from, to, divs[i])
    ensures Dropped(divs, from, to).Some?
    ensures Without(divs, Dropped(divs, from, to).value) == divs[..first] + divs[last + 1..]
  {
    if from <= to {
      forall i | 0 <= i < |divs|
        ensures InRange(from, to, divs[i]) <==> Meets(divs[i], Obstacle(from, to))
      {
        InRangeIsMeets(from, to, divs[i]);
      }
      SpliceIsWithout(divs, Obstacle(from, to), first, last);
    } else {
      SpliceReversed(divs, from, to, first, last);
    }
  }

  lemma SpliceReversed(divs: seq<IPNet>, from: nat, to: nat, first: nat, last: nat)
    requires from > to && Ascending(divs) && first <= last < |divs|
    requires InRange(from, to, divs[first]) && InRange(from, to, divs[last])
    requires forall i :: 0 <= i < first || last < i < |divs| ==> !InRange(from, to, divs[i])
    ensures Dropped(divs, from, to).Some?
    ensures Without(divs, Dropped(divs, from, to).value) == divs[..first] + divs[last + 1..]
  {
    var o := if !In(from, divs[last]) then Obstacle(to, to)
    else if In(to, divs[first]) then Obstacle(to, from) else Obstacle(from, from);
    assert first < last ==> Before(divs[first], divs[last]);
    forall i | 0 <= i < first || last < i < |divs|
      ensures !Meets(divs[i], o)
    {
      InRangeIsMeets(from, to, divs[i]);
      assert i < first ==> Before(divs[i], divs[first]);
      assert i > last ==> Before(divs[last], divs[i]);
    }
    SpliceIsWithout(divs, o, first, last);
    assert Dropped(divs, from, to) == Some(o);
  }

  lemma NothingDropped(divs: seq<IPNet>, from: nat, to: nat)
    requires forall i :: 0 <= i < |divs| ==> !InRange(from, to, divs[i])
    ensures Dropped(divs, from, to).Some? ==> Without(divs, Dropped(divs, from, to).value) == divs
  {
    var o := Dropped(divs, from, to);
    if o.Some? {
      forall i | 0 <= i < |divs|
        ensures !Meets(divs[i], o.value)
      {
        InRangeIsMeets(from, to, divs[i]);
      }
      KeepAll(divs, Hit(o.value));
    }
  }

  method IsDevInRange(from: IP, to: IP, div: IPNet) returns (r: bool)
    ensures r == InRange(Val(from), Val(to), div)
  {
    ContainsIsInterval(div, from);
    ContainsIsInterval(div, to);
    if Contains(div, from) || Contains(div, to) {
      return true;
    }
    var start := StartIP(div);
    var end := EndIP(div);
    var c := CompareIP(from, start);
    var d := CompareIP(end, to);
    return c > 0 && d > 0;
  }

  class CidrDivs {
    var cidr: IPNet
    var maskOffset: int
    var divs: seq<IPNet>

    ghost predicate Valid()
      reads this
    {
      Ascending(divs)
    }

    constructor (cidr: IPNet, maskOffset: int, divs: seq<IPNet>)
      requires Ascending(divs)
      ensures Valid() && this.divs == divs
    {
      this.cidr, this.maskOffset, this.divs := cidr, maskOffset, divs;
    }

    method DropHeadAndTail() returns (r: Result<()>)
      requires Valid()
      modifies this`divs
      ensures Valid()
      ensures r.Ok? <==> |old(divs)| >= 3
      ensures divs == if r.Ok? then old(divs)[1..|old(divs)| - 1] else old(divs)
    {
      if |divs| < 3 {
        return Err("no enough divs");
      }
      divs := divs[1..|divs| - 1];
      return Ok(());
    }

    /** Drops the first block found to hold the address, and there is no other. */
    method DropWithIP(ip: Option<IP>) returns (r: Result<()>)
      requires Valid()
      modifies this`divs
      ensures Valid()
      ensures r.Ok? <==> ip.Some?
      ensures divs == if r.Ok? then Without(old(divs), Obstacle(Val(ip.value), Val(ip.value))) else old(divs)
    {
      if ip.None? {
        return Err("error parsing ip");
      }
      ghost var o := Obstacle(Val(ip.value), Val(ip.value));
      WithoutAscends(divs, o);
      var index := -1;
      var i := 0;
      while i < |divs|
        invariant 0 <= i <= |divs| && index == -1 && divs == old(divs)
        invariant forall k :: 0 <= k < i ==> !Meets(divs[k], o)
      {
        ContainsIsInterval(divs[i], ip.value);
        if Contains(divs[i], ip.value) {
          index := i;
          break;
        }
        i := i + 1;
      }
      if index >= 0 {
        SpliceIsWithout(divs, o, index, index);
        if index == 0 {
          divs := divs[1..];
        } else if index == |divs| - 1 {
          divs := divs[..|divs| - 1];
        } else {
          divs := divs[..index] + divs[index + 1..];
        }
      } else {
        KeepAll(divs, Hit(o));
      }
      return Ok(());
    }

    /** The first and the last block in range, if there are any. */
    method FindInRange(ipFrom: IP, ipTo: IP) returns (inRange: bool, divFrom: int, divTo: int)
      ensures !inRange ==> forall k :: 0 <= k < |divs| ==> !InRange(Val(ipFrom), Val(ipTo), divs[k])
      ensures inRange ==> 0 <= divFrom <= divTo < |divs|
      ensures inRange ==> InRange(Val(ipFrom), Val(ipTo), divs[divFrom]) && InRange(Val(ipFrom), Val(ipTo), divs[divTo])
      ensures inRange ==> forall k :: 0 <= k < divFrom || divTo < k < |divs| ==> !InRange(Val(ipFrom), Val(ipTo), divs[k])
    {
      ghost var from, to := Val(ipFrom), Val(ipTo);
      divFrom, divTo, inRange := -1, -1, false;
      for i := 0 to |divs|
        invariant !inRange ==> forall k :: 0 <= k < i ==> !InRange(from, to, divs[k])
        invariant inRange ==> 0 <= divFrom <= divTo < i && InRange(from, to, divs[divFrom]) && InRange(from, to, divs[divTo])
        invariant inRange ==> forall k :: 0 <= k < divFrom || divTo < k < i ==> !InRange(from, to, divs[k])
      {
        var hit := IsDevInRange(ipFrom, ipTo, divs[i]);
        if hit {
          if !inRange {
            divFrom := i;
            inRange := true;
          }
          divTo := i;
        }
      }
    }

    method DropWithIPRange(ipFrom: Option<IP>, ipTo: Option<IP>) returns (r: Result<()>)
      requires Valid()
      modifies this`divs
      ensures Valid()
      ensures r.Ok? <==> ipFrom.Some? && ipTo.Some?
      ensures r.Err? ==> divs == old(divs)
      ensures r.Ok? ==>
                var o := Dropped(old(divs), Val(ipFrom.value), Val(ipTo.value));
                divs == if o.Some? then Without(old(divs), o.value) else old(divs)
    {
      if ipFrom.None? {
        return Err("error parsing ip");
      }
      if ipTo.None? {
        return Err("erro parsing ip");
      }
      ghost var from, to := Val(ipFrom.value), Val(ipTo.value);
      ghost var o := Dropped(divs, from, to);
      var inRange, divFrom, divTo := FindInRange(ipFrom.value, ipTo.value);
      if inRange {
        SpliceIsDropped(divs, from, to, divFrom, divTo);
        WithoutAscends(divs, o.value);
        if divFrom == 0 {
          divs := divs[divTo + 1..];
        } else if divFrom == |divs| - 1 {
          divs := divs[..|divs| - 1];
        } else {
          divs := divs[..divFrom] + divs[divTo + 1..];
        }
      } else {
        NothingDropped(divs, from, to);
      }
      return Ok(());
    }
  }
}
