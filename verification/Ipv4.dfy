/**
 IPv4 addresses as four bytes, and the byte-wise arithmetic that the driver does on them
 (pkg/driver/utils.go, pkg/driver/configurator.go).

 Every routine works on bytes, with carries and masks, and is specified by what it means for the
 32-bit value `Val` of the address.  Bitwise AND is defined bit by bit, so that masking is related
 to arithmetic by proof and not by definition.
 */
module Ipv4 {
  import opened Arith
  import opened Wrappers

  const BYTE_MAX := 255
  const SPACE := 0x1_0000_0000

  ghost predicate IsIP(s: seq<int>) {
    |s| == 4 && forall i :: 0 <= i < 4 ==> 0 <= s[i] <= BYTE_MAX
  }

  type IP = s: seq<int> | IsIP(s) witness [0, 0, 0, 0]

  // ---------- the value of an address ----------

  function Val(ip: IP): (v: nat)
    ensures v < SPACE
  {
    ip[0] * 0x100_0000 + ip[1] * 0x1_0000 + ip[2] * 0x100 + ip[3]
  }

  /** The bytes are the digits of the value, the first one the highest. */
  lemma ValIs(ip: IP)
    ensures Val(ip) == ((ip[0] * 256 + ip[1]) * 256 + ip[2]) * 256 + ip[3]
  {
  }

  function FromVal(v: nat): (ip: IP)
    requires v < SPACE
    ensures Val(ip) == v
  {
    var ip := seq(4, i requires 0 <= i < 4 => Digit(v, i));
    assert ip[0] == Digit(v, 0) && ip[1] == Digit(v, 1) && ip[2] == Digit(v, 2) && ip[3] == Digit(v, 3);
    ip
  }

  /** Byte i of the address with value v. */
  function Digit(v: nat, i: nat): (d: int)
    requires v < SPACE
    ensures 0 <= d <= BYTE_MAX
  {
    var b := v / 256;
    var c := b / 256;
    if i == 0 then c / 256 else if i == 1 then c % 256 else if i == 2 then b % 256 else v % 256
  }

  lemma ValInjective(a: IP, b: IP)
    ensures Val(a) == Val(b) <==> a == b
  {
    if Val(a) == Val(b) {
      assert a[0] == b[0];
      assert a[1] == b[1];
      assert a[2] == b[2];
    }
  }

  // ---------- networks ----------

  /** A network: an address of it, not necessarily the first, and its prefix length. */
  datatype IPNet = IPNet(ip: IP, ones: PrefixLen)

  type PrefixLen = n: int | 0 <= n <= 32

  function Size(n: IPNet): (s: nat)
    ensures s > 0
  {
    Pow2(32 - n.ones)
  }

  /** First address of the network, as a value: the address rounded down to a multiple of the size. */
  function Lo(n: IPNet): (v: nat)
    ensures v <= Val(n.ip) < v + Size(n)
  {
    RoundDown(Val(n.ip), Size(n))
  }

  /** Last address of the network. */
  function Hi(n: IPNet): (v: nat)
    ensures Lo(n) <= v < SPACE
  {
    LoFits(n);
    Lo(n) + Size(n) - 1
  }

  lemma LoFits(n: IPNet)
    ensures Lo(n) + Size(n) <= SPACE
  {
    Pow2Bytes();
    Pow2Add(32 - n.ones, n.ones);
    RoundDownFits(Val(n.ip), Size(n), Pow2(n.ones));
  }

  // ---------- masks ----------

  function And8(a: int, b: int): (r: int)
    requires 0 <= a <= BYTE_MAX && 0 <= b <= BYTE_MAX
    ensures 0 <= r <= a
  {
    And(a, b)
  }

  /** The number of zero bits of byte i in a mask with the given number of leading ones. */
  function HostZeros(ones: PrefixLen, i: nat): (z: nat)
    requires i < 4
    ensures z <= 8
  {
    if ones >= 8 * (i + 1) then 0 else if ones <= 8 * i then 8 else 8 * (i + 1) - ones
  }

  /** Byte i of the mask with the given number of leading ones (net.CIDRMask). */
  function MaskByte(ones: PrefixLen, i: nat): (m: int)
    requires i < 4
    ensures 0 <= m <= BYTE_MAX
  {
    Pow2Bytes();
    Pow2Monotone(HostZeros(ones, i), 8);
    256 - Pow2(HostZeros(ones, i))
  }

  /** The address under the mask, byte by byte. */
  function Masked(ip: IP, ones: PrefixLen): (m: IP)
  {
    seq(4, i requires 0 <= i < 4 => And8(ip[i], MaskByte(ones, i)))
  }

  /** net.IPNet.Contains: both addresses agree under the mask, byte by byte. */
  predicate Contains(n: IPNet, ip: IP)
  {
    Masked(n.ip, n.ones) == Masked(ip, n.ones)
  }

  /** One byte under its mask byte; setting its host bits again does not overflow it. */
  lemma MaskedByte(b: int, ones: PrefixLen, i: nat)
    requires 0 <= b <= BYTE_MAX && i < 4
    ensures And8(b, MaskByte(ones, i)) == RoundDown(b, Pow2(HostZeros(ones, i)))
    ensures HostZeros(ones, i) == 0 ==> And8(b, MaskByte(ones, i)) == b
    ensures HostZeros(ones, i) == 8 ==> And8(b, MaskByte(ones, i)) == 0
    ensures And8(b, MaskByte(ones, i)) + (BYTE_MAX - MaskByte(ones, i)) <= BYTE_MAX
  {
    Pow2Bytes();
    var j := HostZeros(ones, i);
    AndMaskRounds(b, 8, j, MaskByte(ones, i));
    Pow2Add(j, 8 - j);
    RoundDownFits(b, Pow2(j), Pow2(8 - j));
    if j == 0 {
      RoundDownUnique(b, 1, b);
    }
  }

  /** Rounding the byte b down and clearing the remainder l below it rounds the whole number, whatever is above it. */
  lemma RoundedAt(h: nat, b: nat, p: nat, c: nat, k: nat, l: nat)
    requires p > 0 && p * c == 256 && l < k
    ensures p * k > 0
    ensures RoundDown((h * 256 + b) * k + l, p * k) == (h * 256 + RoundDown(b, p)) * k
  {
    RoundDownScale(h * 256 + b, p, k, l);
    RoundDownHigh(h, b, p, c);
  }

  // The network size, when the mask ends in byte 0, 1 or 2.

  lemma SizeAt0(ones: PrefixLen)
    requires ones <= 8
    ensures Pow2(32 - ones) == Pow2(8 - ones) * 0x100_0000
  {
    Pow2Add(8 - ones, 24);
    Pow2Bytes();
  }

  lemma SizeAt1(ones: PrefixLen)
    requires 8 <= ones <= 16
    ensures Pow2(32 - ones) == Pow2(16 - ones) * 0x1_0000
  {
    Pow2Add(16 - ones, 16);
    Pow2Bytes();
  }

  lemma SizeAt2(ones: PrefixLen)
    requires 16 <= ones <= 24
    ensures Pow2(32 - ones) == Pow2(24 - ones) * 0x100
  {
    Pow2Add(24 - ones, 8);
    Pow2Bytes();
  }

  lemma Pow2Complement(z: nat)
    requires z <= 8
    ensures Pow2(z) * Pow2(8 - z) == 256
  {
    Pow2Add(z, 8 - z);
    Pow2Bytes();
  }

  // The bytes before the one where the mask ends are kept, that one is rounded down, those after it are cleared.

  lemma MaskKeeps(ip: IP, ones: PrefixLen, i: nat)
    requires i < 4 && 8 * i + 8 <= ones
    ensures Masked(ip, ones)[i] == ip[i]
  {
    MaskedByte(ip[i], ones, i);
  }

  lemma MaskRounds(ip: IP, ones: PrefixLen, i: nat)
    requires i < 4 && 8 * i <= ones <= 8 * i + 8
    ensures Masked(ip, ones)[i] == RoundDown(ip[i], Pow2(8 * i + 8 - ones))
  {
    MaskedByte(ip[i], ones, i);
  }

  lemma MaskClears(ip: IP, ones: PrefixLen, i: nat)
    requires i < 4 && ones <= 8 * i
    ensures Masked(ip, ones)[i] == 0
  {
    MaskedByte(ip[i], ones, i);
  }

  /** Setting the host bits again does not overflow any byte. */
  lemma MaskedFits(ip: IP, ones: PrefixLen)
    ensures forall i :: 0 <= i < 4 ==> Masked(ip, ones)[i] + HostByte(ones, i) <= BYTE_MAX
  {
    forall i | 0 <= i < 4
      ensures Masked(ip, ones)[i] + HostByte(ones, i) <= BYTE_MAX
    {
      MaskedByte(ip[i], ones, i);
    }
  }

  // One byte rounded down, the bytes before it kept and those after it cleared: the value is rounded down.

  lemma RoundedByte0(ip: IP, m: IP, ones: PrefixLen)
    requires ones <= 8 && m[0] == RoundDown(ip[0], Pow2(8 - ones)) && m[1] == m[2] == m[3] == 0
    ensures Val(m) == RoundDown(Val(ip), Pow2(32 - ones))
  {
    RoundDownScale(ip[0], Pow2(8 - ones), 0x100_0000, ip[1] * 0x1_0000 + ip[2] * 0x100 + ip[3]);
    SizeAt0(ones);
  }

  lemma RoundedByte1(ip: IP, m: IP, ones: PrefixLen)
    requires 8 <= ones <= 16 && m[0] == ip[0] && m[1] == RoundDown(ip[1], Pow2(16 - ones)) && m[2] == m[3] == 0
    ensures Val(m) == RoundDown(Val(ip), Pow2(32 - ones))
  {
    Pow2Complement(16 - ones);
    RoundedAt(ip[0], ip[1], Pow2(16 - ones), Pow2(8 - (16 - ones)), 0x1_0000, ip[2] * 0x100 + ip[3]);
    SizeAt1(ones);
  }

  lemma RoundedByte2(ip: IP, m: IP, ones: PrefixLen)
    requires 16 <= ones <= 24 && m[0] == ip[0] && m[1] == ip[1] && m[2] == RoundDown(ip[2], Pow2(24 - ones)) && m[3] == 0
    ensures Val(m) == RoundDown(Val(ip), Pow2(32 - ones))
  {
    Pow2Complement(24 - ones);
    RoundedAt(ip[0] * 256 + ip[1], ip[2], Pow2(24 - ones), Pow2(8 - (24 - ones)), 0x100, ip[3]);
    SizeAt2(ones);
  }

  lemma RoundedByte3(ip: IP, m: IP, ones: PrefixLen)
    requires 24 <= ones && m[0] == ip[0] && m[1] == ip[1] && m[2] == ip[2] && m[3] == RoundDown(ip[3], Pow2(32 - ones))
    ensures Val(m) == RoundDown(Val(ip), Pow2(32 - ones))
  {
    Pow2Complement(32 - ones);
    RoundDownHigh(ip[0] * 0x1_0000 + ip[1] * 256 + ip[2], ip[3], Pow2(32 - ones), Pow2(8 - (32 - ones)));
  }

  lemma MaskedVal0(ip: IP, ones: PrefixLen)
    requires ones <= 8
    ensures Val(Masked(ip, ones)) == RoundDown(Val(ip), Pow2(32 - ones))
  {
    var m := Masked(ip, ones);
    assert m[1] == m[2] == m[3] == 0 by {
      MaskClears(ip, ones, 1);
      MaskClears(ip, ones, 2);
      MaskClears(ip, ones, 3);
    }
    MaskRounds(ip, ones, 0);
    RoundedByte0(ip, m, ones);
  }

  lemma MaskedVal1(ip: IP, ones: PrefixLen)
    requires 8 <= ones <= 16
    ensures Val(Masked(ip, ones)) == RoundDown(Val(ip), Pow2(32 - ones))
  {
    MaskKeeps(ip, ones, 0);
    MaskRounds(ip, ones, 1);
    MaskClears(ip, ones, 2);
    MaskClears(ip, ones, 3);
    RoundedByte1(ip, Masked(ip, ones), ones);
  }

  lemma MaskedVal2(ip: IP, ones: PrefixLen)
    requires 16 <= ones <= 24
    ensures Val(Masked(ip, ones)) == RoundDown(Val(ip), Pow2(32 - ones))
  {
    MaskKeeps(ip, ones, 0);
    MaskKeeps(ip, ones, 1);
    MaskRounds(ip, ones, 2);
    MaskClears(ip, ones, 3);
    RoundedByte2(ip, Masked(ip, ones), ones);
  }

  lemma MaskedVal3(ip: IP, ones: PrefixLen)
    requires 24 <= ones
    ensures Val(Masked(ip, ones)) == RoundDown(Val(ip), Pow2(32 - ones))
  {
    MaskKeeps(ip, ones, 0);
    MaskKeeps(ip, ones, 1);
    MaskKeeps(ip, ones, 2);
    MaskRounds(ip, ones, 3);
    RoundedByte3(ip, Masked(ip, ones), ones);
  }

  /** Masking byte by byte rounds the value down to a multiple of the network size. */
  lemma MaskedVal(ip: IP, ones: PrefixLen)
    ensures Val(Masked(ip, ones)) == RoundDown(Val(ip), Pow2(32 - ones))
  {
    if ones <= 8 {
      MaskedVal0(ip, ones);
    } else if ones <= 16 {
      MaskedVal1(ip, ones);
    } else if ones <= 24 {
      MaskedVal2(ip, ones);
    } else {
      MaskedVal3(ip, ones);
    }
  }

  /** Byte i of the complement of the mask. */
  function HostByte(ones: PrefixLen, i: nat): (h: int)
    requires i < 4
    ensures 0 <= h <= BYTE_MAX
  {
    BYTE_MAX - MaskByte(ones, i)
  }

  lemma HostNone(ones: PrefixLen, i: nat)
    requires i < 4 && 8 * i + 8 <= ones
    ensures HostByte(ones, i) == 0
  {
  }

  lemma HostSome(ones: PrefixLen, i: nat)
    requires i < 4 && 8 * i <= ones <= 8 * i + 8
    ensures HostByte(ones, i) == Pow2(8 * i + 8 - ones) - 1
  {
  }

  lemma HostAll(ones: PrefixLen, i: nat)
    requires i < 4 && ones <= 8 * i
    ensures HostByte(ones, i) == BYTE_MAX
  {
    Pow2Bytes();
  }

  /** The value of four bytes. */
  ghost function ValOf(a: int, b: int, c: int, d: int): (v: int) {
    a * 0x100_0000 + b * 0x1_0000 + c * 0x100 + d
  }

  ghost function HostSum(ones: PrefixLen): (v: int) {
    ValOf(HostByte(ones, 0), HostByte(ones, 1), HostByte(ones, 2), HostByte(ones, 3))
  }

  /** The host bits of the mask are worth one less than the network size. */
  lemma HostBits(ones: PrefixLen)
    ensures HostSum(ones) == Pow2(32 - ones) - 1
  {
    if ones <= 8 {
      HostBits0(ones);
    } else if ones <= 16 {
      HostBits1(ones);
    } else if ones <= 24 {
      HostBits2(ones);
    } else {
      HostBits3(ones);
    }
  }

  lemma HostBits0(ones: PrefixLen)
    requires ones <= 8
    ensures HostSum(ones) == Pow2(32 - ones) - 1
  {
    calc {
      HostSum(ones);
      { HostSome(ones, 0); HostAll(ones, 1); HostAll(ones, 2); HostAll(ones, 3); }
      ValOf(Pow2(8 - ones) - 1, 255, 255, 255);
      Pow2(8 - ones) * 0x100_0000 - 1;
      { SizeAt0(ones); }
      Pow2(32 - ones) - 1;
    }
  }

  lemma HostBits1(ones: PrefixLen)
    requires 8 <= ones <= 16
    ensures HostSum(ones) == Pow2(32 - ones) - 1
  {
    calc {
      HostSum(ones);
      { HostNone(ones, 0); HostSome(ones, 1); HostAll(ones, 2); HostAll(ones, 3); }
      ValOf(0, Pow2(16 - ones) - 1, 255, 255);
      Pow2(16 - ones) * 0x1_0000 - 1;
      { SizeAt1(ones); }
      Pow2(32 - ones) - 1;
    }
  }

  lemma HostBits2(ones: PrefixLen)
    requires 16 <= ones <= 24
    ensures HostSum(ones) == Pow2(32 - ones) - 1
  {
    calc {
      HostSum(ones);
      { HostNone(ones, 0); HostNone(ones, 1); HostSome(ones, 2); HostAll(ones, 3); }
      ValOf(0, 0, Pow2(24 - ones) - 1, 255);
      Pow2(24 - ones) * 0x100 - 1;
      { SizeAt2(ones); }
      Pow2(32 - ones) - 1;
    }
  }

  lemma HostBits3(ones: PrefixLen)
    requires 24 <= ones
    ensures HostSum(ones) == Pow2(32 - ones) - 1
  {
    HostNone(ones, 0);
    HostNone(ones, 1);
    HostNone(ones, 2);
    HostSome(ones, 3);
  }

  /** The mask is a number of ones and then zeros: what is missing from all ones is the network size less one. */
  lemma MaskIs(ones: PrefixLen)
    ensures ValOf(MaskByte(ones, 0), MaskByte(ones, 1), MaskByte(ones, 2), MaskByte(ones, 3)) == 0x1_0000_0000 - Pow2(32 - ones)
  {
    HostBits(ones);
  }

  /** A network is the aligned run of 2^(32 - ones) addresses around its address. */
  lemma NetIs(n: IPNet) returns (q: nat)
    ensures Lo(n) == q * Pow2(32 - n.ones) && Lo(n) <= Val(n.ip) <= Hi(n) && Hi(n) == Lo(n) + Pow2(32 - n.ones) - 1
  {
    q := RoundDownIsMultiple(Val(n.ip), Size(n));
  }

  /** Byte-wise sums without carry add up. */
  lemma SumVal(start: IP, end: IP, a: int, b: int, c: int, d: int)
    requires end[0] == start[0] + a && end[1] == start[1] + b && end[2] == start[2] + c && end[3] == start[3] + d
    ensures Val(end) == Val(start) + ValOf(a, b, c, d)
  {
  }

  lemma EndVal(n: IPNet, start: IP, end: IP)
    requires Val(start) == Lo(n)
    requires forall k :: 0 <= k < 4 ==> end[k] == start[k] + HostByte(n.ones, k)
    ensures Val(end) == Hi(n)
  {
    calc {
      Val(end);
      { SumVal(start, end, HostByte(n.ones, 0), HostByte(n.ones, 1), HostByte(n.ones, 2), HostByte(n.ones, 3)); }
      Lo(n) + HostSum(n.ones);
      { HostBits(n.ones); }
      Hi(n);
    }
  }

  /** Contains, which compares masked bytes, compares the rounded values. */
  lemma ContainsByRounding(n: IPNet, ip: IP)
    ensures Contains(n, ip) <==> Lo(n) == RoundDown(Val(ip), Size(n))
  {
    var x, y := Masked(n.ip, n.ones), Masked(ip, n.ones);
    assert Val(x) == Lo(n) by { MaskedVal(n.ip, n.ones); }
    assert Val(y) == RoundDown(Val(ip), Size(n)) by { MaskedVal(ip, n.ones); }
    ValInjective(x, y);
  }

  /** Contains is membership in the interval from Lo to Hi. */
  lemma ContainsIsInterval(n: IPNet, ip: IP)
    ensures Contains(n, ip) <==> Lo(n) <= Val(ip) <= Hi(n)
  {
    ContainsByRounding(n, ip);
    RoundDownSame(Val(n.ip), Val(ip), Size(n));
  }

  // ---------- the byte-wise routines of the driver ----------

  /** Addition of bytes wraps around. */
  function ByteAdd(a: int, b: int): (r: int)
    requires 0 <= a <= BYTE_MAX && 0 <= b <= BYTE_MAX
    ensures 0 <= r <= BYTE_MAX
    ensures r == a + b <==> a + b <= BYTE_MAX
  {
    (a + b) % 256
  }

  method StartIP(n: IPNet) returns (r: IP)
    ensures Val(r) == Lo(n)
    ensures forall k :: 0 <= k < 4 ==> r[k] + HostByte(n.ones, k) <= BYTE_MAX
  {
    ghost var m := StartBytes(n);
    var start := new int[4](i requires 0 <= i < 4 => n.ip[i]);
    for i := 0 to 4
      invariant forall k :: 0 <= k < i ==> start[k] == m[k]
      invariant forall k :: i <= k < 4 ==> start[k] == n.ip[k]
    {
      start[i] := And8(start[i], MaskByte(n.ones, i));
    }
    assert start[..] == m;
    r := start[..];
  }

  /** The bytes of the first address. */
  lemma StartBytes(n: IPNet) returns (m: IP)
    ensures forall k {:trigger MaskByte(n.ones, k)} :: 0 <= k < 4 ==> m[k] == And8(n.ip[k], MaskByte(n.ones, k))
    ensures forall k {:trigger HostByte(n.ones, k)} :: 0 <= k < 4 ==> m[k] + HostByte(n.ones, k) <= BYTE_MAX
    ensures Val(m) == Lo(n)
  {
    m := Masked(n.ip, n.ones);
    MaskedFits(n.ip, n.ones);
    assert Val(m) == Lo(n) by {
      MaskedVal(n.ip, n.ones);
    }
  }

  /** Last address; the byte addition of the complemented mask never wraps. */
  method EndIP(n: IPNet) returns (r: IP)
    ensures Val(r) == Hi(n)
  {
    var start := StartIP(n);
    r := AddHostBits(start, n.ones);
    EndVal(n, start, r);
  }

  method AddHostBits(start: IP, ones: PrefixLen) returns (r: IP)
    requires forall k :: 0 <= k < 4 ==> start[k] + HostByte(ones, k) <= BYTE_MAX
    ensures forall k :: 0 <= k < 4 ==> r[k] == start[k] + HostByte(ones, k)
  {
    var end := new int[4](i requires 0 <= i < 4 => start[i]);
    for i := 0 to 4
      invariant forall k :: 0 <= k < i ==> end[k] == start[k] + HostByte(ones, k)
      invariant forall k :: i <= k < 4 ==> end[k] == start[k]
    {
      end[i] := ByteAdd(end[i], HostByte(ones, i));
    }
    r := end[..];
  }

  /** Adds one; the all-ones address wraps to zero. */
  method IncIP(ip: IP) returns (r: IP)
    ensures Val(r) == if Val(ip) == SPACE - 1 then 0 else Val(ip) + 1
  {
    var inc := new int[4](i requires 0 <= i < 4 => ip[i]);
    var j := 3;
    while j >= 0
      invariant -1 <= j < 4
      invariant forall k :: 0 <= k <= j ==> inc[k] == ip[k]
      invariant forall k :: j < k < 4 ==> inc[k] == 0 && ip[k] == BYTE_MAX
    {
      inc[j] := ByteAdd(inc[j], 1);
      if inc[j] > 0 {
        break;
      }
      j := j - 1;
    }
    r := inc[..];
  }

  /** Exact addition of a step byte: it fails exactly when the sum leaves the address space. */
  method IncrementIP(ip: IP, step: int) returns (r: Result<IP>)
    requires 0 <= step <= BYTE_MAX
    ensures r.Ok? <==> Val(ip) + step < SPACE
    ensures r.Ok? ==> Val(r.value) == Val(ip) + step
  {
    var inc := new int[4](i requires 0 <= i < 4 => ip[i]);
    if inc[3] <= BYTE_MAX - step {
      inc[3] := inc[3] + step;
      return Ok(inc[..]);
    }
    inc[3] := (inc[3] - BYTE_MAX + step - 1) % 256;
    var ipByte := 2;
    while ipByte >= 0
      invariant -1 <= ipByte < 3
      invariant inc[3] == ip[3] + step - 256
      invariant forall k :: 0 <= k <= ipByte ==> inc[k] == ip[k]
      invariant forall k :: ipByte < k < 3 ==> inc[k] == 0 && ip[k] == BYTE_MAX
    {
      if inc[ipByte] != BYTE_MAX {
        inc[ipByte] := inc[ipByte] + 1;
        return Ok(inc[..]);
      }
      inc[ipByte] := 0;
      ipByte := ipByte - 1;
    }
    return Err("ip range overflowed");
  }

  /** With step 1 the two increments agree everywhere except at the all-ones address. */
  method IncrementsAgree(ip: IP) returns (agree: bool)
    ensures agree <==> Val(ip) != SPACE - 1
  {
    var a := IncIP(ip);
    var b := IncrementIP(ip, 1);
    if b.Ok? {
      ValInjective(a, b.value);
    }
    agree := b == Ok(a);
  }

  /** The sixteen-byte form of an IPv4 address. */
  function To16(ip: IP): (r: seq<int>)
    ensures |r| == 16 && r[12..] == ip
  {
    [0, 0, 0, 0, 0, 0, 0, 0, 0, 0, 255, 255] + ip
  }

  /** Lexicographic comparison of the sixteen bytes is comparison of the values; 1 means a < b. */
  method CompareIP(a: IP, b: IP) returns (r: int)
    ensures r == if Val(a) < Val(b) then 1 else if Val(a) > Val(b) then -1 else 0
  {
    var x, y := To16(a), To16(b);
    for i := 0 to 16
      invariant forall k :: 0 <= k < i ==> x[k] == y[k]
    {
      if x[i] < y[i] {
        FirstDifference(a, b, i);
        return 1;
      }
      if x[i] > y[i] {
        FirstDifference(b, a, i);
        return -1;
      }
    }
    assert a == x[12..] == y[12..] == b;
    return 0;
  }

  lemma FirstDifference(a: IP, b: IP, i: nat)
    requires i < 16 && To16(a)[i] < To16(b)[i]
    requires forall k :: 0 <= k < i ==> To16(a)[k] == To16(b)[k]
    ensures Val(a) < Val(b)
  {
    assert i >= 12;
    assert forall k :: 0 <= k < 4 ==> a[k] == To16(a)[k + 12] && b[k] == To16(b)[k + 12];
    assert forall k :: 0 <= k < i - 12 ==> a[k] == b[k];
    assert a[i - 12] < b[i - 12];
  }
}
