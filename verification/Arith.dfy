/** Powers of two, rounding and bits: what the address arithmetic rests on. */
module Arith {

  lemma MulAtLeast(k: int, d: int)
    requires k >= 1 && d >= 0
    ensures k * d >= d
  {
    if k > 1 {
      MulAtLeast(k - 1, d);
      assert k * d == (k - 1) * d + d;
    }
  }

  lemma MulMonotone(a: int, b: int, d: int)
    requires a <= b && d >= 0
    ensures a * d <= b * d
  {
    if a < b {
      MulAtLeast(b - a, d);
      assert b * d == a * d + (b - a) * d;
    }
  }

  lemma MulAssoc(a: int, b: int, c: int)
    ensures (a * b) * c == a * (b * c)
  {
  }

  // ---------- rounding down to a multiple ----------

  /** The largest multiple of s that is at most v. */
  function RoundDown(v: nat, s: nat): (r: nat)
    requires s > 0
    ensures r <= v < r + s
  {
    if v < s then 0 else s + RoundDown(v - s, s)
  }

  lemma {:induction false} RoundDownIsMultiple(v: nat, s: nat) returns (q: nat)
    requires s > 0
    ensures RoundDown(v, s) == q * s
  {
    if v < s {
      q := 0;
    } else {
      var p := RoundDownIsMultiple(v - s, s);
      q := p + 1;
      assert q * s == p * s + s;
    }
  }

  lemma {:induction false} RoundDownUnique(v: nat, s: nat, q: nat)
    requires s > 0 && q * s <= v < q * s + s
    ensures RoundDown(v, s) == q * s
  {
    if q > 0 {
      assert q * s == (q - 1) * s + s;
      RoundDownUnique(v - s, s, q - 1);
    }
  }

  /** Exactly the numbers between one multiple of s and the next round down to the first. */
  lemma RoundDownSame(v: nat, w: nat, s: nat)
    requires s > 0
    ensures RoundDown(v, s) <= w < RoundDown(v, s) + s <==> RoundDown(v, s) == RoundDown(w, s)
  {
    if RoundDown(v, s) <= w < RoundDown(v, s) + s {
      var q := RoundDownIsMultiple(v, s);
      RoundDownUnique(w, s, q);
    }
  }

  /** Rounding down below s * c leaves room for a whole s. */
  lemma RoundDownFits(v: nat, s: nat, c: nat)
    requires s > 0 && v < s * c
    ensures RoundDown(v, s) + s <= s * c
  {
    var q := RoundDownIsMultiple(v, s);
    assert s * c == c * s;
    if q >= c {
      MulMonotone(c, q, s);
      assert false;
    }
    MulMonotone(q + 1, c, s);
    assert (q + 1) * s == q * s + s;
  }

  /** A multiple of c * s plus some s is a multiple of s. */
  lemma RoundDownAligned(v: nat, c: nat, s: nat, i: nat)
    requires c * s > 0 && s > 0
    ensures RoundDown(RoundDown(v, c * s) + i * s, s) == RoundDown(v, c * s) + i * s
  {
    var q := RoundDownIsMultiple(v, c * s);
    assert q * (c * s) + i * s == (q * c + i) * s;
    RoundDownUnique(q * (c * s) + i * s, s, q * c + i);
  }

  /** Rounding a number written as a digit b above a remainder l. */
  lemma RoundDownScale(b: nat, p: nat, k: nat, l: nat)
    requires p > 0 && l < k
    ensures p * k > 0
    ensures RoundDown(b * k + l, p * k) == RoundDown(b, p) * k
  {
    MulAtLeast(p, k);
    var q := RoundDownIsMultiple(b, p);
    assert q * (p * k) == (q * p) * k;
    MulMonotone(q * p, b, k);
    MulMonotone(b + 1, q * p + p, k);
    assert (b + 1) * k == b * k + k;
    assert (q * p + p) * k == (q * p) * k + p * k;
    RoundDownUnique(b * k + l, p * k, q);
  }

  /** High bytes are not touched by rounding to a divisor of 256. */
  lemma RoundDownHigh(h: nat, b: nat, p: nat, c: nat)
    requires p > 0 && p * c == 256
    ensures RoundDown(h * 256 + b, p) == h * 256 + RoundDown(b, p)
  {
    var q := RoundDownIsMultiple(b, p);
    assert (h * c + q) * p == h * (p * c) + q * p;
    RoundDownUnique(h * 256 + b, p, h * c + q);
  }

  /** Rounding to an even size is rounding the half to half the size. */
  lemma RoundDownDouble(a: nat, p: nat)
    requires p > 0
    ensures RoundDown(a, 2 * p) == 2 * RoundDown(a / 2, p)
  {
    var q := RoundDownIsMultiple(a / 2, p);
    assert q * (2 * p) == 2 * (q * p);
    RoundDownUnique(a, 2 * p, q);
  }

  // ---------- powers of two ----------

  function Pow2(n: nat): (p: nat)
    ensures p > 0
  {
    if n == 0 then 1 else 2 * Pow2(n - 1)
  }

  lemma {:induction false} Pow2Add(m: nat, n: nat)
    ensures Pow2(m + n) == Pow2(m) * Pow2(n)
  {
    if m > 0 {
      calc {
        Pow2(m + n);
        2 * Pow2((m - 1) + n);
        { Pow2Add(m - 1, n); }
        2 * (Pow2(m - 1) * Pow2(n));
        { MulAssoc(2, Pow2(m - 1), Pow2(n)); }
        Pow2(m) * Pow2(n);
      }
    }
  }

  lemma Pow2Bytes()
    ensures Pow2(0) == 1 && Pow2(8) == 0x100 && Pow2(16) == 0x1_0000
    ensures Pow2(24) == 0x100_0000 && Pow2(32) == 0x1_0000_0000
  {
    assert Pow2(4) == 16;
    Pow2Add(4, 4);
    Pow2Add(8, 8);
    Pow2Add(16, 8);
    Pow2Add(16, 16);
  }

  lemma {:induction false} Pow2Monotone(m: nat, n: nat)
    requires m <= n
    ensures Pow2(m) <= Pow2(n)
  {
    if m < n {
      Pow2Monotone(m, n - 1);
    }
  }

  // ---------- bits ----------

  /** Bitwise AND, bit by bit. */
  function And(a: nat, b: nat): (r: nat)
    ensures r <= a
  {
    if a == 0 || b == 0 then 0
    else 2 * And(a / 2, b / 2) + (if a % 2 == 1 && b % 2 == 1 then 1 else 0)
  }

  /** Among numbers of n bits, a mask m of ones above j zeros rounds down to a multiple of 2^j. */
  lemma {:induction false} AndMaskRounds(a: nat, n: nat, j: nat, m: nat)
    requires j <= n && a < Pow2(n) && m == Pow2(n) - Pow2(j)
    ensures And(a, m) == RoundDown(a, Pow2(j))
  {
    if j == n {
      assert m == 0;
    } else if a > 0 {
      Pow2Monotone(j, n - 1);
      if j == 0 {
        AndMaskRounds(a / 2, n - 1, 0, m / 2);
        RoundDownUnique(a, 1, a);
        RoundDownUnique(a / 2, 1, a / 2);
      } else {
        AndMaskRounds(a / 2, n - 1, j - 1, m / 2);
        RoundDownDouble(a, Pow2(j - 1));
      }
    }
  }
}
