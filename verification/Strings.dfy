/** The string operations of the driver: Split and Join at '/', and Contains. */
module Strings {

  const SEP := '/'

  ghost predicate SlashFree(s: string) {
    SEP !in s
  }

  // ---------- Split and Join ----------

  function Join(tokens: seq<string>): (s: string)
    requires tokens != []
  {
    if |tokens| == 1 then tokens[0] else tokens[0] + [SEP] + Join(tokens[1..])
  }

  /** The piece before the first separator, then the pieces of what follows it. */
  function Split(s: string): (tokens: seq<string>)
    ensures tokens != []
    decreases |s|
  {
    var i := FirstSep(s);
    if i == |s| then [s] else [s[..i]] + Split(s[i + 1..])
  }

  /** The position of the first separator, or the length. */
  function FirstSep(s: string): (i: nat)
    ensures i <= |s| && SlashFree(s[..i])
    ensures i < |s| ==> s[i] == SEP
  {
    if s == [] || s[0] == SEP then 0 else
      var i := FirstSep(s[1..]) + 1;
      assert s[..i] == [s[0]] + s[1..][..i - 1];
      i
  }

  lemma {:induction false} FirstSepIs(a: string, rest: string)
    requires SlashFree(a) && (rest == [] || rest[0] == SEP)
    ensures FirstSep(a + rest) == |a|
  {
    if a == [] {
      assert a + rest == rest;
    } else {
      assert (a + rest)[1..] == a[1..] + rest;
      FirstSepIs(a[1..], rest);
    }
  }

  lemma {:induction false} SplitJoin(tokens: seq<string>)
    requires tokens != [] && forall i :: 0 <= i < |tokens| ==> SlashFree(tokens[i])
    ensures Split(Join(tokens)) == tokens
  {
    if |tokens| == 1 {
      assert tokens[0] + [] == tokens[0];
      FirstSepIs(tokens[0], []);
    } else {
      var rest := [SEP] + Join(tokens[1..]);
      assert Join(tokens) == tokens[0] + rest;
      FirstSepIs(tokens[0], rest);
      assert Join(tokens)[|tokens[0]| + 1..] == Join(tokens[1..]);
      SplitJoin(tokens[1..]);
    }
  }

  lemma JoinMore(a: string, tokens: seq<string>)
    requires tokens != []
    ensures Join([a] + tokens) == a + [SEP] + Join(tokens)
  {
    assert ([a] + tokens)[1..] == tokens;
  }

  lemma JoinTwo(a: string, b: string)
    ensures Join([a, b]) == a + [SEP] + b
  {
    assert [a, b][1..] == [b];
  }

  lemma JoinThree(a: string, b: string, c: string)
    ensures Join([a, b, c]) == a + [SEP] + b + [SEP] + c
  {
    assert [a, b, c][1..] == [b, c];
    JoinTwo(b, c);
    assert Join([a, b, c]) == a + [SEP] + (b + [SEP] + c);
  }

  lemma SplitThree(s: string)
    requires |Split(s)| == 3
    ensures var t := Split(s); s == t[0] + [SEP] + t[1] + [SEP] + t[2]
  {
    var t := Split(s);
    JoinSplit(s);
    assert t == [t[0], t[1], t[2]];
    JoinThree(t[0], t[1], t[2]);
  }

  lemma JoinSplit(s: string)
    ensures Join(Split(s)) == s
    ensures forall i :: 0 <= i < |Split(s)| ==> SlashFree(Split(s)[i])
  {
    JoinsBack(s);
    SplitIsPlain(s);
  }

  lemma SplitAt(s: string)
    requires FirstSep(s) < |s|
    ensures Split(s) == [s[..FirstSep(s)]] + Split(s[FirstSep(s) + 1..])
  {
  }

  lemma CutAt(s: string, i: nat)
    requires i < |s| && s[i] == SEP
    ensures s == s[..i] + [SEP] + s[i + 1..]
  {
  }

  lemma {:induction false} JoinsBack(s: string)
    ensures Join(Split(s)) == s
    decreases |s|
  {
    var i := FirstSep(s);
    if i < |s| {
      calc {
        Join(Split(s));
        { SplitAt(s); JoinMore(s[..i], Split(s[i + 1..])); }
        s[..i] + [SEP] + Join(Split(s[i + 1..]));
        { JoinsBack(s[i + 1..]); }
        s[..i] + [SEP] + s[i + 1..];
        { CutAt(s, i); }
        s;
      }
    }
  }

  lemma {:induction false} SplitIsPlain(s: string)
    ensures forall i :: 0 <= i < |Split(s)| ==> SlashFree(Split(s)[i])
    decreases |s|
  {
    var i := FirstSep(s);
    if i < |s| {
      SplitAt(s);
      SplitIsPlain(s[i + 1..]);
    } else {
      assert s[..i] == s;
    }
  }

  // ---------- Contains ----------

  predicate OccursAt(s: string, sub: string, i: nat) {
    i + |sub| <= |s| && s[i..i + |sub|] == sub
  }

  predicate Contains(s: string, sub: string) {
    exists i :: 0 <= i <= |s| && OccursAt(s, sub, i)
  }

  lemma ContainsInside(before: string, s: string, after: string, sub: string)
    requires Contains(s, sub)
    ensures Contains(before + s + after, sub)
  {
    var i :| 0 <= i <= |s| && OccursAt(s, sub, i);
    assert OccursAt(before + s + after, sub, |before| + i);
  }

  lemma ContainsTransitive(s: string, t: string, u: string)
    requires Contains(s, t) && Contains(t, u)
    ensures Contains(s, u)
  {
    var i :| 0 <= i <= |s| && OccursAt(s, t, i);
    ContainsInside(s[..i], t, s[i + |t|..], u);
    assert s == s[..i] + t + s[i + |t|..];
  }

  /** Found means: with something before it and something after it. */
  lemma ContainsIff(s: string, sub: string)
    ensures Contains(s, sub) <==> exists before, after :: s == before + sub + after
  {
    if i :| 0 <= i <= |s| && OccursAt(s, sub, i) {
      assert s == s[..i] + sub + s[i + |sub|..];
    }
    if before, after :| s == before + sub + after {
      assert OccursAt(s, sub, |before|);
    }
  }

  lemma ContainsSameLength(s: string, t: string)
    requires |s| == |t|
    ensures Contains(s, t) <==> s == t
  {
    assert s[0..|s|] == s;
    if s == t {
      assert OccursAt(s, t, 0);
    }
  }

  lemma ContainsPrefix(s: string, after: string)
    ensures Contains(s + after, s)
  {
    assert OccursAt(s + after, s, 0);
  }

  lemma SepInside(a: string, b: string, sub: string, i: nat)
    requires OccursAt(a + [SEP] + b, sub, i) && i <= |a| < i + |sub|
    ensures SEP in sub
  {
    assert (a + [SEP] + b)[i..i + |sub|][|a| - i] == SEP;
  }

  lemma OccursBefore(a: string, b: string, sub: string, i: nat)
    requires OccursAt(a + [SEP] + b, sub, i) && i + |sub| <= |a|
    ensures OccursAt(a, sub, i)
  {
    forall k | 0 <= k < |sub|
      ensures a[i + k] == sub[k]
    {
      assert (a + [SEP] + b)[i..i + |sub|][k] == a[i + k];
    }
  }

  lemma OccursAfter(a: string, b: string, sub: string, i: nat)
    requires OccursAt(a + [SEP] + b, sub, i) && i > |a|
    ensures OccursAt(b, sub, i - |a| - 1)
  {
    var j := i - |a| - 1;
    forall k | 0 <= k < |sub|
      ensures b[j + k] == sub[k]
    {
      assert (a + [SEP] + b)[i..i + |sub|][k] == b[j + k];
    }
  }

  /** A string without a separator lies on one side of it. */
  lemma ContainsInPart(a: string, b: string, sub: string)
    requires SlashFree(sub)
    ensures Contains(a + [SEP] + b, sub) <==> Contains(a, sub) || Contains(b, sub)
  {
    var s := a + [SEP] + b;
    if Contains(a, sub) {
      ContainsInside([], a, [SEP] + b, sub);
      assert [] + a + ([SEP] + b) == s;
    }
    if Contains(b, sub) {
      ContainsInside(a + [SEP], b, [], sub);
      assert a + [SEP] + b + [] == s;
    }
    if i :| 0 <= i <= |s| && OccursAt(s, sub, i) {
      if i + |sub| <= |a| {
        OccursBefore(a, b, sub, i);
      } else if i > |a| {
        OccursAfter(a, b, sub, i);
      } else {
        SepInside(a, b, sub, i);
      }
    }
  }
}
