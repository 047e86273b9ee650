/** Filtering a sequence, and when one splice does it. */
module Filter {

  /** The elements that are not hit, in order. */
  ghost function Keep<T>(s: seq<T>, hit: T -> bool): (r: seq<T>) {
    if s == [] then [] else (if hit(s[0]) then [] else [s[0]]) + Keep(s[1..], hit)
  }

  lemma {:induction false} KeepConcat<T>(a: seq<T>, b: seq<T>, hit: T -> bool)
    ensures Keep(a + b, hit) == Keep(a, hit) + Keep(b, hit)
  {
    if a == [] {
      assert a + b == b;
    } else {
      assert (a + b)[1..] == a[1..] + b;
      KeepConcat(a[1..], b, hit);
    }
  }

  lemma {:induction false} KeepAll<T>(a: seq<T>, hit: T -> bool)
    requires forall i :: 0 <= i < |a| ==> !hit(a[i])
    ensures Keep(a, hit) == a
  {
    if a != [] {
      KeepAll(a[1..], hit);
    }
  }

  lemma {:induction false} KeepMember<T>(s: seq<T>, hit: T -> bool, x: T)
    ensures x in Keep(s, hit) <==> x in s && !hit(x)
  {
    if s != [] {
      KeepMember(s[1..], hit, x);
    }
  }

  /** Filtering twice is filtering by either. */
  lemma {:induction false} KeepTwice<T>(s: seq<T>, f: T -> bool, g: T -> bool, h: T -> bool)
    requires forall x :: x in s ==> (h(x) <==> f(x) || g(x))
    ensures Keep(Keep(s, f), g) == Keep(s, h)
  {
    if s != [] {
      KeepTwice(s[1..], f, g, h);
      KeepConcat(if f(s[0]) then [] else [s[0]], Keep(s[1..], f), g);
    }
  }

  /** If exactly the elements from first to last are hit, one splice filters. */
  lemma {:induction false} SpliceIsKeep<T>(s: seq<T>, hit: T -> bool, first: nat, last: nat)
    requires first <= last < |s|
    requires forall i :: 0 <= i < |s| ==> (hit(s[i]) <==> first <= i <= last)
    ensures Keep(s, hit) == s[..first] + s[last + 1..]
  {
    var t := s[1..];
    if first > 0 {
      SpliceIsKeep(t, hit, first - 1, last - 1);
      assert s[..first] == [s[0]] + t[..first - 1];
    } else if last > 0 {
      SpliceIsKeep(t, hit, 0, last - 1);
    } else {
      KeepAll(t, hit);
    }
  }

  /** A relation between all earlier and later elements survives filtering. */
  ghost predicate Ordered<T(!new)>(s: seq<T>, before: (T, T) -> bool) {
    forall i, j :: 0 <= i < j < |s| ==> before(s[i], s[j])
  }

  lemma SliceOrdered<T(!new)>(s: seq<T>, a: nat, b: nat, before: (T, T) -> bool)
    requires a <= b <= |s| && Ordered(s, before)
    ensures Ordered(s[a..b], before)
  {
  }

  lemma {:induction false} KeepOrdered<T(!new)>(s: seq<T>, hit: T -> bool, before: (T, T) -> bool)
    requires Ordered(s, before)
    ensures Ordered(Keep(s, hit), before)
  {
    if s != [] {
      KeepOrdered(s[1..], hit, before);
      forall x | x in Keep(s[1..], hit)
        ensures before(s[0], x)
      {
        KeepMember(s[1..], hit, x);
      }
    }
  }
}
