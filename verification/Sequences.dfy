/** Sequences with one element removed, and strings cut at their first separator. */
module Sequences {

  function Without<T>(s: seq<T>, i: nat): seq<T>
    requires i < |s|
  {
    s[..i] + s[i + 1..]
  }

  lemma WithoutElements<T>(s: seq<T>, i: nat, x: T)
    requires i < |s|
    ensures x in s <==> x in Without(s, i) || x == s[i]
  {
    assert s == s[..i] + [s[i]] + s[i + 1..];
  }

  lemma WithoutRemovesOne<T>(s: seq<T>, i: nat)
    requires i < |s|
    ensures multiset(s) == multiset(Without(s, i)) + multiset{s[i]}
  {
    assert s == s[..i] + [s[i]] + s[i + 1..];
  }

  /** There is one way to cut a string at its first separator. */
  lemma SplitIsUnique(separator: char, a1: string, b1: string, a2: string, b2: string)
    requires a1 + [separator] + b1 == a2 + [separator] + b2 && separator !in a1 && separator !in a2
    ensures a1 == a2 && b1 == b2
  {
    var s := a1 + [separator] + b1;
    assert s[|a1|] == separator && s[|a2|] == separator;
    assert forall k | 0 <= k < |a1| :: a1[k] == s[k] && a1[k] in a1;
    assert forall k | 0 <= k < |a2| :: a2[k] == s[k] && a2[k] in a2;
    assert a1 == s[..|a1|] && a2 == s[..|a2|];
    assert b1 == s[|a1| + 1..] && b2 == s[|a2| + 1..];
  }
}
