/** Finding a written part inside a longer sequence, by position. */
module Slices {
  /** `part` lies in `s` from position i on. */
  predicate Occurs<T(==)>(s: seq<T>, i: nat, part: seq<T>)
  {
    i + |part| <= |s| && s[i..i + |part|] == part
  }

  lemma Split<T>(s: seq<T>, i: nat, a: seq<T>, b: seq<T>)
    requires Occurs(s, i, a + b)
    ensures Occurs(s, i, a) && Occurs(s, i + |a|, b)
  {
    var part := s[i..i + |a + b|];
    assert s[i..i + |a|] == part[..|a|] == a;
    assert s[i + |a|..i + |a| + |b|] == part[|a|..] == b;
  }

  lemma OccursOne<T>(s: seq<T>, i: nat, x: T)
    requires Occurs(s, i, [x])
    ensures i < |s| && s[i] == x
  {
  }

  lemma Inner<T>(s: seq<T>, a: nat, b: nat, from: nat, to: nat)
    requires a <= b <= |s| && from <= to <= b - a
    ensures s[a..b][from..to] == s[a + from..a + to]
  {
    var t := s[a..b];
    assert forall k :: 0 <= k < b - a ==> t[k] == s[a + k];
    assert t[from..to] == s[a + from..a + to];
  }

  lemma Associate<T>(a: seq<T>, b: seq<T>, c: seq<T>)
    ensures a + b + c == a + (b + c)
  {
  }
}
