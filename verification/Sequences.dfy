/** Sequences without repetition, and sets of small numbers. */
module Sequences {

  ghost predicate Distinct(s: seq<nat>) {
    forall i, j :: 0 <= i < j < |s| ==> s[i] != s[j]
  }

  lemma {:induction false} AppendDistinct(s: seq<nat>, x: nat)
    requires Distinct(s) && x !in s
    ensures Distinct(s + [x]) && forall y :: y in s + [x] <==> y in s || y == x
  {
  }

  lemma {:induction false} TailDistinct(s: seq<nat>)
    requires Distinct(s) && s != []
    ensures Distinct(s[1..]) && forall x :: x in s[1..] <==> x in s && x != s[0]
  {
    forall x | x in s && x != s[0] ensures x in s[1..] {
      var i :| 0 <= i < |s| && s[i] == x;
      assert s[1..][i - 1] == x;
    }
  }

  /** The sequence s without the first occurrence of x. */
  function Without(s: seq<nat>, x: nat): seq<nat> {
    if s == [] then [] else if s[0] == x then s[1..] else [s[0]] + Without(s[1..], x)
  }

  lemma {:induction false} WithoutAt(s: seq<nat>, k: nat)
    requires Distinct(s) && k < |s|
    ensures Without(s, s[k]) == s[..k] + s[k + 1..]
  {
    if k > 0 {
      assert s[0] != s[k];
      WithoutAt(s[1..], k - 1);
      assert [s[0]] + (s[1..][..k - 1] + s[1..][k..]) == s[..k] + s[k + 1..];
    }
  }

  lemma {:induction false} CutDistinct(s: seq<nat>, k: nat)
    requires Distinct(s) && k < |s|
    ensures Distinct(s[..k] + s[k + 1..]) && forall y :: y in s[..k] + s[k + 1..] <==> y in s && y != s[k]
  {
    var t := s[..k] + s[k + 1..];
    forall i | 0 <= i < |t| ensures t[i] == if i < k then s[i] else s[i + 1] {
    }
    forall y | y in s && y != s[k] ensures y in t {
      var i :| 0 <= i < |s| && s[i] == y;
      assert t[if i < k then i else i - 1] == y;
    }
  }

  lemma {:induction false} WithoutDistinct(s: seq<nat>, k: nat)
    requires Distinct(s) && k < |s|
    ensures Distinct(Without(s, s[k])) && forall y :: y in Without(s, s[k]) <==> y in s && y != s[k]
  {
    hide Distinct, Without;
    WithoutAt(s, k);
    CutDistinct(s, k);
  }

  // ----- counting -----

  ghost function SetOf(s: seq<nat>): set<nat> {
    set y | y in s
  }

  ghost function UpTo(n: nat): set<nat> {
    if n == 0 then {} else UpTo(n - 1) + {n - 1}
  }

  lemma {:induction false} SubsetSize(a: set<nat>, b: set<nat>)
    requires a <= b
    ensures |a| <= |b|
  {
    if a != {} {
      var x :| x in a;
      SubsetSize(a - {x}, b - {x});
    }
  }

  lemma {:induction false} UpToSize(n: nat)
    ensures |UpTo(n)| == n && forall y: nat :: y in UpTo(n) <==> y < n
  {
    if n > 0 {
      UpToSize(n - 1);
    }
  }

  lemma {:induction false} SetOfSize(s: seq<nat>)
    requires Distinct(s)
    ensures |SetOf(s)| == |s|
  {
    if s != [] {
      var t := s[..|s| - 1];
      SetOfSize(t);
      assert s == t + [s[|s| - 1]] && s[|s| - 1] !in t;
      assert SetOf(s) == SetOf(t) + {s[|s| - 1]};
    }
  }

  lemma {:induction false} CountBelow(s: seq<nat>, n: nat)
    requires Distinct(s) && forall x :: x in s ==> x < n
    ensures |s| <= n
  {
    SetOfSize(s);
    UpToSize(n);
    SubsetSize(SetOf(s), UpTo(n));
  }

  /** Distinct numbers below n, as many as there are, are all of them. */
  lemma {:induction false} Pigeons(s: seq<nat>, n: nat, x: nat)
    requires Distinct(s) && |s| == n && (forall y :: y in s ==> y < n) && x < n
    ensures x in s
  {
    UpToSize(n);
    SetOfSize(s);
    if x !in s {
      SubsetSize(SetOf(s), UpTo(n) - {x});
    }
  }
}
