/** Facts about sequences that several of the models need. */
module Sequences {

  ghost predicate Distinct<T>(s: seq<T>) { forall i, j :: 0 <= i < j < |s| ==> s[i] != s[j] }

  function Is<T(==)>(x: T): T -> bool { (y: T) => y == x }

  function CountIf<T>(s: seq<T>, p: T -> bool): nat {
    if s == [] then 0 else (if p(s[0]) then 1 else 0) + CountIf(s[1..], p)
  }

  lemma {:induction false} CountConcat<T>(a: seq<T>, b: seq<T>, p: T -> bool)
    ensures CountIf(a + b, p) == CountIf(a, p) + CountIf(b, p)
  {
    if a == [] {
      assert a + b == b;
    } else {
      assert (a + b)[1..] == a[1..] + b;
      CountConcat(a[1..], b, p);
    }
  }

  lemma CountSnoc<T>(a: seq<T>, x: T, p: T -> bool)
    ensures CountIf(a + [x], p) == CountIf(a, p) + (if p(x) then 1 else 0)
  {
    CountConcat(a, [x], p);
  }

  lemma {:induction false} CountUpdate<T>(s: seq<T>, i: nat, x: T, p: T -> bool)
    requires i < |s|
    ensures CountIf(s[i := x], p) + (if p(s[i]) then 1 else 0) == CountIf(s, p) + (if p(x) then 1 else 0)
  {
    if i == 0 {
      assert s[0 := x][1..] == s[1..];
    } else {
      assert s[i := x][1..] == s[1..][i - 1 := x];
      CountUpdate(s[1..], i - 1, x, p);
    }
  }

  lemma {:induction false} CountPositive<T>(s: seq<T>, i: nat, p: T -> bool)
    requires i < |s| && p(s[i])
    ensures CountIf(s, p) > 0
  {
    if i > 0 { CountPositive(s[1..], i - 1, p); }
  }

  lemma {:induction false} CountWitness<T>(s: seq<T>, p: T -> bool) returns (i: nat)
    requires CountIf(s, p) > 0
    ensures i < |s| && p(s[i])
  {
    if p(s[0]) { i := 0; } else { i := CountWitness(s[1..], p); i := i + 1; }
  }

  lemma CountMember<T>(q: seq<T>, x: T)
    requires x in q
    ensures CountIf(q, Is(x)) > 0
  {
    var i :| 0 <= i < |q| && q[i] == x;
    CountPositive(q, i, Is(x));
  }
}
