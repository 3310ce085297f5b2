// Option and the few facts about sequences without repetition that several
// components share.
module Wrappers {
  datatype Option<+T> = None | Some(value: T)

  ghost predicate NoDup<T>(s: seq<T>) {
    forall i, j :: 0 <= i < j < |s| ==> s[i] != s[j]
  }

  lemma NoDupAdd<T>(s: seq<T>, x: T)
    requires NoDup(s) && x !in s
    ensures NoDup(s + [x])
  {
  }

  lemma NoDupConcat<T>(a: seq<T>, b: seq<T>)
    requires NoDup(a) && NoDup(b) && forall i, j :: 0 <= i < |a| && 0 <= j < |b| ==> a[i] != b[j]
    ensures NoDup(a + b)
  {
  }

  lemma NoDupTail<T>(s: seq<T>)
    requires NoDup(s) && s != []
    ensures NoDup(s[1..]) && s[0] !in s[1..]
  {
  }

  // The set of elements of a sequence.
  ghost function Elements<T>(s: seq<T>): set<T> {
    set x | x in s
  }

  lemma HeadIsIn(s: seq<nat>)
    ensures s != [] ==> s[0] in s
  {
  }

  // A list without repetition of numbers below n has at most n elements, and
  // exactly n when it holds them all.
  lemma {:induction false} NoDupLength(s: seq<nat>, n: nat)
    requires NoDup(s) && forall x :: x in s ==> x < n
    ensures |s| <= n
    ensures (forall x: nat :: x < n ==> x in s) <==> |s| == n
  {
    if n == 0 {
      HeadIsIn(s);
    } else if n - 1 in s {
      var k :| 0 <= k < |s| && s[k] == n - 1;
      var rest := s[..k] + s[k + 1..];
      assert forall x :: x in rest <==> x in s && x != n - 1;
      NoDupLength(rest, n - 1);
    } else {
      NoDupLength(s, n - 1);
    }
  }

  // The ids 0..n-1.
  function UpTo(n: nat): (r: set<nat>)
    ensures forall x: nat :: x in r <==> x < n
  {
    if n == 0 then {} else UpTo(n - 1) + {n - 1}
  }

  lemma {:induction false} ProductOrder(a: int, b: int, d: nat)
    requires a <= b
    ensures a * d <= b * d
    decreases b - a
  {
    if a < b {
      ProductOrder(a, b - 1, d);
      assert b * d == (b - 1) * d + d;
    }
  }

  lemma NextMultiple(p: int, q: int, d: nat)
    requires p < q
    ensures p * d + d <= q * d
  {
    ProductOrder(p + 1, q, d);
    assert (p + 1) * d == p * d + d;
  }

  // Quotient and remainder are determined by the interval a number lies in.
  lemma DivideIs(x: int, d: nat, q: int)
    requires d > 0 && q * d <= x < q * d + d
    ensures x / d == q && x % d == x - q * d
  {
    var p := x / d;
    assert x == p * d + x % d;
    if p < q { NextMultiple(p, q, d); }
    if q < p { NextMultiple(q, p, d); }
  }
}
