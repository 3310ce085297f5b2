// Boards, the conflict test of the N-queens benchmark, and the number of
// placements it accepts.
module NQueensBoard {
  import opened Wrappers

  // board[i] is the column of the queen in row i.
  type Board = seq<nat>

  // Queens p and q, d rows apart.
  predicate Attacks(p: nat, q: nat, d: nat) {
    q == p || q + d == p || q == p + d
  }

  predicate Ok(b: Board) {
    forall i, j :: 0 <= i < j < |b| ==> !Attacks(b[i], b[j], j - i)
  }

  predicate Fits(b: Board, n: nat) {
    forall i :: 0 <= i < |b| ==> b[i] < n
  }

  // The number of accepted placements of n queens that begin with p: every one of
  // the n^(n-|p|) completions is looked at, and the test is applied at the end.
  function Count(n: nat, p: Board): nat
    requires |p| <= n
    decreases n - |p|, n + 1
  {
    if |p| == n then (if Ok(p) then 1 else 0) else CountFrom(n, p, 0)
  }

  // ... whose next queen is in column c or further right.
  function CountFrom(n: nat, p: Board, c: nat): nat
    requires |p| < n && c <= n
    decreases n - |p|, n - c
  {
    if c == n then 0 else Count(n, p + [c]) + CountFrom(n, p, c + 1)
  }

  /* ----- Count is the size of the set of placements ----- */

  ghost function Boards(n: nat, p: Board): set<Board>
    requires |p| <= n
    decreases n - |p|, n + 1
  {
    if |p| == n then {p} else BoardsFrom(n, p, 0)
  }

  ghost function BoardsFrom(n: nat, p: Board, c: nat): set<Board>
    requires |p| < n && c <= n
    decreases n - |p|, n - c
  {
    if c == n then {} else Boards(n, p + [c]) + BoardsFrom(n, p, c + 1)
  }

  lemma {:induction false} BoardsAre(n: nat, p: Board, b: Board)
    requires |p| <= n && Fits(p, n)
    ensures b in Boards(n, p) <==> |b| == n && p <= b && Fits(b, n)
    decreases n - |p|, n + 1
  {
    if |p| < n {
      BoardsFromAre(n, p, 0, b);
    } else {
      assert p <= b && |b| == n ==> b == p;
    }
  }

  lemma {:induction false} BoardsFromAre(n: nat, p: Board, c: nat, b: Board)
    requires |p| < n && c <= n && Fits(p, n)
    ensures b in BoardsFrom(n, p, c) <==> |b| == n && p <= b && Fits(b, n) && c <= b[|p|]
    decreases n - |p|, n - c
  {
    if c < n {
      BoardsAre(n, p + [c], b);
      BoardsFromAre(n, p, c + 1, b);
      assert |b| == n ==> (p + [c] <= b <==> p <= b && b[|p|] == c);
    }
  }

  // Placements accepted by the test, as a set.
  ghost function Placements(n: nat): set<Board> {
    set b | b in Boards(n, []) && Ok(b)
  }

  lemma {:induction false} CountIsCardinality(n: nat, p: Board)
    requires |p| <= n && Fits(p, n)
    ensures Count(n, p) == |set b | b in Boards(n, p) && Ok(b)|
    decreases n - |p|, n + 1
  {
    var s := set b | b in Boards(n, p) && Ok(b);
    if |p| < n {
      CountFromIsCardinality(n, p, 0);
      assert s == set b | b in BoardsFrom(n, p, 0) && Ok(b);
    } else {
      assert s == if Ok(p) then {p} else {};
    }
  }

  lemma {:induction false} CountFromIsCardinality(n: nat, p: Board, c: nat)
    requires |p| < n && c <= n && Fits(p, n)
    ensures CountFrom(n, p, c) == |set b | b in BoardsFrom(n, p, c) && Ok(b)|
    decreases n - |p|, n - c
  {
    var s := set b | b in BoardsFrom(n, p, c) && Ok(b);
    if c < n {
      CountIsCardinality(n, p + [c]);
      CountFromIsCardinality(n, p, c + 1);
      var here := set b | b in Boards(n, p + [c]) && Ok(b);
      var later := set b | b in BoardsFrom(n, p, c + 1) && Ok(b);
      forall b | b in here && b in later ensures false {
        BoardsAre(n, p + [c], b);
        BoardsFromAre(n, p, c + 1, b);
      }
      assert here !! later;
      assert s == here + later;
    } else {
      assert s == {};
    }
  }

  // For the empty prefix: the number of boards of n queens in n columns that the
  // test accepts.
  lemma CountIsPlacements(n: nat)
    ensures Count(n, []) == |Placements(n)|
    ensures forall b :: b in Placements(n) <==> |b| == n && Fits(b, n) && Ok(b)
  {
    CountIsCardinality(n, []);
    forall b
      ensures b in Placements(n) <==> |b| == n && Fits(b, n) && Ok(b)
    {
      BoardsAre(n, [], b);
    }
  }

  /* ----- pruning at a conflict ----- */

  lemma OkExtend(p: Board, c: nat)
    ensures Ok(p + [c]) <==> Ok(p) && forall i :: 0 <= i < |p| ==> !Attacks(p[i], c, |p| - i)
  {
    var q := p + [c];
    if Ok(q) {
      forall i, j | 0 <= i < j < |p| ensures !Attacks(p[i], p[j], j - i) {
        assert !Attacks(q[i], q[j], j - i);
      }
      forall i | 0 <= i < |p| ensures !Attacks(p[i], c, |p| - i) {
        assert !Attacks(q[i], q[|p|], |p| - i);
      }
    }
  }

  lemma UsedConflicts(p: Board, c: nat)
    ensures c in p ==> !Ok(p + [c])
  {
    if c in p {
      var i :| 0 <= i < |p| && p[i] == c;
      assert Attacks((p + [c])[i], (p + [c])[|p|], |p| - i);
    }
  }

  lemma {:induction false} ConflictCountsNothing(n: nat, p: Board)
    requires |p| <= n && !Ok(p)
    ensures Count(n, p) == 0
    decreases n - |p|, n + 1
  {
    if |p| < n { ConflictCountsNothingFrom(n, p, 0); }
  }

  lemma {:induction false} ConflictCountsNothingFrom(n: nat, p: Board, c: nat)
    requires |p| < n && c <= n && !Ok(p)
    ensures CountFrom(n, p, c) == 0
    decreases n - |p|, n - c
  {
    if c < n {
      OkExtend(p, c);
      ConflictCountsNothing(n, p + [c]);
      ConflictCountsNothingFrom(n, p, c + 1);
    }
  }

  // Columns that conflict contribute nothing, so the count may skip to the next
  // free one.
  lemma {:induction false} SkipConflicts(n: nat, p: Board, c: nat, d: nat)
    requires |p| < n && c <= d <= n
    requires forall x :: c <= x < d ==> !Ok(p + [x])
    ensures CountFrom(n, p, c) == CountFrom(n, p, d)
    decreases d - c
  {
    if c < d {
      ConflictCountsNothing(n, p + [c]);
      SkipConflicts(n, p, c + 1, d);
    }
  }

  /* ----- the count fits the machine word ----- */

  function Factorial(k: nat): (r: nat)
    ensures r >= 1
  {
    if k == 0 then 1 else k * Factorial(k - 1)
  }

  // Columns from c on that hold no queen yet.
  function Unused(p: Board, c: nat, n: nat): nat
    requires c <= n
    decreases n - c
  {
    if c == n then 0 else (if c in p then 0 else 1) + Unused(p, c + 1, n)
  }

  lemma {:induction false} UnusedAdd(p: Board, x: nat, c: nat, n: nat)
    requires c <= n && x < n && x !in p
    ensures Unused(p, c, n) == Unused(p + [x], c, n) + (if c <= x then 1 else 0)
    decreases n - c
  {
    if c < n {
      UnusedAdd(p, x, c + 1, n);
      assert c in p + [x] <==> c in p || c == x;
    }
  }

  lemma {:induction false} UnusedNone(c: nat, n: nat)
    requires c <= n
    ensures Unused([], c, n) == n - c
    decreases n - c
  {
    if c < n { UnusedNone(c + 1, n); }
  }

  lemma {:induction false} UnusedTotal(p: Board, n: nat)
    requires Ok(p) && Fits(p, n)
    ensures Unused(p, 0, n) + |p| == n
  {
    if p == [] {
      UnusedNone(0, n);
    } else {
      var q, x := p[..|p| - 1], p[|p| - 1];
      assert p == q + [x];
      OkExtend(q, x);
      UsedConflicts(q, x);
      UnusedTotal(q, n);
      UnusedAdd(q, x, 0, n);
    }
  }

  lemma Distribute(a: nat, f: nat)
    ensures (1 + a) * f == f + a * f
  {
  }

  lemma {:induction false} CountBound(n: nat, p: Board)
    requires |p| <= n && Fits(p, n)
    ensures Count(n, p) <= Factorial(n - |p|)
    decreases n - |p|, n + 1
  {
    if !Ok(p) {
      ConflictCountsNothing(n, p);
    } else if |p| < n {
      CountFromBound(n, p, 0);
      UnusedTotal(p, n);
    }
  }

  lemma {:induction false} CountFromBound(n: nat, p: Board, c: nat)
    requires |p| < n && c <= n && Fits(p, n)
    ensures CountFrom(n, p, c) <= Unused(p, c, n) * Factorial(n - |p| - 1)
    decreases n - |p|, n - c
  {
    if c < n {
      hide Factorial;
      var f := Factorial(n - |p| - 1);
      CountFromBound(n, p, c + 1);
      if c in p {
        UsedConflicts(p, c);
        ConflictCountsNothing(n, p + [c]);
      } else {
        CountBound(n, p + [c]);
        Distribute(Unused(p, c + 1, n), f);
      }
    }
  }

  // No count up to board size 20 overflows a 64-bit counter.
  lemma CountFitsWord(n: nat)
    requires n <= 20
    ensures Count(n, []) <= 2432902008176640000
  {
    CountBound(n, []);
    FactorialMonotone(n, 20);
    assert Factorial(5) == 120;
    assert Factorial(10) == 3628800;
    assert Factorial(15) == 1307674368000;
    assert Factorial(20) == 2432902008176640000;
  }

  lemma {:induction false} FactorialMonotone(a: nat, b: nat)
    requires a <= b
    ensures Factorial(a) <= Factorial(b)
  {
    if a < b {
      FactorialMonotone(a, b - 1);
      assert Factorial(b) >= Factorial(b - 1) by { MulAtLeast(b, Factorial(b - 1)); }
    }
  }

  lemma MulAtLeast(a: nat, b: nat)
    requires a >= 1
    ensures a * b >= b
  {
  }
}
