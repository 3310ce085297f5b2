// The bit-mask search of the N-queens benchmark and its prefix enumeration.
module NQueens {
  import opened Wrappers
  import opened Words
  import opened NQueensBoard

  /* ----- the three masks ----- */

  // A queen of p attacks column c of the next row along a diagonal.
  ghost predicate OnMinor(p: Board, c: nat) {
    exists i :: 0 <= i < |p| && p[i] == c + (|p| - i)
  }

  ghost predicate OnMajor(p: Board, c: nat) {
    exists i :: 0 <= i < |p| && p[i] + (|p| - i) == c
  }

  // The masks hold the columns attacked in the next row; what the major diagonals
  // push beyond bit 63 is lost.
  ghost predicate Represents(p: Board, minDiag: Word, majDiag: Word, vertical: Word) {
    && (forall c: nat :: Bit(vertical, c) <==> c in p)
    && (forall c: nat :: Bit(minDiag, c) <==> OnMinor(p, c))
    && (forall c: nat :: c < 64 ==> (Bit(majDiag, c) <==> OnMajor(p, c)))
  }

  lemma EmptyBoardMasks()
    ensures Represents([], 0, 0, 0)
  {
    forall c: nat ensures !Bit(0, c) { BitZero(c); }
  }

  lemma MinorStep(p: Board, x: nat, c: nat)
    ensures OnMinor(p + [x], c) <==> x == c + 1 || OnMinor(p, c + 1)
  {
    var q := p + [x];
    if x == c + 1 { assert q[|p|] == c + (|q| - |p|); }
    if OnMinor(p, c + 1) {
      var i :| 0 <= i < |p| && p[i] == c + 1 + (|p| - i);
      assert q[i] == c + (|q| - i);
    }
    if OnMinor(q, c) {
      var i :| 0 <= i < |q| && q[i] == c + (|q| - i);
      assert i < |p| ==> p[i] == c + 1 + (|p| - i);
    }
  }

  lemma MajorStep(p: Board, x: nat, c: nat)
    ensures OnMajor(p + [x], c) <==> c > 0 && (x == c - 1 || OnMajor(p, c - 1))
  {
    var q := p + [x];
    if c > 0 && x == c - 1 { assert q[|p|] + (|q| - |p|) == c; }
    if c > 0 && OnMajor(p, c - 1) {
      var i :| 0 <= i < |p| && p[i] + (|p| - i) == c - 1;
      assert q[i] + (|q| - i) == c;
    }
    if OnMajor(q, c) {
      var i :| 0 <= i < |q| && q[i] + (|q| - i) == c;
      assert i < |p| ==> p[i] + (|p| - i) == c - 1;
    }
  }

  // Placing a queen in column x and moving to the next row.
  lemma PlaceQueen(p: Board, x: nat, minDiag: Word, majDiag: Word, vertical: Word)
    requires Represents(p, minDiag, majDiag, vertical) && x < 64
    ensures var bit := WordBit(x);
            Represents(p + [x], ShiftRight(WordOr(bit, minDiag)), ShiftLeft(WordOr(bit, majDiag)),
                       WordOr(bit, vertical))
  {
    hide Bit, Or, Pow2, OnMinor, OnMajor;
    var bit := WordBit(x);
    forall c: nat
      ensures Bit(WordOr(bit, vertical), c) <==> c in p + [x]
      ensures Bit(ShiftRight(WordOr(bit, minDiag)), c) <==> OnMinor(p + [x], c)
    {
      BitOr(bit, vertical, c);
      BitOfPow2(x, c);
      MinorStep(p, x, c);
      BitShifts(WordOr(bit, minDiag), c);
      BitOr(bit, minDiag, c + 1);
      BitOfPow2(x, c + 1);
    }
    forall c: nat | c < 64
      ensures Bit(ShiftLeft(WordOr(bit, majDiag)), c) <==> OnMajor(p + [x], c)
    {
      MajorStep(p, x, c);
      BitShifts(WordOr(bit, majDiag), c);
      if c > 0 {
        BitOr(bit, majDiag, c - 1);
        BitOfPow2(x, c - 1);
      }
    }
  }

  lemma AttackedColumns(p: Board, c: nat)
    requires Ok(p)
    ensures Ok(p + [c]) <==> c !in p && !OnMinor(p, c) && !OnMajor(p, c)
  {
    OkExtend(p, c);
    if c in p { UsedConflicts(p, c); }
    if OnMinor(p, c) {
      var i :| 0 <= i < |p| && p[i] == c + (|p| - i);
      assert Attacks(p[i], c, |p| - i);
    }
    if OnMajor(p, c) {
      var i :| 0 <= i < |p| && p[i] + (|p| - i) == c;
      assert Attacks(p[i], c, |p| - i);
    }
  }

  // The bitmap holds exactly the columns where the next queen is accepted.
  lemma FreeColumns(n: nat, p: Board, minDiag: Word, majDiag: Word, vertical: Word, c: nat)
    requires n < 64 && Ok(p) && Represents(p, minDiag, majDiag, vertical)
    ensures Bit(WordAnd(WordBit(n) - 1, Complement(WordOr(WordOr(minDiag, majDiag), vertical))), c) <==>
            c < n && Ok(p + [c])
  {
    hide Bit, Or, And, Pow2, OnMinor, OnMajor, Ok;
    BitFree(WordBit(n) - 1, WordOr(WordOr(minDiag, majDiag), vertical), c);
    BitOr(WordOr(minDiag, majDiag), vertical, c);
    BitOr(minDiag, majDiag, c);
    BitOfPow2(n, c);
    AttackedColumns(p, c);
  }

  lemma OkIsNoDup(p: Board)
    requires Ok(p)
    ensures NoDup(p)
  {
    forall i, j | 0 <= i < j < |p| ensures p[i] != p[j] { assert !Attacks(p[i], p[j], j - i); }
  }

  // All columns are taken exactly when all queens are placed.
  lemma AllColumnsTaken(n: nat, p: Board, minDiag: Word, majDiag: Word, vertical: Word)
    requires n < 64 && Ok(p) && Fits(p, n) && Represents(p, minDiag, majDiag, vertical)
    ensures vertical == WordBit(n) - 1 <==> |p| == n
  {
    hide Bit, Pow2, OnMinor, OnMajor;
    OkIsNoDup(p);
    assert forall x :: x in p ==> x < n;
    NoDupLength(p, n);
    var mask := WordBit(n) - 1;
    forall c: nat ensures Bit(mask, c) <==> c < n { BitOfPow2(n, c); }
    if forall c: nat :: Bit(vertical, c) <==> Bit(mask, c) {
      SameBits(vertical, mask);
    }
  }

  /* ----- the search ----- */

  // nqueens_serial_template: adds the number of accepted completions of p to res.
  method SerialTemplate(n: nat, res: nat, minDiag: Word, majDiag: Word, vertical: Word, ghost p: Board)
    returns (res': nat)
    requires n < 64 && |p| <= n && Ok(p) && Fits(p, n)
    requires Represents(p, minDiag, majDiag, vertical)
    ensures res' == res + Count(n, p)
    decreases n - |p|
  {
    hide Bit, Or, And, Xor, Pow2, Represents, Ok;
    AllColumnsTaken(n, p, minDiag, majDiag, vertical);
    var mask := WordBit(n) - 1;
    if vertical == mask {
      return res + 1;
    }
    var bitmap := WordAnd(mask, Complement(WordOr(WordOr(minDiag, majDiag), vertical)));
    forall j: nat ensures Bit(bitmap, j) <==> j < n && Ok(p + [j]) {
      FreeColumns(n, p, minDiag, majDiag, vertical, j);
    }
    res' := res;
    ghost var c := 0;
    while bitmap != 0
      invariant c <= n
      invariant forall j: nat :: Bit(bitmap, j) <==> c <= j < n && Ok(p + [j])
      invariant res' + CountFrom(n, p, c) == res + Count(n, p)
      decreases n - c
    {
      var bit := LowestWord(bitmap);
      ghost var i := LowestBit(bitmap);
      bitmap := WordXor(bitmap, bit);
      SkipConflicts(n, p, c, i);
      PlaceQueen(p, i, minDiag, majDiag, vertical);
      res' := SerialTemplate(n, res', ShiftRight(WordOr(bit, minDiag)), ShiftLeft(WordOr(bit, majDiag)),
                             WordOr(bit, vertical), p + [i]);
      c := i + 1;
    }
    forall j: nat ensures !Bit(bitmap, j) { BitZero(j); }
    SkipConflicts(n, p, c, n);
  }

  // nqueens_serial_dispatch: the instantiation chain counts down from `nConst`.
  method SerialDispatch(nConst: nat, n: nat, minDiag: Word, majDiag: Word, vertical: Word, ghost p: Board)
    returns (r: nat)
    requires nConst < 64 && |p| <= n && Ok(p) && Fits(p, n)
    requires Represents(p, minDiag, majDiag, vertical)
    ensures r == if 1 <= n <= nConst then Count(n, p) else 0
  {
    if nConst == 0 {
      return 0;
    }
    if nConst == n {
      r := SerialTemplate(nConst, 0, minDiag, majDiag, vertical, p);
    } else {
      r := SerialDispatch(nConst - 1, n, minDiag, majDiag, vertical, p);
    }
  }

  const MAX_SIZE := 20

  // The sizes that are instantiated.
  predicate Covered(n: nat) {
    1 <= n <= MAX_SIZE
  }

  // What the instantiated search computes: board sizes outside 1..20 give 0.
  function Counted(n: nat, p: Board): nat
    requires |p| <= n
  {
    if Covered(n) then Count(n, p) else 0
  }

  /* ----- boards of the other sizes ----- */

  // The odd columns, then the even ones.
  function EvenColumn(m: nat, i: nat): nat {
    if i < m then 2 * i + 1 else 2 * (i - m)
  }

  function EvenBoard(m: nat): Board {
    seq(2 * m, i requires 0 <= i < 2 * m => EvenColumn(m, i))
  }

  // The same with the first two and the last of the even columns rearranged.
  function SwappedColumn(m: nat, i: nat): nat {
    if i < m then 2 * i + 1
    else if i == m then 2
    else if i == m + 1 then 0
    else if i == 2 * m - 1 then 4
    else 2 * (i - m) + 2
  }

  function SwappedBoard(m: nat): Board {
    seq(2 * m, i requires 0 <= i < 2 * m => SwappedColumn(m, i))
  }

  // Odd columns from 3, then 1, then even columns from 4, then 0 and 2.
  function ShiftedColumn(m: nat, i: nat): nat {
    if i + 1 < m then 2 * i + 3
    else if i + 1 == m then 1
    else if i == 2 * m - 1 then 0
    else if i == 2 * m then 2
    else 2 * (i + 2) - 2 * m
  }

  function ShiftedBoard(m: nat): Board {
    seq(2 * m + 1, i requires 0 <= i < 2 * m + 1 => ShiftedColumn(m, i))
  }

  lemma EvenColumns(m: nat, k: nat, i: nat, j: nat)
    requires (m == 3 * k || m == 3 * k + 2) && i < j < 2 * m
    ensures !Attacks(EvenColumn(m, i), EvenColumn(m, j), j - i)
  {
  }

  lemma EvenBoardIsAccepted(m: nat)
    requires m % 3 != 1
    ensures |EvenBoard(m)| == 2 * m && Fits(EvenBoard(m), 2 * m) && Ok(EvenBoard(m))
  {
    var b := EvenBoard(m);
    forall i, j | 0 <= i < j < 2 * m ensures !Attacks(b[i], b[j], j - i) {
      EvenColumns(m, m / 3, i, j);
    }
  }

  // A queen in the new corner attacks none of the others.
  lemma CornerColumns(m: nat, i: nat)
    requires i < 2 * m
    ensures !Attacks(EvenColumn(m, i), 2 * m, 2 * m - i)
  {
  }

  lemma CornerIsAccepted(m: nat)
    requires m % 3 != 1
    ensures var b := EvenBoard(m) + [2 * m]; |b| == 2 * m + 1 && Fits(b, 2 * m + 1) && Ok(b)
  {
    EvenBoardIsAccepted(m);
    var b := EvenBoard(m) + [2 * m];
    forall i, j | 0 <= i < j < 2 * m + 1 ensures !Attacks(b[i], b[j], j - i) {
      CornerColumns(m, if i < 2 * m then i else 0);
      if j < 2 * m { assert b[i] == EvenBoard(m)[i] && b[j] == EvenBoard(m)[j]; }
    }
  }

  lemma SwappedColumns(m: nat, k: nat, i: nat, j: nat)
    requires m == 3 * k + 1 && k > 0 && i < j < 2 * m
    ensures !Attacks(SwappedColumn(m, i), SwappedColumn(m, j), j - i)
  {
  }

  lemma SwappedBoardIsAccepted(m: nat)
    requires m >= 4 && m % 3 == 1
    ensures var b := SwappedBoard(m); |b| == 2 * m && Fits(b, 2 * m) && Ok(b)
  {
    var b := SwappedBoard(m);
    forall i, j | 0 <= i < j < 2 * m ensures !Attacks(b[i], b[j], j - i) {
      SwappedColumns(m, m / 3, i, j);
    }
  }

  lemma ShiftedColumns(m: nat, k: nat, i: nat, j: nat)
    requires m == 3 * k + 1 && k > 0 && i < j < 2 * m + 1
    ensures !Attacks(ShiftedColumn(m, i), ShiftedColumn(m, j), j - i)
  {
  }

  lemma ShiftedBoardIsAccepted(m: nat)
    requires m >= 4 && m % 3 == 1
    ensures var b := ShiftedBoard(m); |b| == 2 * m + 1 && Fits(b, 2 * m + 1) && Ok(b)
  {
    var b := ShiftedBoard(m);
    forall i, j | 0 <= i < j < 2 * m + 1 ensures !Attacks(b[i], b[j], j - i) {
      ShiftedColumns(m, m / 3, i, j);
    }
  }

  lemma BoardIsPlacement(n: nat, b: Board)
    requires |b| == n && Fits(b, n) && Ok(b)
    ensures Placements(n) != {}
  {
    CountIsPlacements(n);
    assert b in Placements(n);
  }

  // Every size but 2 and 3 has an accepted board.
  lemma BoardExists(n: nat)
    requires n == 0 || n == 1 || n >= 4
    ensures Placements(n) != {}
  {
    hide Ok, Fits, EvenBoard, SwappedBoard, ShiftedBoard, Placements;
    var m := n / 2;
    if m % 3 != 1 && n == 2 * m {
      EvenBoardIsAccepted(m);
      BoardIsPlacement(n, EvenBoard(m));
    } else if m % 3 != 1 {
      CornerIsAccepted(m);
      BoardIsPlacement(n, EvenBoard(m) + [2 * m]);
    } else if n == 2 * m {
      SwappedBoardIsAccepted(m);
      BoardIsPlacement(n, SwappedBoard(m));
    } else {
      ShiftedBoardIsAccepted(m);
      BoardIsPlacement(n, ShiftedBoard(m));
    }
  }

  // The search gives the number of accepted boards exactly for the covered sizes.
  lemma CountedExactly(n: nat)
    ensures Counted(n, []) == |Placements(n)| <==> 1 <= n <= 20
  {
    CountIsPlacements(n);
    if !Covered(n) { BoardExists(n); }
  }

  /* ----- the serial search ----- */

  // nqueens_serial; the size is an unsigned char.
  method Serial(n: nat, minDiag: Word, majDiag: Word, vertical: Word, ghost p: Board) returns (r: nat)
    requires n < 256 && |p| <= n && Ok(p) && Fits(p, n) && Represents(p, minDiag, majDiag, vertical)
    ensures r == Counted(n, p)
  {
    r := SerialDispatch(MAX_SIZE, n, minDiag, majDiag, vertical, p);
  }

  // nqueens (serial): the size is cut to an unsigned char on the way in, and the count
  // to an unsigned int on the way out.
  method SerialDriver(size: nat) returns (r: nat)
    requires size < UINT
    ensures r == Counted(size % 256, []) % 0x1_0000_0000
    ensures r == |Placements(size % 256)| <==> 1 <= size % 256 <= 20 && |Placements(size % 256)| < 0x1_0000_0000
  {
    var n := size % 256;
    hide Placements, Counted;
    EmptyBoardMasks();
    CountedExactly(n);
    UncoveredIsZero(n);
    var res := Serial(n, 0, 0, 0, []);
    r := res % UINT;
  }

  lemma UncoveredIsZero(n: nat)
    ensures !Covered(n) ==> Counted(n, []) == 0
  {
  }

  // nqueens_serial_prefix
  method SerialPrefix(n: nat, prefix: Board) returns (r: nat)
    requires n <= 64 && |prefix| <= n && Ok(prefix) && Fits(prefix, n)
    ensures r == Counted(n, prefix)
  {
    hide Bit, Or, Pow2, Represents, Ok;
    var minDiag: Word, majDiag: Word, vertical: Word := 0, 0, 0;
    EmptyBoardMasks();
    assert prefix[..0] == [];
    for i := 0 to |prefix|
      invariant Represents(prefix[..i], minDiag, majDiag, vertical)
    {
      var bit := WordBit(prefix[i]);
      PlaceQueen(prefix[..i], prefix[i], minDiag, majDiag, vertical);
      assert prefix[..i + 1] == prefix[..i] + [prefix[i]];
      minDiag := ShiftRight(WordOr(bit, minDiag));
      majDiag := ShiftLeft(WordOr(bit, majDiag));
      vertical := WordOr(bit, vertical);
    }
    assert prefix[..|prefix|] == prefix;
    r := Serial(n, minDiag, majDiag, vertical, prefix);
  }

  /* ----- the conflict test as written ----- */

  // unsigned int arithmetic wraps
  const UINT := 0x1_0000_0000

  lemma WrappedTest(p: nat, q: nat, d: nat)
    requires p < 256 && q < 256 && d < UINT - 256
    ensures q == p || q == (p - d) % 0x1_0000_0000 || q == (p + d) % 0x1_0000_0000 <==> Attacks(p, q, d)
  {
  }

  method CheckOk(n: nat, solution: seq<nat>) returns (r: bool)
    requires n <= |solution| && n <= UINT - 256 && forall i :: 0 <= i < |solution| ==> solution[i] < 256
    ensures r <==> Ok(solution[..n])
  {
    hide Attacks;
    ghost var b := solution[..n];
    for i := 0 to n
      invariant forall x, y :: 0 <= x < y < n && x < i ==> !Attacks(b[x], b[y], y - x)
    {
      var p := solution[i];
      for j := i + 1 to n
        invariant forall y :: i < y < j ==> !Attacks(b[i], b[y], y - i)
      {
        var q := solution[j];
        WrappedTest(p, q, j - i);
        if q == p || q == (p - (j - i)) % UINT || q == (p + (j - i)) % UINT {
          assert Attacks(b[i], b[j], j - i);
          return false;
        }
      }
    }
    return true;
  }

  /* ----- prefixes ----- */

  // The accepted extensions of p to length `end`, in lexicographic order.
  function PrefixList(n: nat, end: nat, p: Board): seq<Board>
    requires |p| <= end
    decreases end - |p|, n + 1
  {
    if |p| == end then [p] else PrefixListFrom(n, end, p, 0)
  }

  function PrefixListFrom(n: nat, end: nat, p: Board, c: nat): seq<Board>
    requires |p| < end && c <= n
    decreases end - |p|, n - c
  {
    if c == n then []
    else (if Ok(p + [c]) then PrefixList(n, end, p + [c]) else []) + PrefixListFrom(n, end, p, c + 1)
  }

  function Tail(b: Board, start: nat): Board {
    if start <= |b| then b[start..] else []
  }

  // The rows from `start` on, of all boards one after the other.
  function Flatten(boards: seq<Board>, start: nat): seq<nat> {
    if boards == [] then [] else Tail(boards[0], start) + Flatten(boards[1..], start)
  }

  lemma {:induction false} FlattenConcat(a: seq<Board>, b: seq<Board>, start: nat)
    ensures Flatten(a + b, start) == Flatten(a, start) + Flatten(b, start)
  {
    if a == [] {
      assert a + b == b;
    } else {
      assert (a + b)[1..] == a[1..] + b;
      FlattenConcat(a[1..], b, start);
    }
  }

  // Exactly the conflict-free prefixes of length `end`, each once.
  lemma {:induction false} PrefixListIs(n: nat, end: nat, p: Board, x: Board)
    requires |p| <= end && Ok(p) && Fits(p, n)
    ensures x in PrefixList(n, end, p) <==> Extends(n, end, p, x)
    ensures NoDup(PrefixList(n, end, p))
    decreases end - |p|, n + 1
  {
    if |p| == end {
      assert p <= x && |x| == end ==> x == p;
    } else {
      PrefixListFromIs(n, end, p, 0, x);
    }
  }

  lemma {:induction false} OkPrefix(x: Board, k: nat)
    requires k <= |x| && Ok(x)
    ensures Ok(x[..k])
  {
    forall i, j | 0 <= i < j < k ensures !Attacks(x[..k][i], x[..k][j], j - i) {
      assert !Attacks(x[i], x[j], j - i);
    }
  }

  // The boards that extend p to length `end`.
  predicate Extends(n: nat, end: nat, p: Board, x: Board) {
    |x| == end && p <= x && Fits(x, n) && Ok(x)
  }

  // The next queen is in column c or in a later one.
  lemma NextColumn(n: nat, end: nat, p: Board, c: nat, x: Board)
    requires |p| < end
    ensures Extends(n, end, p, x) && c <= x[|p|] <==>
            (Ok(p + [c]) && Extends(n, end, p + [c], x)) || (Extends(n, end, p, x) && c + 1 <= x[|p|])
  {
    hide Ok;
    if Extends(n, end, p, x) && x[|p|] == c {
      assert x[..|p| + 1] == p + [c];
      OkPrefix(x, |p| + 1);
    }
    if Extends(n, end, p + [c], x) { assert x[|p|] == (p + [c])[|p|]; }
  }

  lemma {:induction false} PrefixListFromIs(n: nat, end: nat, p: Board, c: nat, x: Board)
    requires |p| < end && c <= n && Ok(p) && Fits(p, n)
    ensures x in PrefixListFrom(n, end, p, c) <==> Extends(n, end, p, x) && c <= x[|p|]
    ensures NoDup(PrefixListFrom(n, end, p, c))
    decreases end - |p|, n - c
  {
    hide Ok, NoDup, Extends;
    NoBoards();
    if c == n {
      if Extends(n, end, p, x) { NoColumnLeft(n, end, p, x); }
    } else {
      var here := if Ok(p + [c]) then PrefixList(n, end, p + [c]) else [];
      var later := PrefixListFrom(n, end, p, c + 1);
      NextColumn(n, end, p, c, x);
      if Ok(p + [c]) { PrefixListIs(n, end, p + [c], x); }
      PrefixListFromIs(n, end, p, c + 1, x);
      forall i, j | 0 <= i < |here| && 0 <= j < |later| ensures here[i] != later[j] {
        PrefixListIs(n, end, p + [c], here[i]);
        PrefixListFromIs(n, end, p, c + 1, later[j]);
        assert here[i] in here && later[j] in later;
        ColumnIs(n, end, p, c, here[i]);
      }
      NoDupConcat(here, later);
      assert PrefixListFrom(n, end, p, c) == here + later;
    }
  }

  // In lexicographic order.
  ghost predicate Precedes(x: Board, y: Board) {
    exists k :: 0 <= k < |x| && k < |y| && x[..k] == y[..k] && x[k] < y[k]
  }

  ghost predicate Ascending(boards: seq<Board>) {
    forall i, j :: 0 <= i < j < |boards| ==> Precedes(boards[i], boards[j])
  }

  lemma {:induction false} PrefixListAscends(n: nat, end: nat, p: Board)
    requires |p| <= end && Ok(p) && Fits(p, n)
    ensures Ascending(PrefixList(n, end, p))
    decreases end - |p|, n + 1
  {
    if |p| < end { PrefixListFromAscends(n, end, p, 0); }
  }

  lemma {:induction false} PrefixListFromAscends(n: nat, end: nat, p: Board, c: nat)
    requires |p| < end && c <= n && Ok(p) && Fits(p, n)
    ensures Ascending(PrefixListFrom(n, end, p, c))
    decreases end - |p|, n - c
  {
    hide Ok, Extends, Precedes;
    if c < n {
      var here := if Ok(p + [c]) then PrefixList(n, end, p + [c]) else [];
      var later := PrefixListFrom(n, end, p, c + 1);
      if Ok(p + [c]) { PrefixListAscends(n, end, p + [c]); }
      PrefixListFromAscends(n, end, p, c + 1);
      forall i, j | 0 <= i < |here| && 0 <= j < |later| ensures Precedes(here[i], later[j]) {
        PrefixListIs(n, end, p + [c], here[i]);
        PrefixListFromIs(n, end, p, c + 1, later[j]);
        assert here[i] in here && later[j] in later;
        NextPrecedes(n, end, p, c, here[i], later[j]);
      }
      assert PrefixListFrom(n, end, p, c) == here + later;
    }
  }

  lemma NextPrecedes(n: nat, end: nat, p: Board, c: nat, x: Board, y: Board)
    requires |p| < end && Extends(n, end, p + [c], x) && Extends(n, end, p, y) && c + 1 <= y[|p|]
    ensures Precedes(x, y)
  {
    hide Ok, Fits;
    var k := |p|;
    ColumnIs(n, end, p, c, x);
    assert x[..k] == (p + [c])[..k] == p == y[..k];
  }

  lemma NoColumnLeft(n: nat, end: nat, p: Board, x: Board)
    requires |p| < end && Extends(n, end, p, x)
    ensures x[|p|] < n
  {
  }

  lemma ColumnIs(n: nat, end: nat, p: Board, c: nat, x: Board)
    requires |p| < end && Extends(n, end, p + [c], x)
    ensures |p| < |x| && x[|p|] == c
  {
    assert x[|p|] == (p + [c])[|p|];
  }

  lemma NoBoards()
    ensures NoDup<Board>([])
  {
  }

  function SumCounts(n: nat, boards: seq<Board>): nat
    requires forall b :: b in boards ==> |b| <= n
  {
    if boards == [] then 0 else Count(n, boards[0]) + SumCounts(n, boards[1..])
  }

  lemma {:induction false} SumCountsConcat(n: nat, a: seq<Board>, b: seq<Board>)
    requires forall x :: x in a + b ==> |x| <= n
    requires forall x :: x in a ==> |x| <= n
    requires forall x :: x in b ==> |x| <= n
    ensures SumCounts(n, a + b) == SumCounts(n, a) + SumCounts(n, b)
  {
    if a == [] {
      assert a + b == b;
    } else {
      assert (a + b)[1..] == a[1..] + b;
      SumCountsConcat(n, a[1..], b);
    }
  }

  lemma {:induction false} PrefixListLengths(n: nat, end: nat, p: Board)
    requires |p| <= end
    ensures forall x :: x in PrefixList(n, end, p) ==> |x| == end
    decreases end - |p|, n + 1
  {
    if |p| < end { PrefixListFromLengths(n, end, p, 0); }
  }

  lemma {:induction false} PrefixListFromLengths(n: nat, end: nat, p: Board, c: nat)
    requires |p| < end && c <= n
    ensures forall x :: x in PrefixListFrom(n, end, p, c) ==> |x| == end
    decreases end - |p|, n - c
  {
    if c < n {
      PrefixListLengths(n, end, p + [c]);
      PrefixListFromLengths(n, end, p, c + 1);
    }
  }

  // Main result on prefixes: the counts below the enumerated prefixes add up to
  // the count of the whole board.
  lemma {:induction false} PrefixesCoverCount(n: nat, end: nat, p: Board)
    requires |p| <= end <= n && Ok(p)
    ensures (forall x :: x in PrefixList(n, end, p) ==> |x| <= n) &&
            SumCounts(n, PrefixList(n, end, p)) == Count(n, p)
    decreases end - |p|, n + 1
  {
    PrefixListLengths(n, end, p);
    if |p| < end {
      PrefixesCoverCountFrom(n, end, p, 0);
    }
  }

  lemma {:induction false} PrefixesCoverCountFrom(n: nat, end: nat, p: Board, c: nat)
    requires |p| < end <= n && c <= n && Ok(p)
    ensures (forall x :: x in PrefixListFrom(n, end, p, c) ==> |x| <= n) &&
            SumCounts(n, PrefixListFrom(n, end, p, c)) == CountFrom(n, p, c)
    decreases end - |p|, n - c
  {
    PrefixListFromLengths(n, end, p, c);
    if c < n {
      PrefixesCoverCountFrom(n, end, p, c + 1);
      if Ok(p + [c]) {
        PrefixesCoverCount(n, end, p + [c]);
        SumCountsConcat(n, PrefixList(n, end, p + [c]), PrefixListFrom(n, end, p, c + 1));
      } else {
        ConflictCountsNothing(n, p + [c]);
        assert [] + PrefixListFrom(n, end, p, c + 1) == PrefixListFrom(n, end, p, c + 1);
      }
    }
  }

  // What the enumeration appends for p, and for the columns from c on.
  function Emitted(n: nat, end: nat, p: Board, start: nat): seq<nat>
    requires |p| <= end
  {
    Flatten(PrefixList(n, end, p), start)
  }

  function EmittedFrom(n: nat, end: nat, p: Board, c: nat, start: nat): seq<nat>
    requires |p| < end && c <= n
  {
    Flatten(PrefixListFrom(n, end, p, c), start)
  }

  lemma EmittedStep(n: nat, end: nat, p: Board, c: nat, start: nat)
    requires |p| < end && c < n
    ensures EmittedFrom(n, end, p, c, start) ==
            (if Ok(p + [c]) then Emitted(n, end, p + [c], start) else []) + EmittedFrom(n, end, p, c + 1, start)
  {
    hide Ok;
    if Ok(p + [c]) {
      FlattenConcat(PrefixList(n, end, p + [c]), PrefixListFrom(n, end, p, c + 1), start);
    } else {
      assert [] + PrefixListFrom(n, end, p, c + 1) == PrefixListFrom(n, end, p, c + 1);
    }
  }

  lemma EmittedEnds(n: nat, end: nat, p: Board, start: nat)
    requires start <= |p| <= end
    ensures |p| == end ==> Emitted(n, end, p, start) == p[start..]
    ensures |p| < end ==> Emitted(n, end, p, start) == EmittedFrom(n, end, p, 0, start)
    ensures |p| < end ==> EmittedFrom(n, end, p, n, start) == []
  {
    if |p| == end {
      assert PrefixList(n, end, p) == [p] && [p][1..] == [];
      assert Flatten([p], start) == Tail([p][0], start) + Flatten([p][1..], start);
    }
  }

  // nqueens_prefixes: depth first over the scratchpad, whose first j rows hold the
  // current conflict-free prefix; rows start..end of every prefix are appended.
  method Prefixes(start: nat, end: nat, j: nat, n: nat, scratchpad: array<nat>, prefixes: seq<nat>)
    returns (prefixes': seq<nat>)
    requires start <= j <= end <= scratchpad.Length && n <= 256 && end <= UINT - 256
    requires forall i :: 0 <= i < scratchpad.Length ==> scratchpad[i] < 256
    modifies scratchpad
    ensures scratchpad[..j] == old(scratchpad[..j])
    ensures forall i :: 0 <= i < scratchpad.Length ==> scratchpad[i] < 256
    ensures prefixes' == prefixes + Emitted(n, end, old(scratchpad[..j]), start)
    decreases end - j
  {
    hide Ok, Emitted, EmittedFrom;
    ghost var p := scratchpad[..j];
    EmittedEnds(n, end, p, start);
    if j == end {
      return prefixes + scratchpad[start..end];
    }
    prefixes' := prefixes;
    for c := 0 to n
      invariant scratchpad[..j] == p && forall i :: 0 <= i < scratchpad.Length ==> scratchpad[i] < 256
      invariant prefixes' + EmittedFrom(n, end, p, c, start) == prefixes + Emitted(n, end, p, start)
    {
      EmittedStep(n, end, p, c, start);
      scratchpad[j] := c;
      assert scratchpad[..][..j + 1] == scratchpad[..j + 1] == p + [c];
      var ok := CheckOk(j + 1, scratchpad[..]);
      if ok {
        prefixes' := Prefixes(start, end, j + 1, n, scratchpad, prefixes');
        assert scratchpad[..j] == scratchpad[..j + 1][..j];
      }
    }
  }
}
