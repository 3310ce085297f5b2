// Cells numbered a multiple of 256, on whose squares later cells may lie: inputs whose
// only complete placement has an overlap, and the exact condition on the numbers.
module FloorplanOverlap {
  import opened Wrappers
  import opened FloorplanSpec
  import opened FloorplanSearch
  import opened Floorplan
  import opened FloorplanMeaning

  /* ----- cells that all go to one place ----- */

  // Cells to the right of `base`, one row high; those in `wide` have one column, the
  // others none.
  function Slot(wide: set<nat>, base: nat, id: nat, next: int): Cell {
    Cell([Shape(1, if id in wide then 1 else 0)], 0, 0, -1, -1, base, -1, next)
  }

  predicate HasSlot(cells: Cells, chain: seq<nat>, wide: set<nat>, base: nat, t: nat)
    requires t < |chain| && chain[t] < |cells|
  {
    SameData(cells[chain[t]], Slot(wide, base, chain[t], if t < |chain| - 1 then chain[t + 1] else 0))
  }

  ghost predicate Stacked(cells: Cells, chain: seq<nat>, wide: set<nat>, base: nat, col: nat) {
    && NoDup(chain) && chain != [] && 0 !in chain && base !in chain
    && base < |cells| && cells[base].top == 0 && cells[base].bot == 0 && cells[base].rhs + 1 == col < SIZE - 1
    && (forall t :: 0 <= t < |chain| ==> chain[t] < |cells| && HasSlot(cells, chain, wide, base, t))
  }

  // The rectangle of cell `id`.
  predicate InSlot(c: Cell, wide: bool, col: nat) {
    c.top == 0 && c.bot == 0 && c.lhs == col && c.rhs == (if wide then col else col - 1)
  }

  lemma SlotEnds(c: Cell, wide: bool, col: nat)
    requires InSlot(c, wide, col)
    ensures c.bot == 0 && c.rhs <= col
  {
  }

  // The only way to place them.
  function First(n: nat): (r: seq<Choice>)
    ensures |r| == n
  {
    seq(n, _ => Choice(0, 0))
  }

  lemma StackedTail(cells: Cells, c: Cell, chain: seq<nat>, wide: set<nat>, base: nat, col: nat)
    requires Stacked(cells, chain, wide, base, col) && |chain| > 1 && SameData(cells[chain[0]], c)
    ensures Stacked(cells[chain[0] := c], chain[1..], wide, base, col)
  {
    hide HasSlot, NoDup;
    NoDupTail(chain);
    var rest := chain[1..];
    forall t | 0 <= t < |rest|
      ensures rest[t] < |cells| && HasSlot(cells[chain[0] := c], rest, wide, base, t)
    {
      assert rest[t] == chain[t + 1] && HasSlot(cells, chain, wide, base, t + 1);
      SlotTail(cells, c, chain, wide, base, t);
    }
  }

  lemma SlotTail(cells: Cells, c: Cell, chain: seq<nat>, wide: set<nat>, base: nat, t: nat)
    requires t < |chain| - 1 && chain[0] < |cells| && chain[t + 1] < |cells| && NoDup(chain)
    requires HasSlot(cells, chain, wide, base, t + 1)
    ensures HasSlot(cells[chain[0] := c], chain[1..], wide, base, t)
  {
  }

  lemma StackedStep(cells: Cells, chain: seq<nat>, wide: set<nat>, base: nat, col: nat)
    requires chain != [] && Stacked(cells, chain, wide, base, col)
    ensures HasNeighbours(cells, chain[0]) && |cells[chain[0]].alt| == 1
    ensures StartCount(cells, chain[0], cells[chain[0]].alt[0]) == 1
    ensures forall i, k :: IsChoice(cells, chain[0], i, k) <==> i == 0 && k == 0
    ensures cells[chain[0]].next == if |chain| > 1 then chain[1] else 0
    ensures |chain| > 1 ==> chain[1] > 0
  {
    hide NoDup;
    assert HasSlot(cells, chain, wide, base, 0);
  }

  function FirstPlaced(cells: Cells, id: nat): Cell
    requires HasNeighbours(cells, id) && |cells[id].alt| > 0
  {
    Placed(cells[id], cells[id].alt[0], StartAt(cells, id, cells[id].alt[0], 0))
  }

  lemma StackedPlaced(cells: Cells, chain: seq<nat>, wide: set<nat>, base: nat, col: nat)
    requires chain != [] && Stacked(cells, chain, wide, base, col)
    requires HasNeighbours(cells, chain[0]) && |cells[chain[0]].alt| > 0
    ensures var c := FirstPlaced(cells, chain[0]);
            && InSlot(c, chain[0] in wide, col) && OnBoard(c)
            && (|chain| > 1 ==> Stacked(cells[chain[0] := c], chain[1..], wide, base, col))
  {
    hide NoDup;
    assert HasSlot(cells, chain, wide, base, 0);
    if |chain| > 1 {
      hide Stacked;
      StackedTail(cells, FirstPlaced(cells, chain[0]), chain, wide, base, col);
    }
  }

  lemma {:induction false} StackedIsChain(cells: Cells, chain: seq<nat>, wide: set<nat>, base: nat, col: nat,
                                          placed: set<nat>)
    requires Stacked(cells, chain, wide, base, col) && base in placed && forall x :: x in chain ==> x !in placed
    ensures IsChain(cells, chain, placed)
    decreases |chain|
  {
    assert HasSlot(cells, chain, wide, base, 0);
    if |chain| > 1 {
      StackedTail(cells, cells[chain[0]], chain, wide, base, col);
      assert cells[chain[0] := cells[chain[0]]] == cells;
      StackedIsChain(cells, chain[1..], wide, base, col, placed + {chain[0]});
    }
  }

  lemma {:induction false} StackedStays(at: Layout, chain: seq<nat>, wide: set<nat>, base: nat, col: nat)
    requires Stacked(at.cells, chain, wide, base, col)
    ensures StaysOnBoard(at, chain)
    decreases |chain|
  {
    hide Free, Painted, StartCount, StartAt;
    StackedStep(at.cells, chain, wide, base, col);
    StackedPlaced(at.cells, chain, wide, base, col);
    forall i, k | IsChoice(at.cells, chain[0], i, k)
      ensures ChoiceStays(at, chain, i, k)
    {
      if |chain| > 1 && Try(at, chain[0], i, k).Some? {
        StackedStays(Try(at, chain[0], i, k).value, chain[1..], wide, base, col);
      }
    }
  }

  lemma {:induction false} StackedLay(cells: Cells, chain: seq<nat>, wide: set<nat>, base: nat, col: nat,
                                      choices: seq<Choice>)
    requires chain != [] && Stacked(cells, chain, wide, base, col)
    ensures var lay := Lay(cells, chain[0], choices);
            && (lay.Some? <==> choices == First(|chain|))
            && (lay.Some? ==> |lay.value| == |chain| &&
                              forall t :: 0 <= t < |chain| ==> InSlot(lay.value[t], chain[t] in wide, col))
    decreases |chain|
  {
    hide StartCount, StartAt, Stacked, InSlot;
    if choices != [] {
      StackedStep(cells, chain, wide, base, col);
      StackedPlaced(cells, chain, wide, base, col);
      assert choices == [choices[0]] + choices[1..];
      assert First(|chain|) == [Choice(0, 0)] + First(|chain| - 1);
      if choices[0] == Choice(0, 0) && |chain| > 1 {
        StackedLay(cells[chain[0] := FirstPlaced(cells, chain[0])], chain[1..], wide, base, col, choices[1..]);
      }
    }
  }

  lemma {:induction false} StackedExtent(foot: Footprint, rects: seq<Cell>, col: nat)
    requires Within(foot, Footprint(1, col + 1))
    requires forall t :: 0 <= t < |rects| ==> rects[t].bot == 0 && rects[t].rhs <= col
    ensures Within(GrowAll(foot, rects), Footprint(1, col + 1))
    decreases |rects|
  {
    if rects != [] { StackedExtent(Grow(foot, rects[0]), rects[1..], col); }
  }

  // Two cells with a column are on the same square.
  lemma SameSlot(c: Cell, d: Cell, col: nat)
    requires col < SIZE && InSlot(c, true, col) && InSlot(d, true, col)
    ensures !Disjoint(c, d)
  {
    assert col / SIZE == 0 && col % SIZE == col;
    assert InRect(c, col) && InRect(d, col);
  }

  lemma EmptySlot(c: Cell, d: Cell, col: nat)
    requires InSlot(c, false, col)
    ensures Disjoint(c, d) && Disjoint(d, c)
  {
  }

  /* ----- exactly which numbers allow an overlap ----- */

  predicate AllInSlot(rects: seq<Cell>, chain: seq<nat>, wide: set<nat>, col: nat) {
    |rects| == |chain| && forall t :: 0 <= t < |chain| ==> InSlot(rects[t], chain[t] in wide, col)
  }

  // With the two cells at places j and l the only ones that have a column.
  lemma TwoOverlap(chain: seq<nat>, rects: seq<Cell>, j: nat, l: nat, col: nat)
    requires NoDup(chain) && j < l < |chain| && AllInSlot(rects, chain, {chain[j], chain[l]}, col) && col < SIZE
    ensures !Separate(rects)
    ensures Apart(chain, rects) <==> chain[j] % 256 == 0
  {
    hide InSlot, Disjoint;
    SameSlot(rects[j], rects[l], col);
    forall a, b | 0 <= a < b < |rects| && (a != j || b != l)
      ensures Disjoint(rects[a], rects[b])
    {
      var wide := {chain[j], chain[l]};
      assert InSlot(rects[a], chain[a] in wide, col) && InSlot(rects[b], chain[b] in wide, col);
      if chain[a] in wide {
        assert chain[b] !in wide;
        EmptySlot(rects[b], rects[a], col);
      } else {
        EmptySlot(rects[a], rects[b], col);
      }
    }
  }

  ghost function Bound(chain: seq<nat>): (n: nat)
    ensures forall t :: 0 <= t < |chain| ==> chain[t] < n
  {
    assert forall t :: 1 <= t < |chain| ==> chain[t] == chain[1..][t - 1];
    if chain == [] then 1 else Max(chain[0] + 1, Bound(chain[1..]))
  }

  ghost function NextOf(chain: seq<nat>, id: nat): nat {
    if exists t :: 0 <= t < |chain| - 1 && chain[t] == id then
      var t :| 0 <= t < |chain| - 1 && chain[t] == id;
      chain[t + 1]
    else 0
  }

  // Cell 0 lies left of the board.
  ghost function Stack(chain: seq<nat>, wide: set<nat>): Cells {
    seq(Bound(chain) + 1, id requires 0 <= id => Slot(wide, 0, id, NextOf(chain, id)))
  }

  lemma StackIsStacked(chain: seq<nat>, wide: set<nat>)
    requires NoDup(chain) && chain != [] && 0 !in chain
    ensures Stacked(Stack(chain, wide), chain, wide, 0, 0)
  {
    forall t | 0 <= t < |chain|
      ensures chain[t] < |Stack(chain, wide)| && HasSlot(Stack(chain, wide), chain, wide, 0, t)
    {
      assert chain[t] in chain;
    }
  }

  ghost predicate Arranged(cells: Cells, choices: seq<Choice>, rects: seq<Cell>) {
    Lay(cells, 1, choices) == Some(rects)
  }

  // No arrangement is a floorplan.
  ghost predicate NoFloorplan(cells: Cells, chain: seq<nat>) {
    forall laid :: Arrangement(cells, chain, laid) ==> !Separate(Rects(laid, chain))
  }

  // The only arrangement of stacked cells is complete when it keeps apart what it must.
  lemma OnlyArrangement(cells: Cells, chain: seq<nat>, wide: set<nat>) returns (rects: seq<Cell>)
    requires chain != [] && chain[0] == 1 && Stacked(cells, chain, wide, 0, 0)
    ensures Ready(Blank(cells), chain, {0}) && AllInSlot(rects, chain, wide, 0) && Area(Extent(rects)) <= 1
    ensures forall choices, all :: Arranged(cells, choices, all) <==> choices == First(|chain|) && all == rects
  {
    hide Lay, IsChain, StaysOnBoard, GrowAll, InSlot;
    StackedIsChain(cells, chain, wide, 0, 0, {0});
    StackedStays(Blank(cells), chain, wide, 0, 0);
    StackedLay(cells, chain, wide, 0, 0, First(|chain|));
    rects := Lay(cells, 1, First(|chain|)).value;
    forall t | 0 <= t < |rects| ensures rects[t].bot == 0 && rects[t].rhs <= 0 {
      SlotEnds(rects[t], chain[t] in wide, 0);
    }
    StackedExtent(Footprint(0, 0), rects, 0);
    AreaMonotone(Extent(rects), Footprint(1, 1));
    forall choices, all
      ensures Arranged(cells, choices, all) <==> choices == First(|chain|) && all == rects
    {
      StackedLay(cells, chain, wide, 0, 0, choices);
    }
  }

  // A cell before the last that has no visible mark lets an overlap through: here the
  // only arrangement has one, and it is reported.
  lemma OverlapReported(chain: seq<nat>, j: nat) returns (cells: Cells, r: Result)
    requires NoDup(chain) && 0 !in chain && j < |chain| - 1 && chain[0] == 1 && chain[j] % 256 == 0
    ensures Ready(Blank(cells), chain, {0}) && Optimal(Fresh(), r, [], Blank(cells), 1) && r.area <= 1
    ensures NoFloorplan(cells, chain)
  {
    hide Lay, Follow, Stacked, IsChain, StaysOnBoard, Apart, Separate, AllFree, Area, Lies;
    var l := |chain| - 1;
    var wide := {chain[j], chain[l]};
    cells := Stack(chain, wide);
    StackIsStacked(chain, wide);
    var rects := OnlyArrangement(cells, chain, wide);
    TwoOverlap(chain, rects, j, l, 0);
    assert Arranged(cells, First(|chain|), rects);
    FreeOnEmpty(rects);
    FollowExactly(Blank(cells), chain, {0}, First(|chain|));
    var o := Follow(Blank(cells), 1, First(|chain|)).value;
    r := ResultOf(o);
    assert Completes(Blank(cells), 1, First(|chain|), o);
    forall choices, x | Completes(Blank(cells), 1, choices, x)
      ensures x == o
    {
      FollowExactly(Blank(cells), chain, {0}, choices);
      assert Arranged(cells, choices, Lay(cells, 1, choices).value);
    }
    forall laid | Arrangement(cells, chain, laid) ensures !Separate(Rects(laid, chain)) {
      var choices := ArrangementIsLaid(cells, chain, {0}, laid);
      assert Arranged(cells, choices, Rects(laid, chain));
    }
  }

  // Exactly with a visible mark on every cell but the last, the reported area is for all
  // inputs the minimum over the floorplans without overlap.
  lemma SeparateExactly(chain: seq<nat>)
    requires NoDup(chain) && 0 !in chain && chain != [] && chain[0] == 1
    ensures (forall cells, r :: Ready(Blank(cells), chain, {0}) && Optimal(Fresh(), r, [], Blank(cells), 1) ==>
               IsMinimum(cells, chain, r, Separate)) <==>
            Marked(chain[..|chain| - 1])
  {
    hide Separate, StaysOnBoard, IsChain, Optimal, Area, GrowAll, Lies, Inside;
    if Marked(chain[..|chain| - 1]) {
      forall cells, r | Ready(Blank(cells), chain, {0}) && Optimal(Fresh(), r, [], Blank(cells), 1)
        ensures IsMinimum(cells, chain, r, Separate)
      {
        MinimumSeparate(cells, chain, r);
      }
    } else {
      var j :| 0 <= j < |chain| - 1 && chain[..|chain| - 1][j] % 256 == 0;
      var cells, r := OverlapReported(chain, j);
      assert !IsMinimum(cells, chain, r, Separate);
    }
  }

  /* ----- three cells of one square ----- */

  // One square each: cell 1 in the corner, and cells `a` and `b` both to its right.
  function Squares(a: nat, b: nat): Cells
    requires 1 < a < b
  {
    seq(b + 1, id requires 0 <= id =>
      Cell([Shape(1, 1)], 0, 0, -1, -1, if id == 1 then 0 else 1, -1,
           if id == 1 then a else if id == a then b else 0))
  }

  lemma SquaresStep(a: nat, b: nat) returns (c: Cell)
    requires 1 < a < b
    ensures var cells := Squares(a, b);
            && HasNeighbours(cells, 1) && StartCount(cells, 1, Shape(1, 1)) == 1
            && cells[1].alt == [Shape(1, 1)] && cells[1].left == 0 && cells[1].above == -1 && cells[1].next == a
            && c == FirstPlaced(cells, 1) && InSlot(c, true, 0)
            && Stacked(cells[1 := c], [a, b], {a, b}, 1, 1)
  {
    c := FirstPlaced(Squares(a, b), 1);
  }

  lemma SquaresReady(a: nat, b: nat)
    requires 1 < a < b
    ensures Ready(Blank(Squares(a, b)), [1, a, b], {0})
  {
    hide Stacked, Free, Painted, StartCount, StartAt, InSlot;
    var at, chain := Blank(Squares(a, b)), [1, a, b];
    var c := SquaresStep(a, b);
    assert chain[1..] == [a, b];
    StackedIsChain(at.cells[1 := c], [a, b], {a, b}, 1, 1, {0, 1});
    ChainAgree(at.cells[1 := c], at.cells, [a, b], {0, 1});
    assert {0} + {1} == {0, 1};
    forall i, k | IsChoice(at.cells, 1, i, k)
      ensures ChoiceStays(at, chain, i, k)
    {
      StackedStays(Layout(at.cells[1 := c], Painted(at.board, c, Mark(1)), Grow(at.foot, c)), [a, b], {a, b}, 1, 1);
      SlotEnds(c, true, 0);
    }
  }

  lemma SquaresLay(a: nat, b: nat, choices: seq<Choice>)
    requires 1 < a < b
    ensures var lay := Lay(Squares(a, b), 1, choices);
            && (lay.Some? <==> choices == First(3))
            && (lay.Some? ==> |lay.value| == 3 && InSlot(lay.value[0], true, 0) &&
                              InSlot(lay.value[1], true, 1) && InSlot(lay.value[2], true, 1))
  {
    hide Stacked, StartCount, StartAt, InSlot;
    if choices != [] {
      var c := SquaresStep(a, b);
      StackedLay(Squares(a, b)[1 := c], [a, b], {a, b}, 1, 1, choices[1..]);
      assert choices == [choices[0]] + choices[1..];
      assert First(3) == [Choice(0, 0)] + First(2);
    }
  }

  lemma SquaresApart(a: nat, b: nat, rects: seq<Cell>)
    requires |rects| == 3 && InSlot(rects[0], true, 0) && InSlot(rects[1], true, 1) && InSlot(rects[2], true, 1)
    ensures !Separate(rects) && (Apart([1, a, b], rects) <==> a % 256 == 0)
    ensures Area(Extent(rects)) <= 2
  {
    hide Disjoint, GrowAll;
    SameSlot(rects[1], rects[2], 1);
    NextSlot(rects[0], rects[1]);
    NextSlot(rects[0], rects[2]);
    StackedExtent(Footprint(0, 0), rects, 1);
    AreaMonotone(Extent(rects), Footprint(1, 2));
  }

  lemma NextSlot(c: Cell, d: Cell)
    requires InSlot(c, true, 0) && InSlot(d, true, 1)
    ensures Disjoint(c, d)
  {
  }

  // Numbered 256 and 257 they complete on the same square, although no floorplan exists;
  // numbered 2 and 3 they do not.
  lemma SquaresOverlap(a: nat, b: nat, r: Result)
    requires 1 < a < b && Optimal(Fresh(), r, [], Blank(Squares(a, b)), 1)
    ensures Ready(Blank(Squares(a, b)), [1, a, b], {0})
    ensures NoFloorplan(Squares(a, b), [1, a, b])
    ensures if a % 256 == 0 then r.area <= 2 else r == Fresh()
  {
    hide Lay, Ready, Apart, Separate, Area, Optimal, GrowAll, Squares, Lies;
    var cells, chain := Squares(a, b), [1, a, b];
    SquaresReady(a, b);
    assert IsChain(cells, chain, {0}) by { ReadyIsChain(Blank(cells), chain, {0}); }
    forall laid | Arrangement(cells, chain, laid)
      ensures !Separate(Rects(laid, chain)) && (Apart(chain, Rects(laid, chain)) <==> a % 256 == 0)
      ensures Area(Extent(Rects(laid, chain))) <= 2
    {
      var choices := ArrangementIsLaid(cells, chain, {0}, laid);
      SquaresLay(a, b, choices);
      SquaresApart(a, b, Rects(laid, chain));
    }
    if a % 256 == 0 {
      SquaresLay(a, b, First(3));
      var laid := LayArranges(cells, chain, {0}, First(3));
      NoneIsSmaller(cells, chain, r, laid);
    } else if r != Fresh() {
      var laid := SomeIsFound(cells, chain, r);
    }
  }
}
