// What the search minimises over, said without the board and the order of the search:
// arrangements of rectangles, each against its neighbours.
module FloorplanMeaning {
  import opened Wrappers
  import opened FloorplanSpec
  import opened FloorplanSearch

  // The rectangles of cell `id` and the cells after it, as chosen: each in one of its
  // shapes at one of its start positions, ending exactly at the last cell.
  function Lay(cells: Cells, id: nat, choices: seq<Choice>): Option<seq<Cell>>
    decreases |choices|
  {
    if choices == [] || !IsChoice(cells, id, choices[0].shape, choices[0].start) then None
    else
      var shape := cells[id].alt[choices[0].shape];
      var c := Placed(cells[id], shape, StartAt(cells, id, shape, choices[0].start));
      if c.next == 0 then
        if |choices| == 1 then Some([c]) else None
      else if c.next < 0 then None
      else
        match Lay(cells[id := c], c.next, choices[1..])
        case None => None
        case Some(rest) => Some([c] + rest)
  }

  predicate AllFree(rects: seq<Cell>, board: Board) {
    forall j :: 0 <= j < |rects| ==> Free(board, rects[j])
  }

  // A cell with a visible mark keeps the later cells off its squares.
  predicate Apart(chain: seq<nat>, rects: seq<Cell>) {
    forall j, l :: 0 <= j < l < |rects| && j < |chain| && chain[j] % 256 != 0 ==> Disjoint(rects[j], rects[l])
  }

  // Where a rectangle is free once another one has been laid down.
  lemma FreeAfter(board: Board, c: Cell, id: nat, d: Cell)
    requires Free(board, c)
    ensures Free(Painted(board, c, Mark(id)), d) <==> Free(board, d) && (id % 256 != 0 ==> Disjoint(c, d))
  {
    hide Mark, InRect;
    MarkIsVisible(id);
    var after := Painted(board, c, Mark(id));
    if Free(after, d) {
      forall s | 0 <= s < SIZE * SIZE && InRect(d, s) ensures board[s] == 0 && (id % 256 != 0 ==> !InRect(c, s)) {
        assert after[s] == 0;
      }
    } else {
      var s :| 0 <= s < SIZE * SIZE && InRect(d, s) && after[s] != 0;
      assert InRect(c, s) || board[s] != 0;
    }
  }

  lemma AllFreeAfter(board: Board, c: Cell, id: nat, rects: seq<Cell>)
    requires Free(board, c)
    ensures AllFree(rects, Painted(board, c, Mark(id))) <==>
            AllFree(rects, board) && (id % 256 != 0 ==> forall l :: 0 <= l < |rects| ==> Disjoint(c, rects[l]))
  {
    hide Free, Disjoint, Mark, Painted;
    forall l | 0 <= l < |rects|
      ensures Free(Painted(board, c, Mark(id)), rects[l]) <==>
              Free(board, rects[l]) && (id % 256 != 0 ==> Disjoint(c, rects[l]))
    {
      FreeAfter(board, c, id, rects[l]);
    }
  }

  lemma ApartCons(chain: seq<nat>, c: Cell, rest: seq<Cell>)
    requires chain != []
    ensures Apart(chain, [c] + rest) <==>
            Apart(chain[1..], rest) && (chain[0] % 256 != 0 ==> forall l :: 0 <= l < |rest| ==> Disjoint(c, rest[l]))
  {
    hide Disjoint;
    var all := [c] + rest;
    if Apart(chain, all) {
      forall j, l | 0 <= j < l < |rest| && j < |chain| - 1 && chain[1..][j] % 256 != 0
        ensures Disjoint(rest[j], rest[l])
      {
        assert all[j + 1] == rest[j] && all[l + 1] == rest[l] && chain[j + 1] == chain[1..][j];
      }
      forall l | 0 <= l < |rest| && chain[0] % 256 != 0 ensures Disjoint(c, rest[l]) {
        assert all[0] == c && all[l + 1] == rest[l];
      }
    }
    if Apart(chain[1..], rest) && (chain[0] % 256 != 0 ==> forall l :: 0 <= l < |rest| ==> Disjoint(c, rest[l])) {
      forall j, l | 0 <= j < l < |all| && j < |chain| && chain[j] % 256 != 0 ensures Disjoint(all[j], all[l]) {
        assert all[l] == rest[l - 1];
        if j > 0 { assert all[j] == rest[j - 1] && chain[1..][j - 1] == chain[j]; }
      }
    }
  }

  // What a step on the board comes to: the head rectangle must be free, and the rest is
  // followed from there.
  lemma {:induction false} FollowExactly(at: Layout, chain: seq<nat>, placed: set<nat>, choices: seq<Choice>)
    requires IsChain(at.cells, chain, placed)
    ensures var lay := Lay(at.cells, chain[0], choices);
            && (lay.Some? ==> |lay.value| == |chain|)
            && (Follow(at, chain[0], choices).Some? <==>
                lay.Some? && AllFree(lay.value, at.board) && Apart(chain, lay.value))
            && (Follow(at, chain[0], choices).Some? ==>
                Follow(at, chain[0], choices).value.foot == GrowAll(at.foot, lay.value) &&
                IsExtent(at.foot, lay.value, Follow(at, chain[0], choices).value.foot))
    decreases |choices|
  {
    hide Free, Painted, StartCount, StartAt, Disjoint, Mark, AllFree, Apart, IsExtent;
    var lay := Lay(at.cells, chain[0], choices);
    if lay.Some? { GrowAllIsExtent(at.foot, lay.value); }
    if choices != [] && IsChoice(at.cells, chain[0], choices[0].shape, choices[0].start) {
      var id, i, k := chain[0], choices[0].shape, choices[0].start;
      var c := Placed(at.cells[id], at.cells[id].alt[i], StartAt(at.cells, id, at.cells[id].alt[i], k));
      var cells := at.cells[id := c];
      if c.next == 0 {
        SingleCell(at.cells, chain, placed);
        OneRectangle(chain, c, at.board, at.foot);
      } else {
        assert |chain| > 1 && c.next == chain[1];
        AgreeAfter(at.cells, id, c);
        ChainAgree(at.cells, cells, chain[1..], placed + {id});
        var to := Layout(cells, Painted(at.board, c, Mark(id)), Grow(at.foot, c));
        FollowExactly(to, chain[1..], placed + {id}, choices[1..]);
        var rest := Lay(cells, chain[1], choices[1..]);
        if rest.Some? {
          ApartCons(chain, c, rest.value);
          AllFreeCons(c, rest.value, at.board);
          assert ([c] + rest.value)[1..] == rest.value;
          if Free(at.board, c) { AllFreeAfter(at.board, c, id, rest.value); }
        }
      }
    }
  }

  lemma SingleCell(cells: Cells, chain: seq<nat>, placed: set<nat>)
    requires IsChain(cells, chain, placed) && cells[chain[0]].next == 0
    ensures |chain| == 1
  {
  }

  lemma OneRectangle(chain: seq<nat>, c: Cell, board: Board, foot: Footprint)
    ensures Apart(chain, [c]) && (AllFree([c], board) <==> Free(board, c))
    ensures GrowAll(foot, [c]) == Grow(foot, c)
  {
    hide Free, Disjoint;
    assert AllFree([c], board) ==> Free(board, [c][0]);
    assert [c][1..] == [];
  }

  lemma AllFreeCons(c: Cell, rest: seq<Cell>, board: Board)
    ensures AllFree([c] + rest, board) <==> Free(board, c) && AllFree(rest, board)
  {
    hide Free;
    var all := [c] + rest;
    if AllFree(all, board) {
      assert all[0] == c;
      forall j | 0 <= j < |rest| ensures Free(board, rest[j]) { assert all[j + 1] == rest[j]; }
    }
  }

  lemma AgreeAfter(cells: Cells, id: nat, c: Cell)
    requires id < |cells| && SameData(cells[id], c)
    ensures Agree(cells, cells[id := c], {})
  {
  }

  /* ----- what an arrangement is ----- */

  // The cell has the extent of one of its shapes and lies against its neighbours.
  predicate Lies(cells: Cells, id: nat)
    requires HasNeighbours(cells, id)
  {
    var c := cells[id];
    && HasShape(c, c.alt)
    && MayStart(cells, id, Shape(c.bot - c.top + 1, c.rhs - c.lhs + 1), Corner(c.top, c.lhs))
  }

  // The cells with extents for those in the chain.
  ghost predicate Arrangement(cells: Cells, chain: seq<nat>, laid: Cells) {
    && Agree(cells, laid, {})
    && (forall x :: 0 <= x < |cells| && x !in chain ==> laid[x] == cells[x])
    && (forall j :: 0 <= j < |chain| ==> HasNeighbours(laid, chain[j]) && Lies(laid, chain[j]))
  }

  function Rects(laid: Cells, chain: seq<nat>): (r: seq<Cell>)
    requires forall j :: 0 <= j < |chain| ==> chain[j] < |laid|
    ensures |r| == |chain| && forall j :: 0 <= j < |r| ==> r[j] == laid[chain[j]]
  {
    seq(|chain|, j requires 0 <= j < |chain| => laid[chain[j]])
  }

  /* ----- the choices lay out exactly the arrangements ----- */

  predicate SameNeighbours(cells: Cells, laid: Cells, id: nat)
    requires HasNeighbours(cells, id)
  {
    && |laid| == |cells|
    && (cells[id].left >= 0 ==> laid[cells[id].left] == cells[cells[id].left])
    && (cells[id].above >= 0 ==> laid[cells[id].above] == cells[cells[id].above])
  }

  lemma ChosenLies(cells: Cells, id: nat, i: nat, k: nat, laid: Cells)
    requires IsChoice(cells, id, i, k) && SameNeighbours(cells, laid, id)
    requires laid[id] == Placed(cells[id], cells[id].alt[i], StartAt(cells, id, cells[id].alt[i], k))
    ensures HasNeighbours(laid, id) && Lies(laid, id)
  {
    StartsExactly(cells, id, cells[id].alt[i], StartAt(cells, id, cells[id].alt[i], k));
  }

  lemma LyingIsChosen(cells: Cells, id: nat, laid: Cells) returns (i: nat, k: nat)
    requires HasNeighbours(cells, id) && SameNeighbours(cells, laid, id) && SameData(cells[id], laid[id])
    requires HasNeighbours(laid, id) && Lies(laid, id)
    ensures IsChoice(cells, id, i, k)
    ensures laid[id] == Placed(cells[id], cells[id].alt[i], StartAt(cells, id, cells[id].alt[i], k))
  {
    var c := laid[id];
    i :| 0 <= i < |c.alt| && c.bot - c.top + 1 == c.alt[i].rows && c.rhs - c.lhs + 1 == c.alt[i].cols;
    var nw := Corner(c.top, c.lhs);
    StartsExactly(cells, id, c.alt[i], nw);
    assert MayStart(cells, id, c.alt[i], nw);
    k :| k < StartCount(cells, id, c.alt[i]) && StartAt(cells, id, c.alt[i], k) == nw;
  }

  // Later cells leave the neighbours of the head alone, and the head itself.
  lemma HeadIsKept(cells: Cells, chain: seq<nat>, placed: set<nat>, c: Cell, laid: Cells)
    requires IsChain(cells, chain, placed) && SameData(cells[chain[0]], c)
    requires Arrangement(cells[chain[0] := c], chain[1..], laid)
    ensures SameNeighbours(cells, laid, chain[0]) && laid[chain[0]] == c
  {
    hide Lies;
    if c.left >= 0 && c.left in chain { ChainFresh(cells, chain, placed, c.left); }
    if c.above >= 0 && c.above in chain { ChainFresh(cells, chain, placed, c.above); }
    if chain[0] in chain[1..] { ChainFresh(cells, chain[1..], placed + {chain[0]}, chain[0]); }
  }

  // An arrangement is the head in its place and an arrangement of the rest.
  lemma ArrangementTail(cells: Cells, chain: seq<nat>, laid: Cells)
    requires chain != [] && chain[0] < |cells| && Arrangement(cells, chain, laid)
    ensures var id := chain[0];
            && HasNeighbours(laid, id) && Lies(laid, id) && SameData(cells[id], laid[id])
            && Arrangement(cells[id := laid[id]], chain[1..], laid)
            && Rects(laid, chain) == [laid[id]] + Rects(laid, chain[1..])
  {
    hide Lies;
    var id, rest := chain[0], chain[1..];
    forall x | 0 <= x < |cells|
      ensures SameData(cells[id := laid[id]][x], laid[x]) && (x !in rest ==> laid[x] == cells[id := laid[id]][x])
    {
      if x != id { assert SameData(cells[x], laid[x]) && (x in chain ==> x in rest); }
    }
    forall j | 0 <= j < |rest| ensures HasNeighbours(laid, rest[j]) && Lies(laid, rest[j]) {
      assert rest[j] == chain[j + 1];
    }
    assert HasNeighbours(laid, chain[0]) && Lies(laid, chain[0]);
  }

  lemma ArrangementHead(cells: Cells, chain: seq<nat>, laid: Cells, c: Cell)
    requires chain != [] && chain[0] < |cells| && SameData(cells[chain[0]], c)
    requires Arrangement(cells[chain[0] := c], chain[1..], laid)
    requires HasNeighbours(laid, chain[0]) && Lies(laid, chain[0])
    ensures Arrangement(cells, chain, laid)
    ensures Rects(laid, chain) == [laid[chain[0]]] + Rects(laid, chain[1..])
  {
    hide Lies;
    var cells', rest := cells[chain[0] := c], chain[1..];
    forall x | 0 <= x < |cells| ensures SameData(cells[x], laid[x]) && (x !in chain ==> laid[x] == cells[x]) {
      assert SameData(cells'[x], laid[x]) && (x !in chain ==> x !in rest);
    }
    forall j | 0 <= j < |chain| ensures HasNeighbours(laid, chain[j]) && Lies(laid, chain[j]) {
      if j > 0 { assert rest[j - 1] == chain[j]; }
    }
  }

  lemma TailIsChain(cells: Cells, chain: seq<nat>, placed: set<nat>, c: Cell)
    requires IsChain(cells, chain, placed) && SameData(cells[chain[0]], c) && |chain| > 1
    ensures IsChain(cells[chain[0] := c], chain[1..], placed + {chain[0]})
  {
    AgreeAfter(cells, chain[0], c);
    ChainAgree(cells, cells[chain[0] := c], chain[1..], placed + {chain[0]});
  }

  lemma {:induction false} LayArranges(cells: Cells, chain: seq<nat>, placed: set<nat>, choices: seq<Choice>)
    returns (laid: Cells)
    requires IsChain(cells, chain, placed) && Lay(cells, chain[0], choices).Some?
    ensures Arrangement(cells, chain, laid) && Lay(cells, chain[0], choices).value == Rects(laid, chain)
    decreases |chain|
  {
    hide StartCount, StartAt, Lies, SameNeighbours;
    var id, i, k := chain[0], choices[0].shape, choices[0].start;
    var c := Placed(cells[id], cells[id].alt[i], StartAt(cells, id, cells[id].alt[i], k));
    if c.next == 0 {
      SingleCell(cells, chain, placed);
      laid := cells[id := c];
      AgreeItself(laid);
    } else {
      TailIsChain(cells, chain, placed, c);
      laid := LayArranges(cells[id := c], chain[1..], placed + {id}, choices[1..]);
    }
    HeadIsKept(cells, chain, placed, c, laid);
    ChosenLies(cells, id, i, k, laid);
    ArrangementHead(cells, chain, laid, c);
    assert Lay(cells, id, choices).value == [c] + Rects(laid, chain[1..]);
  }

  lemma AgreeItself(cells: Cells)
    ensures Agree(cells, cells, {})
  {
  }

  lemma {:induction false} ArrangementIsLaid(cells: Cells, chain: seq<nat>, placed: set<nat>, laid: Cells)
    returns (choices: seq<Choice>)
    requires IsChain(cells, chain, placed) && Arrangement(cells, chain, laid)
    ensures Lay(cells, chain[0], choices) == Some(Rects(laid, chain))
    decreases |chain|
  {
    hide StartCount, StartAt, Lies, SameNeighbours;
    var id := chain[0];
    var c := laid[id];
    ArrangementTail(cells, chain, laid);
    HeadIsKept(cells, chain, placed, c, laid);
    var i, k := LyingIsChosen(cells, id, laid);
    if |chain| == 1 {
      choices := [Choice(i, k)];
      assert Rects(laid, chain) == [c];
    } else {
      TailIsChain(cells, chain, placed, c);
      var rest := ArrangementIsLaid(cells[id := c], chain[1..], placed + {id}, laid);
      choices := [Choice(i, k)] + rest;
      assert choices[1..] == rest && c.next == chain[1];
      assert chain[1] > 0;
    }
  }

  /* ----- what is minimised ----- */

  predicate Inside(rects: seq<Cell>, rows: int, cols: int) {
    forall j :: 0 <= j < |rects| ==> rects[j].bot < rows && rects[j].rhs < cols
  }

  ghost predicate Attained(cells: Cells, chain: seq<nat>, foot: Footprint, allowed: seq<Cell> -> bool) {
    exists laid :: Arrangement(cells, chain, laid) && allowed(Rects(laid, chain)) &&
                   Inside(Rects(laid, chain), foot.rows, foot.cols)
  }

  // No allowed arrangement fits into a smaller area, and one fits into the reported
  // footprint, unless nothing smaller than the whole board was found.
  ghost predicate IsMinimum(cells: Cells, chain: seq<nat>, r: Result, allowed: seq<Cell> -> bool) {
    && (forall laid, rows: nat, cols: nat ::
          Arrangement(cells, chain, laid) && allowed(Rects(laid, chain)) && Inside(Rects(laid, chain), rows, cols) ==>
            r.area <= rows * cols)
    && if r.area < 64 * 64 then
         r.area == r.foot.rows * r.foot.cols && Within(r.foot, r.foot) && Attained(cells, chain, r.foot, allowed)
       else r == Fresh()
  }

  function Extent(rects: seq<Cell>): Footprint {
    GrowAll(Footprint(0, 0), rects)
  }

  lemma ExtentInside(rects: seq<Cell>, rows: nat, cols: nat)
    ensures Inside(rects, Extent(rects).rows, Extent(rects).cols) && Within(Extent(rects), Extent(rects))
    ensures Inside(rects, rows, cols) ==> Area(Extent(rects)) <= rows * cols
  {
    hide GrowAll;
    GrowAllIsExtent(Footprint(0, 0), rects);
    if Inside(rects, rows, cols) { AreaMonotone(Extent(rects), Footprint(rows, cols)); }
  }

  lemma FreeOnEmpty(rects: seq<Cell>)
    ensures AllFree(rects, EmptyBoard())
  {
  }

  // An arrangement in which the marked cells keep others off is no smaller ...
  lemma NoneIsSmaller(cells: Cells, chain: seq<nat>, r: Result, laid: Cells)
    requires chain != [] && chain[0] == 1 && IsChain(cells, chain, {0})
    requires Optimal(Fresh(), r, [], Blank(cells), 1)
    requires Arrangement(cells, chain, laid) && Apart(chain, Rects(laid, chain))
    ensures r.area <= Area(Extent(Rects(laid, chain)))
  {
    hide Lay, Follow, Apart, AllFree, Area, IsChain, GrowAll;
    var choices := ArrangementIsLaid(cells, chain, {0}, laid);
    FreeOnEmpty(Rects(laid, chain));
    FollowExactly(Blank(cells), chain, {0}, choices);
    var o := Follow(Blank(cells), 1, choices).value;
    assert Completes(Blank(cells), 1, choices, o);
    assert Covers(r, [], o);
  }

  // ... and a result other than the initial one shows one.
  lemma SomeIsFound(cells: Cells, chain: seq<nat>, r: Result) returns (laid: Cells)
    requires chain != [] && chain[0] == 1 && IsChain(cells, chain, {0})
    requires Optimal(Fresh(), r, [], Blank(cells), 1) && r != Fresh()
    ensures Arrangement(cells, chain, laid) && Apart(chain, Rects(laid, chain))
    ensures r.foot == Extent(Rects(laid, chain)) && r.area == Area(r.foot) < 64 * 64
  {
    hide Lay, Follow, Apart, AllFree, Area, IsChain, GrowAll;
    var choices, o :| Completes(Blank(cells), 1, choices, o) && r == ResultOf(o);
    FollowExactly(Blank(cells), chain, {0}, choices);
    laid := LayArranges(cells, chain, {0}, choices);
  }

  // The minimum, for every chain: the arrangements in which each cell with a visible
  // mark keeps the later ones off its squares.
  lemma MinimumApart(cells: Cells, chain: seq<nat>, r: Result)
    requires chain != [] && chain[0] == 1 && IsChain(cells, chain, {0})
    requires Optimal(Fresh(), r, [], Blank(cells), 1)
    ensures IsMinimum(cells, chain, r, rects => Apart(chain, rects))
  {
    hide Apart, Inside, Lies, Agree, IsChain, Extent;
    forall laid, rows: nat, cols: nat | Arrangement(cells, chain, laid) && Apart(chain, Rects(laid, chain)) &&
                                        Inside(Rects(laid, chain), rows, cols)
      ensures r.area <= rows * cols
    {
      NoneIsSmaller(cells, chain, r, laid);
      ExtentInside(Rects(laid, chain), rows, cols);
    }
    if r != Fresh() {
      var laid := SomeIsFound(cells, chain, r);
      ExtentInside(Rects(laid, chain), 0, 0);
    }
  }

  lemma ApartIsSeparate(chain: seq<nat>, rects: seq<Cell>)
    requires chain != [] && Marked(chain[..|chain| - 1]) && |rects| == |chain|
    ensures Apart(chain, rects) <==> Separate(rects)
  {
    hide Disjoint;
    if Apart(chain, rects) {
      forall j, l | 0 <= j < l < |rects| ensures Disjoint(rects[j], rects[l]) {
        assert chain[..|chain| - 1][j] == chain[j];
      }
    }
  }

  // With a visible mark on every cell but the last this is the minimum over the
  // floorplans without overlap.
  lemma MinimumSeparate(cells: Cells, chain: seq<nat>, r: Result)
    requires chain != [] && chain[0] == 1 && IsChain(cells, chain, {0})
    requires Optimal(Fresh(), r, [], Blank(cells), 1) && Marked(chain[..|chain| - 1])
    ensures IsMinimum(cells, chain, r, Separate)
  {
    hide Apart, Separate, IsChain, Lies, Agree, Optimal, Marked, Inside;
    MinimumApart(cells, chain, r);
    forall laid | Arrangement(cells, chain, laid)
      ensures Apart(chain, Rects(laid, chain)) <==> Separate(Rects(laid, chain))
    {
      ApartIsSeparate(chain, Rects(laid, chain));
    }
  }
}
