// The floorplan search: backtracking in place over the cell array, with pruning.
module Floorplan {
  import opened Wrappers
  import opened FloorplanSpec
  import opened FloorplanSearch
  import opened FloorplanMeaning

  class ResultData {
    var minArea: int
    var bestBoard: Board
    var minFootprint: Footprint

    constructor (minArea: int)
      ensures View() == Result(minArea, EmptyBoard(), Footprint(0, 0))
    {
      this.minArea := minArea;
      bestBoard := seq(SIZE * SIZE, _ => 0);
      minFootprint := Footprint(0, 0);
    }

    ghost function View(): Result
      reads this
    {
      Result(minArea, bestBoard, minFootprint)
    }
  }

  // starts: writes the possible north-west corners and returns their number.
  method Starts(id: nat, shape: nat, nws: array<Corner>, cells: array<Cell>) returns (n: int)
    requires HasNeighbours(cells[..], id) && shape < |cells[id].alt|
    requires nws.Length == DMAX && StartCount(cells[..], id, cells[id].alt[shape]) <= DMAX
    modifies nws
    ensures n == StartCount(cells[..], id, cells[id].alt[shape])
    ensures forall k :: 0 <= k < n ==> nws[k] == StartAt(cells[..], id, cells[id].alt[shape], k)
  {
    var cellRows, cellCols := cells[id].alt[shape].rows, cells[id].alt[shape].cols;
    var left, above := cells[id].left, cells[id].above;
    if left >= 0 && above >= 0 {
      var top := cells[above].bot + 1;
      var lhs := cells[left].rhs + 1;
      var bot := top + SIZE;
      var rhs := lhs + SIZE;
      if top <= cells[left].bot && bot >= cells[left].top && lhs <= cells[above].rhs && rhs >= cells[above].lhs {
        n := 1;
        nws[0] := Corner(top, lhs);
      } else {
        n := 0;
      }
    } else if left >= 0 {
      var top := Max(cells[left].top - cellRows + 1, 0);
      var bot := Min(cells[left].bot, SIZE);
      n := bot - top + 1;
      var i := 0;
      while i < n
        invariant 0 <= i <= Max(n, 0) && forall k :: 0 <= k < i ==> nws[k] == Corner(k + top, cells[left].rhs + 1)
      {
        nws[i] := Corner(i + top, cells[left].rhs + 1);
        i := i + 1;
      }
    } else {
      var lhs := Max(cells[above].lhs - cellCols + 1, 0);
      var rhs := Min(cells[above].rhs, SIZE);
      n := rhs - lhs + 1;
      var i := 0;
      while i < n
        invariant 0 <= i <= Max(n, 0) && forall k :: 0 <= k < i ==> nws[k] == Corner(cells[above].bot + 1, k + lhs)
      {
        nws[i] := Corner(cells[above].bot + 1, i + lhs);
        i := i + 1;
      }
    }
  }

  // Squares of c above row i, or in row i left of column j.
  predicate Reached(c: Cell, i: int, j: int, s: nat) {
    InRect(c, s) && (s / SIZE < i || (s / SIZE == i && s % SIZE < j))
  }

  // lay_down: paints the rectangle square by square, or stops at the first square
  // that is taken.
  method LayDown(id: nat, board: array<int>, cells: array<Cell>) returns (ok: bool)
    requires id < cells.Length && OnBoard(cells[id]) && board.Length == SIZE * SIZE
    modifies board
    ensures ok <==> Free(old(board[..]), cells[id])
    ensures ok ==> board[..] == Painted(old(board[..]), cells[id], Mark(id))
  {
    var c := cells[id];
    ghost var before := board[..];
    var i := c.top;
    while i <= c.bot
      invariant c.top <= i
      invariant forall s :: 0 <= s < SIZE * SIZE ==> board[s] == if Reached(c, i, c.lhs, s) then Mark(id) else before[s]
      invariant forall s :: 0 <= s < SIZE * SIZE && Reached(c, i, c.lhs, s) ==> before[s] == 0
    {
      var j := c.lhs;
      while j <= c.rhs
        invariant c.lhs <= j
        invariant forall s :: 0 <= s < SIZE * SIZE ==> board[s] == if Reached(c, i, j, s) then Mark(id) else before[s]
        invariant forall s :: 0 <= s < SIZE * SIZE && Reached(c, i, j, s) ==> before[s] == 0
      {
        var s := SIZE * i + j;
        assert s / SIZE == i && s % SIZE == j && InRect(c, s);
        if board[s] == 0 {
          board[s] := Mark(id);
        } else {
          return false;
        }
        j := j + 1;
      }
      i := i + 1;
    }
    assert forall s :: 0 <= s < SIZE * SIZE ==> (Reached(c, i, c.lhs, s) <==> InRect(c, s));
    assert board[..] == Painted(before, c, Mark(id));
    return true;
  }

  /* ----- the search ----- */

  // Between two moments of one search only extents of cells in its chain change.
  ghost predicate Touches(before: Cells, after: Cells, chain: seq<nat>) {
    Agree(before, after, {}) && forall x :: 0 <= x < |before| && x !in chain ==> after[x] == before[x]
  }

  lemma TouchesAgree(before: Cells, after: Cells, chain: seq<nat>, placed: set<nat>)
    requires IsChain(before, chain, placed) && Touches(before, after, chain)
    ensures Agree(before, after, placed) && IsChain(after, chain, placed)
  {
    forall x | x in placed && x < |before|
      ensures before[x] == after[x]
    {
      if x in chain { ChainFresh(before, chain, placed, x); }
    }
    ChainAgree(before, after, chain, placed);
  }

  // After setting the extent of the head cell the cells are, where it matters,
  // those of the tried layout.
  lemma PlacedAgrees(at: Layout, before: Cells, chain: seq<nat>, placed: set<nat>, i: nat, k: nat)
    requires IsChain(at.cells, chain, placed) && Touches(at.cells, before, chain)
    requires IsChoice(at.cells, chain[0], i, k)
    ensures var id := chain[0];
            var shape := at.cells[id].alt[i];
            var nw := StartAt(at.cells, id, shape, k);
            && id < |before| && before[id].alt == at.cells[id].alt && before[id].next == at.cells[id].next
            && Placed(before[id], shape, nw) == Placed(at.cells[id], shape, nw)
            && Touches(at.cells, before[id := Placed(before[id], shape, nw)], chain)
            && Agree(at.cells[id := Placed(at.cells[id], shape, nw)],
                     before[id := Placed(before[id], shape, nw)], placed + {id})
  {
    TouchesAgree(at.cells, before, chain, placed);
    assert SameData(at.cells[chain[0]], before[chain[0]]);
  }

  lemma TouchesTail(a: Cells, b: Cells, c: Cells, chain: seq<nat>)
    requires chain != [] && Touches(a, b, chain) && Touches(b, c, chain[1..])
    ensures Touches(a, c, chain)
  {
    forall x | 0 <= x < |a|
      ensures SameData(a[x], c[x]) && (x !in chain ==> c[x] == a[x])
    {
      assert SameData(a[x], b[x]) && SameData(b[x], c[x]);
      assert x !in chain ==> x !in chain[1..];
    }
  }

  // What a search needs to know about its input; `placed` are the cells its start
  // positions may depend on.
  ghost predicate Ready(at: Layout, chain: seq<nat>, placed: set<nat>) {
    IsChain(at.cells, chain, placed) && StaysOnBoard(at, chain) && Within(at.foot, at.foot)
  }

  lemma ReadyIsChain(at: Layout, chain: seq<nat>, placed: set<nat>)
    requires Ready(at, chain, placed)
    ensures IsChain(at.cells, chain, placed)
  {
  }

  // The tried layout, as the cells really are, is again an input.
  lemma ReadyNext(at: Layout, after: Cells, chain: seq<nat>, placed: set<nat>, i: nat, k: nat)
    requires Ready(at, chain, placed) && |chain| > 1 && Try(at, chain[0], i, k).Some?
    requires Agree(Try(at, chain[0], i, k).value.cells, after, placed + {chain[0]})
    ensures var to := Try(at, chain[0], i, k).value;
            Ready(Layout(after, to.board, to.foot), chain[1..], placed + {chain[0]})
    ensures IsChain(Try(at, chain[0], i, k).value.cells, chain[1..], placed + {chain[0]})
  {
    hide Free, Painted, StartCount, StartAt, Agree;
    assert ChoiceStays(at, chain, i, k);
    var to := Try(at, chain[0], i, k).value;
    TryKeepsData(at, chain[0], i, k);
    ChainAgree(at.cells, to.cells, chain[1..], placed + {chain[0]});
    StaysAgree(to, Layout(after, to.board, to.foot), chain[1..], placed + {chain[0]});
    TouchesSize(to.cells, after, placed + {chain[0]}, chain[1..]);
  }

  lemma TouchesSize(a: Cells, b: Cells, placed: set<nat>, chain: seq<nat>)
    requires Agree(a, b, placed) && IsChain(a, chain, placed)
    ensures |a| == |b| && IsChain(b, chain, placed)
  {
    ChainAgree(a, b, chain, placed);
  }

  // What Try answers for a choice, spelled out for the code that tries it.
  lemma TryIs(at: Layout, id: nat, i: nat, k: nat, c: Cell)
    requires IsChoice(at.cells, id, i, k)
    requires c == Placed(at.cells[id], at.cells[id].alt[i], StartAt(at.cells, id, at.cells[id].alt[i], k))
    ensures Try(at, id, i, k).Some? <==> Free(at.board, c)
    ensures Free(at.board, c) ==>
              Try(at, id, i, k) == Some(Layout(at.cells[id := c], Painted(at.board, c, Mark(id)), Grow(at.foot, c)))
  {
  }

  // One turn of the innermost loop: cell `id` in shape i at its k-th start position.
  method Visit(result: ResultData, id: nat, i: nat, nw: Corner, prevFootprint: Footprint, prevBoard: array<int>,
               cells: array<Cell>, ghost k: nat, ghost at: Layout, ghost chain: seq<nat>, ghost placed: set<nat>)
    requires Ready(at, chain, placed) && chain[0] == id && Touches(at.cells, cells[..], chain)
    requires IsChoice(at.cells, id, i, k) && nw == StartAt(at.cells, id, at.cells[id].alt[i], k)
    requires prevBoard[..] == at.board && prevFootprint == at.foot
    modifies result, cells
    ensures Touches(at.cells, cells[..], chain)
    ensures OneMore(old(result.View()), result.View(), [], at, id, i, k)
    decreases |chain|, 0
  {
    hide Free, Painted, StartCount, StartAt, Agree, IsChain, StaysOnBoard, Optimal, OneMore, Area, Try, Mark;
    PlacedAgrees(at, cells[..], chain, placed, i, k);
    ChoiceFacts(at, chain, placed, i, k);
    cells[id] := Placed(cells[id], cells[id].alt[i], nw);
    ghost var c := cells[id];
    TryIs(at, id, i, k, Placed(at.cells[id], at.cells[id].alt[i], nw));
    var board := new int[SIZE * SIZE](s requires 0 <= s < prevBoard.Length reads prevBoard => prevBoard[s]);
    assert board[..] == prevBoard[..];
    var ok := LayDown(id, board, cells);
    if !ok {
      SkipUnfit(result.View(), at, id, i, k);
      return;
    }
    var footprint := Footprint(Max(prevFootprint.rows, cells[id].bot + 1), Max(prevFootprint.cols, cells[id].rhs + 1));
    var area := footprint.rows * footprint.cols;
    assert area == Area(footprint) by { AreaIs(footprint); }
    ghost var to := Try(at, id, i, k).value;
    if cells[id].next == 0 {
      TakeComplete(result.View(), at, id, i, k);
      if area < result.minArea {
        result.minArea := area;
        result.minFootprint := footprint;
        result.bestBoard := board[..];
      }
    } else if area < result.minArea {
      NextFacts(at, chain, placed, i, k);
      ReadyNext(at, cells[..], chain, placed, i, k);
      ghost var from, r := Layout(cells[..], board[..], footprint), result.View();
      AddCell(result, cells[id].next, footprint, board, cells, chain[1..], placed + {id});
      AgreeSymmetric(to.cells, from.cells, placed + {id});
      OptimalAgree(r, result.View(), [], from, to, chain[1..], placed + {id});
      TakeRest(r, result.View(), [], at, id, i, k);
      TouchesTail(at.cells, from.cells, cells[..], chain);
    } else {
      SkipLarge(result.View(), at, id, i, k);
    }
  }

  lemma AreaIs(f: Footprint)
    ensures Area(f) == f.rows * f.cols
  {
  }

  lemma AgreeSymmetric(a: Cells, b: Cells, placed: set<nat>)
    ensures Agree(a, b, placed) ==> Agree(b, a, placed)
  {
  }

  // The head of a ready chain is a proper cell and stays on the board.
  lemma ChoiceFacts(at: Layout, chain: seq<nat>, placed: set<nat>, i: nat, k: nat)
    requires Ready(at, chain, placed) && IsChoice(at.cells, chain[0], i, k)
    ensures 0 < chain[0]
    ensures OnBoard(Placed(at.cells[chain[0]], at.cells[chain[0]].alt[i],
                           StartAt(at.cells, chain[0], at.cells[chain[0]].alt[i], k)))
  {
    assert ChoiceStays(at, chain, i, k);
  }

  lemma NextFacts(at: Layout, chain: seq<nat>, placed: set<nat>, i: nat, k: nat)
    requires Ready(at, chain, placed) && Try(at, chain[0], i, k).Some?
    requires at.cells[chain[0]].next != 0
    ensures |chain| > 1 && at.cells[chain[0]].next == chain[1]
    ensures chain[0] < |Try(at, chain[0], i, k).value.cells|
    ensures Try(at, chain[0], i, k).value.cells[chain[0]].next == chain[1] > 0
  {
    hide Free, Painted, StartCount, StartAt, StaysOnBoard;
    TryKeepsData(at, chain[0], i, k);
  }

  // add_cell: afterwards the result is the best of its old value and of every
  // complete placement from here, although branches are pruned on the way.
  method AddCell(result: ResultData, id: nat, prevFootprint: Footprint, prevBoard: array<int>, cells: array<Cell>,
                 ghost chain: seq<nat>, ghost placed: set<nat>)
    requires prevBoard.Length == SIZE * SIZE
    requires Ready(Layout(cells[..], prevBoard[..], prevFootprint), chain, placed) && chain[0] == id
    modifies result, cells
    ensures Touches(old(cells[..]), cells[..], chain)
    ensures Optimal(old(result.View()), result.View(), [], Layout(old(cells[..]), prevBoard[..], prevFootprint), id)
    decreases |chain|, 1
  {
    hide Free, Painted, Area, Try, OneMore, Tracks, Optimal, StartAt;
    ghost var at, r := Layout(cells[..], prevBoard[..], prevFootprint), result.View();
    var nws := new Corner[DMAX](_ => Corner(0, 0));
    TracksNothing(r, at, id);
    for i := 0 to |cells[id].alt|
      invariant Touches(at.cells, cells[..], chain) && prevBoard[..] == at.board
      invariant Tracks(r, result.View(), [], at, id, i, 0)
    {
      SameStarts(at, cells[..], chain, placed, i);
      var n := Starts(id, i, nws, cells);
      for k := 0 to n
        invariant Touches(at.cells, cells[..], chain) && prevBoard[..] == at.board
        invariant forall x :: 0 <= x < n ==> nws[x] == StartAt(at.cells, id, at.cells[id].alt[i], x)
        invariant Tracks(r, result.View(), [], at, id, i, k)
      {
        ghost var r1 := result.View();
        Visit(result, id, i, nws[k], prevFootprint, prevBoard, cells, k, at, chain, placed);
        ghost var none: seq<Task> := [];
        assert none + none == none;
        TracksStep(r, r1, result.View(), none, none, at, id, i, k);
      }
      TracksNextShape(r, result.View(), [], at, id, i, n);
    }
    TracksAll(r, result.View(), [], at, id, |at.cells[id].alt|);
  }

  // The number and places of the start positions are those of the entry state.
  lemma SameStarts(at: Layout, now: Cells, chain: seq<nat>, placed: set<nat>, i: nat)
    requires Ready(at, chain, placed) && Touches(at.cells, now, chain) && i < |at.cells[chain[0]].alt|
    ensures var id := chain[0];
            && HasNeighbours(now, id) && now[id].alt == at.cells[id].alt
            && StartCount(now, id, now[id].alt[i]) == StartCount(at.cells, id, at.cells[id].alt[i])
            && 0 <= StartCount(at.cells, id, at.cells[id].alt[i]) <= DMAX
            && forall x: nat :: StartAt(now, id, now[id].alt[i], x) == StartAt(at.cells, id, at.cells[id].alt[i], x)
  {
    TouchesAgree(at.cells, now, chain, placed);
    assert SameData(at.cells[chain[0]], now[chain[0]]);
  }

  // floorplan (serial)
  method Serial(cells: array<Cell>, ghost chain: seq<nat>) returns (result: ResultData)
    requires Ready(Blank(cells[..]), chain, {0}) && chain != [] && chain[0] == 1
    modifies cells
    ensures fresh(result)
    ensures Optimal(Fresh(), result.View(), [], Blank(old(cells[..])), 1)
    ensures IsMinimum(old(cells[..]), chain, result.View(), rects => Apart(chain, rects))
  {
    hide Ready, Optimal, IsMinimum;
    var board := new int[SIZE * SIZE](_ => 0);
    assert board[..] == EmptyBoard();
    result := new ResultData(SIZE * SIZE);
    ReadyIsChain(Blank(cells[..]), chain, {0});
    AddCell(result, 1, Footprint(0, 0), board, cells, chain, {0});
    MinimumApart(old(cells[..]), chain, result.View());
  }
}
