// What a reported floorplan shows: one rectangle per cell, none overlapping.
module FloorplanPicture {
  import opened Wrappers
  import opened FloorplanSpec
  import opened FloorplanSearch
  import opened Floorplan

  // rects[j] belongs to cell chain[j]: it has one of the shapes of that cell, lies
  // on the board and shows its mark; rectangles do not overlap, and the other
  // squares are those of `before`.
  ghost predicate Shows(cells: Cells, chain: seq<nat>, rects: seq<Cell>, before: Board, after: Board) {
    && |rects| == |chain|
    && (forall j :: 0 <= j < |chain| ==>
          chain[j] < |cells| && HasShape(rects[j], cells[chain[j]].alt) && OnBoard(rects[j]))
    && Separate(rects)
    && (forall j, s :: 0 <= j < |rects| && 0 <= s < SIZE * SIZE && InRect(rects[j], s) ==>
          before[s] == 0 && after[s] == Mark(chain[j]))
    && (forall s :: 0 <= s < SIZE * SIZE && (forall j :: 0 <= j < |rects| ==> !InRect(rects[j], s)) ==>
          after[s] == before[s])
  }

  // Cell 256, like every multiple of it, leaves no trace, and another cell can be laid
  // over it; no other cell allows that.
  lemma MultiplesLeaveNoTrace(board: Board, c: Cell, id: nat, s: nat)
    requires Free(board, c) && s < SIZE * SIZE && InRect(c, s)
    ensures Painted(board, c, Mark(id)) == board <==> id % 256 == 0
    ensures Free(Painted(board, c, Mark(id)), c) <==> id % 256 == 0
  {
    MarkIsVisible(id);
    var after := Painted(board, c, Mark(id));
    assert after[s] == Mark(id) && board[s] == 0;
  }

  // The non-zero squares are those of the rectangles.
  ghost predicate Pictured(rects: seq<Cell>, board: Board) {
    forall s :: 0 <= s < SIZE * SIZE ==>
      (board[s] != 0 <==> exists j :: 0 <= j < |rects| && InRect(rects[j], s))
  }

  // The rectangle of the head cell in front of those of the rest.
  lemma ShowsCons(cells: Cells, cells': Cells, chain: seq<nat>, c: Cell, rects: seq<Cell>, before: Board, mid: Board,
                  after: Board)
    requires chain != [] && Agree(cells, cells', {}) && Shows(cells', chain[1..], rects, mid, after)
    requires chain[0] < |cells| && HasShape(c, cells[chain[0]].alt) && OnBoard(c)
    requires Free(before, c) && mid == Painted(before, c, Mark(chain[0])) && Mark(chain[0]) != 0
    ensures Shows(cells, chain, [c] + rects, before, after)
  {
    hide HasShape, OnBoard, InRect, Mark;
    var all := [c] + rects;
    forall j | 0 <= j < |chain|
      ensures chain[j] < |cells| && HasShape(all[j], cells[chain[j]].alt) && OnBoard(all[j])
    {
      if j > 0 {
        assert chain[1..][j - 1] == chain[j] && all[j] == rects[j - 1];
        assert SameData(cells[chain[j]], cells'[chain[j]]);
      }
    }
    forall j, s | 0 <= j < |all| && 0 <= s < SIZE * SIZE && InRect(all[j], s)
      ensures before[s] == 0 && after[s] == Mark(chain[j])
      ensures forall l :: j < l < |all| ==> !InRect(all[l], s)
    {
      forall l | j < l < |all| ensures !InRect(all[l], s) { assert all[l] == rects[l - 1]; }
      if j == 0 {
        assert forall l :: 0 <= l < |rects| ==> !InRect(rects[l], s);
      } else {
        assert all[j] == rects[j - 1] && chain[1..][j - 1] == chain[j];
      }
    }
    forall s | 0 <= s < SIZE * SIZE && (forall j :: 0 <= j < |all| ==> !InRect(all[j], s))
      ensures after[s] == before[s]
    {
      assert !InRect(all[0], s);
      forall l | 0 <= l < |rects| ensures !InRect(rects[l], s) { assert all[l + 1] == rects[l]; }
    }
  }

  lemma {:induction false} FollowShows(at: Layout, chain: seq<nat>, placed: set<nat>, choices: seq<Choice>, o: Layout)
    returns (rects: seq<Cell>)
    requires Ready(at, chain, placed) && Completes(at, chain[0], choices, o) && Marked(chain)
    ensures Shows(at.cells, chain, rects, at.board, o.board)
    ensures o.foot == GrowAll(at.foot, rects) && IsExtent(at.foot, rects, o.foot)
    decreases |choices|
  {
    hide Free, Painted, StartCount, StartAt, Agree, Shows, Mark, HasShape, IsExtent;
    var id, i, k := chain[0], choices[0].shape, choices[0].start;
    var shape := at.cells[id].alt[i];
    var c := Placed(at.cells[id], shape, StartAt(at.cells, id, shape, k));
    ChoiceFacts(at, chain, placed, i, k);
    ShapeOfPlaced(at.cells, id, i, c, StartAt(at.cells, id, shape, k));
    MarkIsVisible(id);
    var to := Try(at, id, i, k).value;
    TryKeepsData(at, id, i, k);
    if at.cells[id].next == 0 {
      if |chain| > 1 { ChainFresh(at.cells, chain, placed, chain[1]); }
      rects := [c];
      ShowsNothing(to.cells, to.board, chain);
      ShowsCons(at.cells, to.cells, chain, c, [], at.board, to.board, o.board);
      assert [c] + [] == rects && rects[1..] == [];
    } else {
      NextFacts(at, chain, placed, i, k);
      AgreeItself(to.cells, placed + {id});
      ReadyNext(at, to.cells, chain, placed, i, k);
      var rest := FollowShows(to, chain[1..], placed + {id}, choices[1..], o);
      rects := [c] + rest;
      ShowsCons(at.cells, to.cells, chain, c, rest, at.board, to.board, o.board);
      assert rects[1..] == rest;
    }
    GrowAllIsExtent(at.foot, rects);
  }

  lemma AgreeItself(cells: Cells, placed: set<nat>)
    ensures Agree(cells, cells, placed)
  {
  }

  lemma ShowsNothing(cells: Cells, board: Board, chain: seq<nat>)
    requires |chain| == 1
    ensures Shows(cells, chain[1..], [], board, board)
  {
  }

  lemma ShapeOfPlaced(cells: Cells, id: nat, i: nat, c: Cell, nw: Corner)
    requires id < |cells| && i < |cells[id].alt| && c == Placed(cells[id], cells[id].alt[i], nw)
    ensures HasShape(c, cells[id].alt)
  {
  }

  // Main result on the witness: a result below the area of the empty board shows a
  // floorplan, if every cell has a visible mark. The non-zero squares are the disjoint
  // union of one rectangle per cell, each with dimensions from that cell's
  // alternatives; the footprint is the extent of these rectangles and the area is its
  // product.
  lemma ReportedFloorplan(cells: Cells, chain: seq<nat>, r: Result) returns (rects: seq<Cell>)
    requires chain != [] && chain[0] == 1 && Marked(chain)
    requires Ready(Blank(cells), chain, {0})
    requires Optimal(Fresh(), r, [], Blank(cells), 1)
    requires r.area < SIZE * SIZE
    ensures Shows(cells, chain, rects, EmptyBoard(), r.board) && Pictured(rects, r.board)
    ensures IsExtent(Footprint(0, 0), rects, r.foot) && r.area == r.foot.rows * r.foot.cols
  {
    hide Ready, HasShape, OnBoard, InRect, Follow, Mark;
    var at := Blank(cells);
    var choices, o :| Completes(at, 1, choices, o) && r == ResultOf(o);
    rects := FollowShows(at, chain, {0}, choices, o);
    GrowAllIsExtent(Footprint(0, 0), rects);
    forall j | 0 <= j < |chain| ensures Mark(chain[j]) != 0 { MarkIsVisible(chain[j]); }
  }

  // With a cell that has no mark the board does not show the floorplan.
  lemma UnmarkedIsMissing(cells: Cells, chain: seq<nat>, rects: seq<Cell>, board: Board, j: nat)
    requires Shows(cells, chain, rects, EmptyBoard(), board) && j < |chain| && chain[j] % 256 == 0
    requires rects[j].top <= rects[j].bot && rects[j].lhs <= rects[j].rhs
    ensures !Pictured(rects, board)
  {
    hide HasShape, Mark;
    var c := rects[j];
    var s := c.top * SIZE + c.lhs;
    assert s / SIZE == c.top && s % SIZE == c.lhs;
    assert InRect(c, s);
    MarkIsVisible(chain[j]);
    assert board[s] == 0;
  }

  // Exactly then the reported board is a picture of the floorplan, for shapes that have
  // an extent.
  lemma PicturedExactly(cells: Cells, chain: seq<nat>, r: Result)
    requires chain != [] && chain[0] == 1
    requires Ready(Blank(cells), chain, {0})
    requires Optimal(Fresh(), r, [], Blank(cells), 1)
    requires r.area < SIZE * SIZE
    requires forall id, i :: 0 <= id < |cells| && 0 <= i < |cells[id].alt| ==>
               cells[id].alt[i].rows > 0 && cells[id].alt[i].cols > 0
    ensures (exists rects :: Shows(cells, chain, rects, EmptyBoard(), r.board) && Pictured(rects, r.board)) <==>
            Marked(chain)
  {
    hide Ready, Optimal, Pictured;
    if Marked(chain) {
      var rects := ReportedFloorplan(cells, chain, r);
    } else {
      var j :| 0 <= j < |chain| && chain[j] % 256 == 0;
      forall rects | Shows(cells, chain, rects, EmptyBoard(), r.board)
        ensures !Pictured(rects, r.board)
      {
        UnmarkedIsMissing(cells, chain, rects, r.board, j);
      }
    }
  }
}
