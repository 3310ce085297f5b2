// The floorplan problem as values: where a cell may start, what laying it down
// does to the board, and the complete placements reachable without pruning.
module FloorplanSpec {
  import opened Wrappers

  const SIZE := 64
  const DMAX := 64

  datatype Shape = Shape(rows: int, cols: int)

  datatype Cell = Cell(alt: seq<Shape>, top: int, bot: int, lhs: int, rhs: int, left: int, above: int, next: int)

  type Cells = seq<Cell>

  datatype Corner = Corner(row: int, col: int)

  datatype Footprint = Footprint(rows: int, cols: int)

  // The squares, row by row.
  type Board = b: seq<int> | |b| == SIZE * SIZE witness seq(SIZE * SIZE, _ => 0)

  function EmptyBoard(): Board {
    seq(SIZE * SIZE, _ => 0)
  }

  function Area(f: Footprint): int {
    f.rows * f.cols
  }

  function Max(a: int, b: int): int {
    if a >= b then a else b
  }

  function Min(a: int, b: int): int {
    if a <= b then a else b
  }

  // static_cast<char>(id)
  function Mark(id: nat): (r: int)
    ensures -128 <= r <= 127 && (id - r) % 256 == 0
  {
    if id % 256 < 128 then id % 256 else id % 256 - 256
  }

  // The cells a start position of `id` is computed from.
  predicate HasNeighbours(cells: Cells, id: nat) {
    && id < |cells|
    && cells[id].left < |cells| && cells[id].above < |cells|
    && (cells[id].left >= 0 || cells[id].above >= 0)
  }

  /* ----- start positions ----- */

  // Number of start positions of the given shape, and the k-th of them. With both
  // neighbours the footprint test uses the size of the whole board.
  function StartCount(cells: Cells, id: nat, shape: Shape): int
    requires HasNeighbours(cells, id)
  {
    var c := cells[id];
    if c.left >= 0 && c.above >= 0 then
      var l, a := cells[c.left], cells[c.above];
      var top, lhs := a.bot + 1, l.rhs + 1;
      if top <= l.bot && top + SIZE >= l.top && lhs <= a.rhs && lhs + SIZE >= a.lhs then 1 else 0
    else if c.left >= 0 then
      var l := cells[c.left];
      Min(l.bot, SIZE) - Max(l.top - shape.rows + 1, 0) + 1
    else
      var a := cells[c.above];
      Min(a.rhs, SIZE) - Max(a.lhs - shape.cols + 1, 0) + 1
  }

  function StartAt(cells: Cells, id: nat, shape: Shape, k: nat): Corner
    requires HasNeighbours(cells, id)
  {
    var c := cells[id];
    if c.left >= 0 && c.above >= 0 then
      Corner(cells[c.above].bot + 1, cells[c.left].rhs + 1)
    else if c.left >= 0 then
      Corner(k + Max(cells[c.left].top - shape.rows + 1, 0), cells[c.left].rhs + 1)
    else
      Corner(cells[c.above].bot + 1, k + Max(cells[c.above].lhs - shape.cols + 1, 0))
  }

  // Where the north-west corner of a shape may be: against its neighbours. With both of
  // them a rectangle of the size of the board has to touch them, with one the shape
  // itself, from row or column SIZE at most.
  predicate MayStart(cells: Cells, id: nat, shape: Shape, nw: Corner)
    requires HasNeighbours(cells, id)
  {
    var c := cells[id];
    if c.left >= 0 && c.above >= 0 then
      var l, a := cells[c.left], cells[c.above];
      && nw == Corner(a.bot + 1, l.rhs + 1)
      && l.top - SIZE <= nw.row <= l.bot && a.lhs - SIZE <= nw.col <= a.rhs
    else if c.left >= 0 then
      var l := cells[c.left];
      && nw.col == l.rhs + 1
      && 0 <= nw.row <= SIZE && nw.row <= l.bot && l.top <= nw.row + shape.rows - 1
    else
      var a := cells[c.above];
      && nw.row == a.bot + 1
      && 0 <= nw.col <= SIZE && nw.col <= a.rhs && a.lhs <= nw.col + shape.cols - 1
  }

  // Exactly these corners are enumerated, each once, downwards or to the right.
  lemma StartsExactly(cells: Cells, id: nat, shape: Shape, nw: Corner)
    requires HasNeighbours(cells, id)
    ensures MayStart(cells, id, shape, nw) <==>
            exists k: nat :: k < StartCount(cells, id, shape) && StartAt(cells, id, shape, k) == nw
    ensures forall k: nat, m: nat :: k < m < StartCount(cells, id, shape) ==>
              var a, b := StartAt(cells, id, shape, k), StartAt(cells, id, shape, m);
              a.row <= b.row && a.col <= b.col && a != b
  {
    if MayStart(cells, id, shape, nw) {
      var c := cells[id];
      var k: nat :=
        if c.left >= 0 && c.above >= 0 then 0
        else if c.left >= 0 then nw.row - Max(cells[c.left].top - shape.rows + 1, 0)
        else nw.col - Max(cells[c.above].lhs - shape.cols + 1, 0);
      assert k < StartCount(cells, id, shape) && StartAt(cells, id, shape, k) == nw;
    }
  }

  // The cell with its extent set.
  function Placed(c: Cell, shape: Shape, nw: Corner): Cell {
    c.(top := nw.row, bot := nw.row + shape.rows - 1, lhs := nw.col, rhs := nw.col + shape.cols - 1)
  }

  /* ----- the board ----- */

  predicate InRect(c: Cell, s: nat) {
    c.top <= s / SIZE <= c.bot && c.lhs <= s % SIZE <= c.rhs
  }

  predicate HasShape(c: Cell, alt: seq<Shape>) {
    exists i :: 0 <= i < |alt| && c.bot - c.top + 1 == alt[i].rows && c.rhs - c.lhs + 1 == alt[i].cols
  }

  // No square of the board is in both rectangles.
  predicate Disjoint(c: Cell, d: Cell) {
    forall s :: 0 <= s < SIZE * SIZE && InRect(c, s) ==> !InRect(d, s)
  }

  predicate Empty(c: Cell) {
    c.bot < c.top || c.rhs < c.lhs
  }

  // On the board, that is when one ends before the other begins, unless one has no squares.
  lemma DisjointExactly(c: Cell, d: Cell)
    requires OnBoard(c) && OnBoard(d)
    ensures Disjoint(c, d) <==>
            Empty(c) || Empty(d) || c.bot < d.top || d.bot < c.top || c.rhs < d.lhs || d.rhs < c.lhs
  {
    var top, lhs := Max(c.top, d.top), Max(c.lhs, d.lhs);
    if top <= Min(c.bot, d.bot) && lhs <= Min(c.rhs, d.rhs) {
      var s := top * SIZE + lhs;
      assert s / SIZE == top && s % SIZE == lhs;
      assert InRect(c, s) && InRect(d, s);
    }
  }

  // A floorplan: no two rectangles overlap.
  predicate Separate(rects: seq<Cell>) {
    forall j, l :: 0 <= j < l < |rects| ==> Disjoint(rects[j], rects[l])
  }

  // Cells are drawn with their number cut to a character; those that come out as zero
  // look like free board.
  predicate Marked(chain: seq<nat>) {
    forall j :: 0 <= j < |chain| ==> chain[j] % 256 != 0
  }

  lemma MarkIsVisible(id: nat)
    ensures Mark(id) != 0 <==> id % 256 != 0
  {
  }

  predicate OnBoard(c: Cell) {
    0 <= c.top && c.bot < SIZE && 0 <= c.lhs && c.rhs < SIZE
  }

  predicate Free(board: Board, c: Cell) {
    forall s :: 0 <= s < SIZE * SIZE && InRect(c, s) ==> board[s] == 0
  }

  function Painted(board: Board, c: Cell, mark: int): (r: Board)
    ensures forall s :: 0 <= s < SIZE * SIZE ==> r[s] == if InRect(c, s) then mark else board[s]
  {
    seq(SIZE * SIZE, s requires 0 <= s < SIZE * SIZE => if InRect(c, s) then mark else board[s])
  }

  function SquareAt(board: Board, row: nat, col: nat): int
    requires row < SIZE && col < SIZE
  {
    board[SIZE * row + col]
  }

  // By rows and columns: what has to be free, and what is painted.
  lemma OnSquares(board: Board, c: Cell, mark: int)
    requires OnBoard(c)
    ensures Free(board, c) <==>
            forall row: nat, col: nat ::
              c.top <= row <= c.bot && c.lhs <= col <= c.rhs ==> SquareAt(board, row, col) == 0
    ensures forall row: nat, col: nat :: row < SIZE && col < SIZE ==>
              SquareAt(Painted(board, c, mark), row, col) ==
              if c.top <= row <= c.bot && c.lhs <= col <= c.rhs then mark else SquareAt(board, row, col)
  {
    forall row: nat, col: nat | row < SIZE && col < SIZE
      ensures SquareAt(board, row, col) == board[SIZE * row + col]
      ensures InRect(c, SIZE * row + col) <==> c.top <= row <= c.bot && c.lhs <= col <= c.rhs
    {
      DivideIs(SIZE * row + col, SIZE, row);
    }
    if !Free(board, c) {
      var s: nat :| s < SIZE * SIZE && InRect(c, s) && board[s] != 0;
      assert SquareAt(board, s / SIZE, s % SIZE) == board[s];
    }
  }

  /* ----- one placement ----- */

  datatype Layout = Layout(cells: Cells, board: Board, foot: Footprint)

  // What the search starts from: nothing placed yet.
  function Blank(cells: Cells): Layout {
    Layout(cells, EmptyBoard(), Footprint(0, 0))
  }

  predicate IsChoice(cells: Cells, id: nat, i: nat, k: nat) {
    HasNeighbours(cells, id) && i < |cells[id].alt| && k < StartCount(cells, id, cells[id].alt[i])
  }

  function Grow(foot: Footprint, c: Cell): Footprint {
    Footprint(Max(foot.rows, c.bot + 1), Max(foot.cols, c.rhs + 1))
  }

  // The extents of all rectangles on top of a footprint.
  function GrowAll(foot: Footprint, rects: seq<Cell>): Footprint
    decreases |rects|
  {
    if rects == [] then foot else GrowAll(Grow(foot, rects[0]), rects[1..])
  }

  // The least footprint around the first one and all rectangles.
  ghost predicate IsExtent(foot: Footprint, rects: seq<Cell>, all: Footprint) {
    && foot.rows <= all.rows && foot.cols <= all.cols
    && (forall j :: 0 <= j < |rects| ==> rects[j].bot < all.rows && rects[j].rhs < all.cols)
    && (all.rows == foot.rows || exists j :: 0 <= j < |rects| && rects[j].bot == all.rows - 1)
    && (all.cols == foot.cols || exists j :: 0 <= j < |rects| && rects[j].rhs == all.cols - 1)
  }

  lemma {:induction false} GrowAllIsExtent(foot: Footprint, rects: seq<Cell>)
    ensures IsExtent(foot, rects, GrowAll(foot, rects))
    decreases |rects|
  {
    if rects != [] {
      var all, next := GrowAll(foot, rects), Grow(foot, rects[0]);
      GrowAllIsExtent(next, rects[1..]);
      if all.rows != next.rows {
        var j :| 0 <= j < |rects| - 1 && rects[1..][j].bot == all.rows - 1;
        assert rects[j + 1].bot == all.rows - 1;
      }
      if all.cols != next.cols {
        var j :| 0 <= j < |rects| - 1 && rects[1..][j].rhs == all.cols - 1;
        assert rects[j + 1].rhs == all.cols - 1;
      }
      forall j | 0 <= j < |rects| ensures rects[j].bot < all.rows && rects[j].rhs < all.cols {
        if j > 0 { assert rects[1..][j - 1] == rects[j]; }
      }
    }
  }

  // Cell `id` in its i-th shape at its k-th start position; None if it does not fit.
  function Try(at: Layout, id: nat, i: nat, k: nat): Option<Layout> {
    if !IsChoice(at.cells, id, i, k) then None
    else
      var shape := at.cells[id].alt[i];
      var c := Placed(at.cells[id], shape, StartAt(at.cells, id, shape, k));
      if Free(at.board, c) then
        Some(Layout(at.cells[id := c], Painted(at.board, c, Mark(id)), Grow(at.foot, c)))
      else None
  }

  /* ----- complete placements, without pruning ----- */

  datatype Choice = Choice(shape: nat, start: nat)

  // The layout after placing `id` and the cells after it as chosen, when that is
  // possible and ends exactly at the last cell.
  function Follow(at: Layout, id: nat, choices: seq<Choice>): Option<Layout>
    decreases |choices|
  {
    if choices == [] then None
    else
      match Try(at, id, choices[0].shape, choices[0].start)
      case None => None
      case Some(to) =>
        if to.cells[id].next == 0 then
          (if |choices| == 1 then Some(to) else None)
        else if to.cells[id].next < 0 then None
        else Follow(to, to.cells[id].next, choices[1..])
  }

  /* ----- the chain of cells ----- */

  // `chain` is the list of cells from its head along `next`; each depends only on
  // cells already placed: cell 0 and those earlier in the chain.
  predicate IsChain(cells: Cells, chain: seq<nat>, placed: set<nat>)
    decreases |chain|
  {
    chain != [] &&
    var id := chain[0];
    && 0 < id < |cells| && id !in placed
    && HasNeighbours(cells, id)
    && (cells[id].left >= 0 ==> cells[id].left in placed)
    && (cells[id].above >= 0 ==> cells[id].above in placed)
    && (if |chain| == 1 then cells[id].next == 0
        else cells[id].next == chain[1] && IsChain(cells, chain[1..], placed + {id}))
  }

  // The same cells except for the extents of those not in `placed`.
  ghost predicate Agree(a: Cells, b: Cells, placed: set<nat>) {
    && |a| == |b|
    && (forall x :: 0 <= x < |a| ==> SameData(a[x], b[x]))
    && (forall x :: x in placed && x < |a| ==> a[x] == b[x])
  }

  predicate SameData(a: Cell, b: Cell) {
    a.alt == b.alt && a.left == b.left && a.above == b.above && a.next == b.next
  }

  lemma {:induction false} ChainAgree(a: Cells, b: Cells, chain: seq<nat>, placed: set<nat>)
    requires Agree(a, b, {}) && IsChain(a, chain, placed)
    ensures IsChain(b, chain, placed)
    decreases |chain|
  {
    if |chain| > 1 { ChainAgree(a, b, chain[1..], placed + {chain[0]}); }
  }

  lemma {:induction false} ChainFresh(cells: Cells, chain: seq<nat>, placed: set<nat>, x: nat)
    requires IsChain(cells, chain, placed) && x in chain
    ensures x !in placed && 0 < x < |cells|
    decreases |chain|
  {
    if x != chain[0] { ChainFresh(cells, chain[1..], placed + {chain[0]}, x); }
  }

  // A start position depends only on the neighbours, so a step does not see what
  // sibling branches left behind in cells further down the chain.
  lemma TryAgree(a: Layout, b: Layout, chain: seq<nat>, placed: set<nat>, i: nat, k: nat)
    requires IsChain(a.cells, chain, placed) && Agree(a.cells, b.cells, placed)
    requires a.board == b.board && a.foot == b.foot
    ensures var x, y := Try(a, chain[0], i, k), Try(b, chain[0], i, k);
            && x.Some? == y.Some?
            && (x.Some? ==> x.value.board == y.value.board && x.value.foot == y.value.foot &&
                            Agree(x.value.cells, y.value.cells, placed + {chain[0]}))
  {
    hide Free, Painted;
    var id := chain[0];
    assert SameData(a.cells[id], b.cells[id]);
    assert IsChoice(a.cells, id, i, k) == IsChoice(b.cells, id, i, k);
    if IsChoice(a.cells, id, i, k) {
      var shape := a.cells[id].alt[i];
      assert StartAt(a.cells, id, shape, k) == StartAt(b.cells, id, shape, k);
      var c, d := Placed(a.cells[id], shape, StartAt(a.cells, id, shape, k)),
                  Placed(b.cells[id], shape, StartAt(b.cells, id, shape, k));
      assert c == d;
    }
  }

  lemma {:induction false} FollowAgree(a: Layout, b: Layout, chain: seq<nat>, placed: set<nat>, choices: seq<Choice>)
    requires IsChain(a.cells, chain, placed) && Agree(a.cells, b.cells, placed)
    requires a.board == b.board && a.foot == b.foot
    ensures var x, y := Follow(a, chain[0], choices), Follow(b, chain[0], choices);
            x.Some? == y.Some? && (x.Some? ==> x.value.board == y.value.board && x.value.foot == y.value.foot)
    decreases |choices|
  {
    hide Try, Agree;
    if choices != [] {
      TryAgree(a, b, chain, placed, choices[0].shape, choices[0].start);
      var x := Try(a, chain[0], choices[0].shape, choices[0].start);
      var y := Try(b, chain[0], choices[0].shape, choices[0].start);
      if x.Some? {
        TryKeepsData(a, chain[0], choices[0].shape, choices[0].start);
        TryKeepsData(b, chain[0], choices[0].shape, choices[0].start);
        AgreeData(a.cells, b.cells, placed, chain[0]);
        if |chain| > 1 {
          ChainAgree(a.cells, x.value.cells, chain[1..], placed + {chain[0]});
          FollowAgree(x.value, y.value, chain[1..], placed + {chain[0]}, choices[1..]);
        }
      }
    }
  }

  lemma AgreeData(a: Cells, b: Cells, placed: set<nat>, id: nat)
    requires Agree(a, b, placed) && id < |a|
    ensures id < |b| && SameData(a[id], b[id]) && Agree(a, b, {})
  {
  }

  lemma TryKeepsData(at: Layout, id: nat, i: nat, k: nat)
    requires Try(at, id, i, k).Some?
    ensures var to := Try(at, id, i, k).value;
            id < |at.cells| == |to.cells| && SameData(at.cells[id], to.cells[id]) &&
            Agree(at.cells, to.cells, {}) &&
            (forall x :: 0 <= x < |at.cells| && x != id ==> to.cells[x] == at.cells[x])
  {
    hide Free, Painted;
  }

  /* ----- the footprint only grows ----- */

  lemma AreaMonotone(f: Footprint, g: Footprint)
    requires 0 <= f.rows <= g.rows && 0 <= f.cols <= g.cols
    ensures 0 <= Area(f) <= Area(g)
  {
    assert f.rows * f.cols <= g.rows * f.cols <= g.rows * g.cols;
  }

  predicate Within(f: Footprint, g: Footprint) {
    0 <= f.rows <= g.rows && 0 <= f.cols <= g.cols
  }

  lemma {:induction false} FollowGrows(at: Layout, id: nat, choices: seq<Choice>)
    requires Within(at.foot, at.foot) && Follow(at, id, choices).Some?
    ensures Within(at.foot, Follow(at, id, choices).value.foot)
    decreases |choices|
  {
    hide Free, Painted, StartCount, StartAt;
    var to := Try(at, id, choices[0].shape, choices[0].start).value;
    assert Within(at.foot, to.foot);
    if to.cells[id].next > 0 { FollowGrows(to, to.cells[id].next, choices[1..]); }
  }
}
