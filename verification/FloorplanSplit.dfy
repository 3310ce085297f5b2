// The parallel floorplan drivers: subtrees below the cutoff are searched by tasks
// on private copies, and their results are folded with `combine`.
module FloorplanSplit {
  import opened Wrappers
  import opened FloorplanSpec
  import opened FloorplanSearch
  import opened Floorplan
  import opened FloorplanMeaning

  // Below the cutoff there are cells left: all the work goes to tasks.
  predicate Deep(chain: seq<nat>, cutoff: int) {
    0 <= cutoff && cutoff + 1 < |chain|
  }

  // A task is a proper search of the cells below the cutoff.
  ghost predicate TaskOk(t: Task, minArea: int, chain: seq<nat>, placed: set<nat>, cutoff: int)
    requires Deep(chain, cutoff)
  {
    && t.minArea == minArea
    && Ready(t.at, chain[cutoff + 1..], placed + Elements(chain[..cutoff + 1]))
    && TaskStart(t) == chain[cutoff + 1]
  }

  // Either every complete placement lies below the cutoff, and then the driver
  // itself finds none and all tasks start from its bound; or there are no tasks.
  ghost predicate Divides(r: Result, r': Result, tasks: seq<Task>, chain: seq<nat>, placed: set<nat>, cutoff: int) {
    if Deep(chain, cutoff) then
      r' == r && forall t :: t in tasks ==> TaskOk(t, r.area, chain, placed, cutoff)
    else tasks == []
  }

  lemma DividesMore(r: Result, r1: Result, r2: Result, a: seq<Task>, b: seq<Task>, chain: seq<nat>, placed: set<nat>,
                    cutoff: int)
    requires Divides(r, r1, a, chain, placed, cutoff) && Divides(r1, r2, b, chain, placed, cutoff)
    ensures Divides(r, r2, a + b, chain, placed, cutoff)
  {
    hide TaskOk;
  }

  lemma DividesUp(r: Result, r': Result, tasks: seq<Task>, chain: seq<nat>, placed: set<nat>, cutoff: int)
    requires |chain| > 1 && cutoff != 0 && Divides(r, r', tasks, chain[1..], placed + {chain[0]}, cutoff - 1)
    ensures Divides(r, r', tasks, chain, placed, cutoff)
  {
    if Deep(chain, cutoff) {
      assert chain[1..][cutoff..] == chain[cutoff + 1..];
      assert chain[..cutoff + 1] == [chain[0]] + chain[1..][..cutoff];
      assert placed + {chain[0]} + Elements(chain[1..][..cutoff]) == placed + Elements(chain[..cutoff + 1]);
    }
  }

  // One turn of the innermost loop of add_cell_threads and add_cell_dispatcher.
  method VisitSplit(tasks: seq<Task>, cutoff: int, result: ResultData, id: nat, i: nat, nw: Corner,
                    prevFootprint: Footprint, prevBoard: array<int>, cells: array<Cell>,
                    ghost k: nat, ghost at: Layout, ghost chain: seq<nat>, ghost placed: set<nat>)
    returns (tasks': seq<Task>, ghost more: seq<Task>)
    requires Ready(at, chain, placed) && chain[0] == id && Touches(at.cells, cells[..], chain)
    requires IsChoice(at.cells, id, i, k) && nw == StartAt(at.cells, id, at.cells[id].alt[i], k)
    requires prevBoard[..] == at.board && prevFootprint == at.foot
    modifies result, cells
    ensures Touches(at.cells, cells[..], chain) && tasks' == tasks + more
    ensures OneMore(old(result.View()), result.View(), more, at, id, i, k)
    ensures Divides(old(result.View()), result.View(), more, chain, placed, cutoff)
    decreases |chain|, 0
  {
    hide Free, Painted, StartCount, StartAt, Agree, IsChain, StaysOnBoard;
    hide Optimal, OneMore, Area, Try, Mark, TaskOk, Ready;
    PlacedFacts(at, cells[..], chain, placed, i, k);
    cells[id] := Placed(cells[id], cells[id].alt[i], nw);
    TryIs(at, id, i, k, Placed(at.cells[id], at.cells[id].alt[i], nw));
    var board := new int[SIZE * SIZE](s requires 0 <= s < prevBoard.Length reads prevBoard => prevBoard[s]);
    assert board[..] == prevBoard[..];
    tasks', more := tasks, [];
    assert tasks == tasks + [];
    var ok := LayDown(id, board, cells);
    if !ok {
      SkipUnfit(result.View(), at, id, i, k);
      return;
    }
    var footprint := Footprint(Max(prevFootprint.rows, cells[id].bot + 1), Max(prevFootprint.cols, cells[id].rhs + 1));
    var area := footprint.rows * footprint.cols;
    AreaIs(footprint);
    ghost var to := Try(at, id, i, k).value;
    if cells[id].next == 0 {
      LastCell(at, chain, placed);
      TakeComplete(result.View(), at, id, i, k);
      if area < result.minArea {
        result.minArea := area;
        result.minFootprint := footprint;
        result.bestBoard := board[..];
      }
    } else if area < result.minArea {
      NextReady(at, cells[..], chain, placed, i, k);
      ghost var from, r := Layout(cells[..], board[..], footprint), result.View();
      if cutoff == 0 {
        var task := Task(result.minArea, Layout(cells[..], board[..], footprint), id);
        tasks', more := tasks + [task], [task];
        Delegate(task, r, at, chain, placed, i, k);
      } else {
        tasks', more := AddCellSplit(tasks, cutoff - 1, result, cells[id].next, footprint, board, cells,
                                     chain[1..], placed + {id});
        AgreeSymmetric(to.cells, from.cells, placed + {id});
        OptimalAgree(r, result.View(), more, from, to, chain[1..], placed + {id});
        TakeRest(r, result.View(), more, at, id, i, k);
        DividesUp(r, result.View(), more, chain, placed, cutoff);
        TouchesTail(at.cells, from.cells, cells[..], chain);
      }
    } else {
      LargeIsSafe(result.View(), at, chain, placed, i, k);
    }
  }

  lemma LastCell(at: Layout, chain: seq<nat>, placed: set<nat>)
    requires Ready(at, chain, placed) && at.cells[chain[0]].next == 0
    ensures |chain| == 1
  {
    if |chain| > 1 { ChainFresh(at.cells, chain, placed, chain[1]); }
  }

  lemma PlacedFacts(at: Layout, before: Cells, chain: seq<nat>, placed: set<nat>, i: nat, k: nat)
    requires Ready(at, chain, placed) && Touches(at.cells, before, chain) && IsChoice(at.cells, chain[0], i, k)
    ensures var id := chain[0];
            var shape := at.cells[id].alt[i];
            var nw := StartAt(at.cells, id, shape, k);
            && 0 < id < |before| && before[id].alt == at.cells[id].alt && before[id].next == at.cells[id].next
            && Placed(before[id], shape, nw) == Placed(at.cells[id], shape, nw)
            && OnBoard(Placed(at.cells[id], shape, nw))
            && Touches(at.cells, before[id := Placed(before[id], shape, nw)], chain)
            && Agree(at.cells[id := Placed(at.cells[id], shape, nw)],
                     before[id := Placed(before[id], shape, nw)], placed + {id})
  {
    PlacedAgrees(at, before, chain, placed, i, k);
    ChoiceFacts(at, chain, placed, i, k);
  }

  lemma NextReady(at: Layout, after: Cells, chain: seq<nat>, placed: set<nat>, i: nat, k: nat)
    requires Ready(at, chain, placed) && Try(at, chain[0], i, k).Some? && at.cells[chain[0]].next != 0
    requires Agree(Try(at, chain[0], i, k).value.cells, after, placed + {chain[0]})
    ensures |chain| > 1 && at.cells[chain[0]].next == chain[1] > 0
    ensures var to := Try(at, chain[0], i, k).value;
            && chain[0] < |to.cells| && to.cells[chain[0]].next == chain[1]
            && IsChain(to.cells, chain[1..], placed + {chain[0]})
            && Ready(Layout(after, to.board, to.foot), chain[1..], placed + {chain[0]})
            && IsChain(after, chain[1..], placed + {chain[0]})
            && chain[0] < |after| && after[chain[0]].next == chain[1]
  {
    NextFacts(at, chain, placed, i, k);
    ReadyNext(at, after, chain, placed, i, k);
    AgreeData(Try(at, chain[0], i, k).value.cells, after, placed + {chain[0]}, chain[0]);
  }

  lemma LargeIsSafe(r: Result, at: Layout, chain: seq<nat>, placed: set<nat>, i: nat, k: nat)
    requires Ready(at, chain, placed) && Try(at, chain[0], i, k).Some?
    requires Area(Try(at, chain[0], i, k).value.foot) >= r.area
    ensures OneMore(r, r, [], at, chain[0], i, k)
  {
    SkipLarge(r, at, chain[0], i, k);
  }

  // The task pushed at cutoff 0 is the search of the rest of the chain.
  lemma Delegate(t: Task, r: Result, at: Layout, chain: seq<nat>, placed: set<nat>, i: nat, k: nat)
    requires |chain| > 1 && Try(at, chain[0], i, k).Some? && t.parent == chain[0] && t.minArea == r.area
    requires var to := Try(at, chain[0], i, k).value;
             && chain[0] < |to.cells| && to.cells[chain[0]].next == chain[1] > 0
             && IsChain(to.cells, chain[1..], placed + {chain[0]})
             && Agree(to.cells, t.at.cells, placed + {chain[0]})
             && t.at.board == to.board && t.at.foot == to.foot
    requires Ready(t.at, chain[1..], placed + {chain[0]})
    requires chain[0] < |t.at.cells| && t.at.cells[chain[0]].next == chain[1]
    ensures OneMore(r, r, [t], at, chain[0], i, k)
    ensures Divides(r, r, [t], chain, placed, 0)
  {
    hide Free, Painted, StartCount, StartAt, Agree, StaysOnBoard, IsChain, Try, Follow, Area, Yields;
    var to := Try(at, chain[0], i, k).value;
    forall x ensures Yields(to, chain[1], x) <==> TaskYields(t, x) {
      YieldsAgree(to, t.at, chain[1..], placed + {chain[0]}, x);
    }
    HandOver(r, t, at, chain[0], i, k);
    assert chain[..1] == [chain[0]];
    assert placed + Elements(chain[..1]) == placed + {chain[0]};
  }

  // add_cell_threads / add_cell_dispatcher
  method AddCellSplit(tasks: seq<Task>, cutoff: int, result: ResultData, id: nat, prevFootprint: Footprint,
                      prevBoard: array<int>, cells: array<Cell>, ghost chain: seq<nat>, ghost placed: set<nat>)
    returns (tasks': seq<Task>, ghost more: seq<Task>)
    requires prevBoard.Length == SIZE * SIZE
    requires Ready(Layout(cells[..], prevBoard[..], prevFootprint), chain, placed) && chain[0] == id
    modifies result, cells
    ensures Touches(old(cells[..]), cells[..], chain) && tasks' == tasks + more
    ensures Optimal(old(result.View()), result.View(), more, Layout(old(cells[..]), prevBoard[..], prevFootprint), id)
    ensures Divides(old(result.View()), result.View(), more, chain, placed, cutoff)
    decreases |chain|, 1
  {
    hide Free, Painted, Area, Try, OneMore, Tracks, Optimal, StartAt, TaskOk;
    ghost var at, r := Layout(cells[..], prevBoard[..], prevFootprint), result.View();
    var nws := new Corner[DMAX](_ => Corner(0, 0));
    TracksNothing(r, at, id);
    tasks', more := tasks, [];
    for i := 0 to |cells[id].alt|
      invariant Touches(at.cells, cells[..], chain) && prevBoard[..] == at.board && tasks' == tasks + more
      invariant Tracks(r, result.View(), more, at, id, i, 0)
      invariant Divides(r, result.View(), more, chain, placed, cutoff)
    {
      SameStarts(at, cells[..], chain, placed, i);
      var n := Starts(id, i, nws, cells);
      for k := 0 to n
        invariant Touches(at.cells, cells[..], chain) && prevBoard[..] == at.board && tasks' == tasks + more
        invariant forall x :: 0 <= x < n ==> nws[x] == StartAt(at.cells, id, at.cells[id].alt[i], x)
        invariant Tracks(r, result.View(), more, at, id, i, k)
        invariant Divides(r, result.View(), more, chain, placed, cutoff)
      {
        ghost var r1, here := result.View(), [];
        tasks', here := VisitSplit(tasks', cutoff, result, id, i, nws[k], prevFootprint, prevBoard, cells,
                                   k, at, chain, placed);
        TracksStep(r, r1, result.View(), more, here, at, id, i, k);
        DividesMore(r, r1, result.View(), more, here, chain, placed, cutoff);
        assert (tasks + more) + here == tasks + (more + here);
        more := more + here;
      }
      TracksNextShape(r, result.View(), more, at, id, i, n);
    }
    TracksAll(r, result.View(), more, at, id, |at.cells[id].alt|);
  }

  /* ----- running the tasks and folding their results ----- */

  // combine: on a tie the second one wins.
  function Combine(a: Result, b: Result): Result {
    if a.area < b.area then a else b
  }

  function Fold(r: Result, results: seq<Result>): Result {
    if results == [] then r
    else Combine(Fold(r, results[..|results| - 1]), results[|results| - 1])
  }

  lemma {:induction false} FoldIsMinimum(r: Result, results: seq<Result>)
    ensures var f := Fold(r, results);
            && f.area <= r.area && (forall x :: x in results ==> f.area <= x.area)
            && (f == r || f in results)
  {
    if results != [] {
      var n := |results| - 1;
      FoldIsMinimum(r, results[..n]);
      assert forall x :: x in results <==> x in results[..n] || x == results[n];
    }
  }

  // Of several results of the least area the latest is kept.
  lemma {:induction false} FoldTakesLatest(r: Result, results: seq<Result>, k: nat)
    requires k < |results| && results[k].area <= r.area
    requires forall l :: 0 <= l < k ==> results[k].area <= results[l].area
    requires forall l :: k < l < |results| ==> results[k].area < results[l].area
    ensures Fold(r, results) == results[k]
  {
    var n := |results| - 1;
    if k == n {
      FoldIsMinimum(r, results[..n]);
      assert forall x :: x in results[..n] ==> results[n].area <= x.area;
    } else {
      FoldTakesLatest(r, results[..n], k);
    }
  }

  ghost predicate TaskDone(t: Task, x: Result) {
    Optimal(Result(t.minArea, EmptyBoard(), Footprint(0, 0)), x, [], t.at, TaskStart(t))
  }

  // Main result on the split: folding what the tasks found, in their order and
  // with ties to the later one, gives an optimal result of the whole search, and
  // one that shows a placement whenever it beats the empty board.
  lemma SplitIsOptimal(r: Result, tasks: seq<Task>, results: seq<Result>, at: Layout, chain: seq<nat>, cutoff: int)
    requires chain != [] && |results| == |tasks|
    requires Optimal(Fresh(), r, tasks, at, chain[0]) && Divides(Fresh(), r, tasks, chain, {0}, cutoff)
    requires forall j :: 0 <= j < |tasks| ==> TaskDone(tasks[j], results[j])
    ensures Optimal(Fresh(), Fold(r, results), [], at, chain[0])
  {
    hide Area, Follow, Ready;
    var f := Fold(r, results);
    FoldIsMinimum(r, results);
    if Deep(chain, cutoff) {
      forall j | 0 <= j < |tasks|
        ensures results[j] == Fresh() || (results[j].area < Fresh().area && TaskYields(tasks[j], results[j]))
      {
        assert tasks[j] in tasks && TaskDone(tasks[j], results[j]);
      }
      forall choices, o | Completes(at, chain[0], choices, o)
        ensures f.area <= Area(o.foot)
      {
        assert Covers(r, tasks, o);
        if Delegated(tasks, ResultOf(o)) {
          var t :| t in tasks && TaskYields(t, ResultOf(o));
          var j :| 0 <= j < |tasks| && tasks[j] == t;
          TaskFinds(t, results[j], o);
          assert results[j] in results;
        }
      }
      if f != r {
        var j :| 0 <= j < |results| && results[j] == f;
        assert tasks[j] in tasks;
      }
    } else {
      assert forall o :: !Delegated([], ResultOf(o));
    }
  }

  lemma TaskFinds(t: Task, x: Result, o: Layout)
    requires TaskDone(t, x) && TaskYields(t, ResultOf(o))
    ensures x.area <= Area(o.foot)
  {
    hide Area, Follow;
    var choices, o' :| Completes(t.at, TaskStart(t), choices, o') && ResultOf(o) == ResultOf(o');
    assert Covers(x, [], o');
  }

  // The body of a task: a fresh result with the bound of the moment, private copies
  // of cells and board.
  method RunTask(t: Task, ghost chain: seq<nat>, ghost placed: set<nat>) returns (r: Result)
    requires Ready(t.at, chain, placed) && TaskStart(t) == chain[0] > 0
    ensures TaskDone(t, r)
  {
    hide Ready, Optimal;
    var board := new int[SIZE * SIZE](s requires 0 <= s < SIZE * SIZE => t.at.board[s]);
    assert board[..] == t.at.board;
    var n := |t.at.cells|;
    var cells := new Cell[n](x requires 0 <= x < n => t.at.cells[x]);
    assert cells[..] == t.at.cells;
    var result := new ResultData(t.minArea);
    AddCell(result, cells[t.parent].next, t.at.foot, board, cells, chain, placed);
    r := Result(result.minArea, result.bestBoard, result.minFootprint);
  }

  // The tasks finish in any order, each into its own slot.
  method RunTasks(tasks: seq<Task>, ghost chain: seq<nat>, ghost placed: set<nat>) returns (results: seq<Result>)
    requires forall t :: t in tasks ==> chain != [] && Ready(t.at, chain, placed) && TaskStart(t) == chain[0] > 0
    ensures |results| == |tasks|
    ensures forall j :: 0 <= j < |tasks| ==> TaskDone(tasks[j], results[j])
  {
    hide Ready, TaskDone;
    var slots := new Result[|tasks|](_ => Result(0, seq(SIZE * SIZE, _ => 0), Footprint(0, 0)));
    var pending := UpTo(|tasks|);
    while pending != {}
      invariant forall j :: j in pending ==> 0 <= j < |tasks|
      invariant forall j :: 0 <= j < |tasks| && j !in pending ==> TaskDone(tasks[j], slots[j])
      decreases pending
    {
      var j :| j in pending;
      assert tasks[j] in tasks;
      slots[j] := RunTask(tasks[j], chain, placed);
      pending := pending - {j};
    }
    results := slots[..];
  }

  // The results are folded in the order of dispatch.
  method FoldResults(r: Result, results: seq<Result>) returns (f: Result)
    ensures f == Fold(r, results)
  {
    f := r;
    assert results[..0] == [];
    for j := 0 to |results|
      invariant f == Fold(r, results[..j])
    {
      assert results[..j + 1][..j] == results[..j];
      f := Combine(f, results[j]);
    }
    assert results[..|results|] == results;
  }

  // floorplan (threads and dispatcher)
  method Parallel(cells: array<Cell>, cutoff: int, ghost chain: seq<nat>) returns (r: Result)
    requires Ready(Blank(cells[..]), chain, {0}) && chain != [] && chain[0] == 1
    modifies cells
    ensures Optimal(Fresh(), r, [], Blank(old(cells[..])), 1)
    ensures IsMinimum(old(cells[..]), chain, r, rects => Apart(chain, rects))
  {
    hide Ready, Optimal, TaskDone, TaskOk, IsMinimum;
    ReadyIsChain(Blank(cells[..]), chain, {0});
    ghost var at := Blank(cells[..]);
    var board := new int[SIZE * SIZE](_ => 0);
    assert board[..] == EmptyBoard();
    var result := new ResultData(SIZE * SIZE);
    var tasks: seq<Task>;
    ghost var more;
    tasks, more := AddCellSplit([], cutoff, result, 1, Footprint(0, 0), board, cells, chain, {0});
    assert tasks == more;
    var main := Result(result.minArea, result.bestBoard, result.minFootprint);
    ghost var rest := if Deep(chain, cutoff) then chain[cutoff + 1..] else [];
    ghost var placed := if Deep(chain, cutoff) then {0} + Elements(chain[..cutoff + 1]) else {};
    forall t | t in tasks
      ensures rest != [] && Ready(t.at, rest, placed) && TaskStart(t) == rest[0] > 0
    {
      TaskIsReady(t, Fresh().area, chain, cutoff);
    }
    var results := RunTasks(tasks, rest, placed);
    r := FoldResults(main, results);
    SplitIsOptimal(main, tasks, results, at, chain, cutoff);
    MinimumApart(at.cells, chain, r);
  }

  lemma TaskIsReady(t: Task, minArea: int, chain: seq<nat>, cutoff: int)
    requires Deep(chain, cutoff) && TaskOk(t, minArea, chain, {0}, cutoff)
    ensures Ready(t.at, chain[cutoff + 1..], {0} + Elements(chain[..cutoff + 1]))
    ensures TaskStart(t) == chain[cutoff + 1..][0] > 0
  {
  }
}
