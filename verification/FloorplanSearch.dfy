// What a search over part of the placements has established, and how each branch
// of the search extends it.
module FloorplanSearch {
  import opened Wrappers
  import opened FloorplanSpec

  // result_data
  datatype Result = Result(area: int, board: Board, foot: Footprint)

  // result_data {} with the area of the whole board.
  function Fresh(): Result {
    Result(SIZE * SIZE, EmptyBoard(), Footprint(0, 0))
  }

  function ResultOf(l: Layout): Result {
    Result(Area(l.foot), l.board, l.foot)
  }

  // A complete placement: its final layout, when the choices work out.
  ghost predicate Completes(at: Layout, id: nat, choices: seq<Choice>, o: Layout) {
    Follow(at, id, choices) == Some(o)
  }

  // x shows some complete placement from `at`.
  ghost predicate Yields(at: Layout, id: nat, x: Result) {
    exists choices, o :: Completes(at, id, choices, o) && x == ResultOf(o)
  }

  // A subtree handed to another worker: the bound at that moment, a private copy of
  // the cells and the board, and the cell after which the search goes on.
  datatype Task = Task(minArea: int, at: Layout, parent: nat)

  function TaskStart(t: Task): nat {
    if t.parent < |t.at.cells| && t.at.cells[t.parent].next > 0 then t.at.cells[t.parent].next else 0
  }

  ghost predicate TaskYields(t: Task, x: Result) {
    Yields(t.at, TaskStart(t), x)
  }

  ghost predicate Delegated(tasks: seq<Task>, x: Result) {
    exists t :: t in tasks && TaskYields(t, x)
  }

  // r' improves r only by a complete placement, and so would the tasks.
  ghost predicate Sound(r: Result, r': Result, tasks: seq<Task>, at: Layout, id: nat) {
    && r'.area <= r.area
    && (r' == r || (r'.area < r.area && Yields(at, id, r')))
    && (forall t, x :: t in tasks && TaskYields(t, x) ==> Yields(at, id, x))
  }

  // o is no better than r', or some task will find it.
  ghost predicate Covers(r': Result, tasks: seq<Task>, o: Layout) {
    r'.area <= Area(o.foot) || Delegated(tasks, ResultOf(o))
  }

  // r' together with the tasks is the best of r and all complete placements from
  // `at`. Without tasks: no placement has a smaller footprint area than r', and r'
  // is r itself or shows a placement that is smaller.
  ghost predicate Optimal(r: Result, r': Result, tasks: seq<Task>, at: Layout, id: nat) {
    && Sound(r, r', tasks, at, id)
    && (forall choices, o :: Completes(at, id, choices, o) ==> Covers(r', tasks, o))
  }

  predicate Before(choices: seq<Choice>, i: nat, k: nat) {
    choices != [] && (choices[0].shape < i || (choices[0].shape == i && choices[0].start < k))
  }

  predicate Takes(choices: seq<Choice>, i: nat, k: nat) {
    choices != [] && choices[0] == Choice(i, k)
  }

  // The same for the placements whose first choice comes before (i, k) ...
  ghost predicate Tracks(r: Result, r': Result, tasks: seq<Task>, at: Layout, id: nat, i: nat, k: nat) {
    && Sound(r, r', tasks, at, id)
    && (forall choices, o :: Completes(at, id, choices, o) && Before(choices, i, k) ==> Covers(r', tasks, o))
  }

  // ... and for those whose first choice is (i, k).
  ghost predicate OneMore(r: Result, r': Result, tasks: seq<Task>, at: Layout, id: nat, i: nat, k: nat) {
    && Sound(r, r', tasks, at, id)
    && (forall choices, o :: Completes(at, id, choices, o) && Takes(choices, i, k) ==> Covers(r', tasks, o))
  }

  lemma CoversMore(r: Result, r': Result, tasks: seq<Task>, more: seq<Task>, o: Layout)
    requires r'.area <= r.area && (Covers(r, tasks, o) || Covers(r', more, o))
    ensures Covers(r', tasks + more, o)
  {
    hide Area, Yields;
    if Delegated(tasks, ResultOf(o)) {
      var t :| t in tasks && TaskYields(t, ResultOf(o));
      assert t in tasks + more;
    }
    if Delegated(more, ResultOf(o)) {
      var t :| t in more && TaskYields(t, ResultOf(o));
      assert t in tasks + more;
    }
  }

  lemma TracksStep(r: Result, r1: Result, r2: Result, tasks: seq<Task>, more: seq<Task>, at: Layout, id: nat, i: nat,
                   k: nat)
    requires Tracks(r, r1, tasks, at, id, i, k) && OneMore(r1, r2, more, at, id, i, k)
    ensures Tracks(r, r2, tasks + more, at, id, i, k + 1)
  {
    hide Follow, Area, Yields, Covers;
    forall choices, o | Completes(at, id, choices, o) && Before(choices, i, k + 1)
      ensures Covers(r2, tasks + more, o)
    {
      assert Before(choices, i, k) || Takes(choices, i, k);
      CoversMore(r1, r2, tasks, more, o);
    }
  }

  lemma TracksNothing(r: Result, at: Layout, id: nat)
    ensures Tracks(r, r, [], at, id, 0, 0)
  {
  }

  lemma TracksNextShape(r: Result, r': Result, tasks: seq<Task>, at: Layout, id: nat, i: nat, k: nat)
    requires Tracks(r, r', tasks, at, id, i, k) && !IsChoice(at.cells, id, i, k)
    ensures Tracks(r, r', tasks, at, id, i + 1, 0)
  {
    hide Area, Free, Painted, StartCount, StartAt, Sound, Covers;
    forall choices, o | Completes(at, id, choices, o) && Before(choices, i + 1, 0)
      ensures Before(choices, i, k)
    {
    }
  }

  lemma TracksAll(r: Result, r': Result, tasks: seq<Task>, at: Layout, id: nat, i: nat)
    requires Tracks(r, r', tasks, at, id, i, 0) && id < |at.cells| && i == |at.cells[id].alt|
    ensures Optimal(r, r', tasks, at, id)
  {
    hide Area, Free, Painted, StartCount, StartAt, Sound, Covers;
    forall choices, o | Completes(at, id, choices, o)
      ensures Before(choices, i, 0)
    {
    }
  }

  /* ----- the branches of the innermost loop ----- */

  // The cell does not fit.
  lemma SkipUnfit(r: Result, at: Layout, id: nat, i: nat, k: nat)
    requires Try(at, id, i, k).None?
    ensures OneMore(r, r, [], at, id, i, k)
  {
    hide Area, Try;
  }

  // The footprint is already too big.
  lemma SkipLarge(r: Result, at: Layout, id: nat, i: nat, k: nat)
    requires Try(at, id, i, k).Some? && Within(at.foot, at.foot)
    requires Area(Try(at, id, i, k).value.foot) >= r.area
    ensures OneMore(r, r, [], at, id, i, k)
  {
    hide Area, Free, Painted, StartCount, StartAt;
    var to := Try(at, id, i, k).value;
    forall choices, o | Completes(at, id, choices, o) && Takes(choices, i, k)
      ensures r.area <= Area(o.foot)
    {
      if to.cells[id].next > 0 { FollowGrows(to, to.cells[id].next, choices[1..]); }
      AreaMonotone(to.foot, o.foot);
    }
  }

  // The last cell: the placement is complete.
  lemma TakeComplete(r: Result, at: Layout, id: nat, i: nat, k: nat)
    requires Try(at, id, i, k).Some? && Try(at, id, i, k).value.cells[id].next == 0
    ensures var to := Try(at, id, i, k).value;
            OneMore(r, if Area(to.foot) < r.area then ResultOf(to) else r, [], at, id, i, k)
  {
    hide Area, Try;
    var to := Try(at, id, i, k).value;
    assert Completes(at, id, [Choice(i, k)], to) && Takes([Choice(i, k)], i, k);
  }

  // A placement of the rest of the chain is one of the whole chain.
  lemma YieldsUp(at: Layout, id: nat, i: nat, k: nat, x: Result)
    requires Try(at, id, i, k).Some? && Try(at, id, i, k).value.cells[id].next > 0
    ensures var to := Try(at, id, i, k).value;
            Yields(to, to.cells[id].next, x) ==> Yields(at, id, x)
  {
    hide Area, Try;
    TryKeepsData(at, id, i, k);
    var to := Try(at, id, i, k).value;
    var next := to.cells[id].next;
    if Yields(to, next, x) {
      var choices, o :| Completes(to, next, choices, o) && x == ResultOf(o);
      var all := [Choice(i, k)] + choices;
      assert all[1..] == choices;
      assert Completes(at, id, all, o);
    }
  }

  // The rest of the chain was searched.
  lemma TakeRest(r: Result, r': Result, tasks: seq<Task>, at: Layout, id: nat, i: nat, k: nat)
    requires Try(at, id, i, k).Some? && Try(at, id, i, k).value.cells[id].next > 0
    requires var to := Try(at, id, i, k).value; Optimal(r, r', tasks, to, to.cells[id].next)
    ensures OneMore(r, r', tasks, at, id, i, k)
  {
    hide Area, Try, Yields, Covers, TaskYields;
    TryKeepsData(at, id, i, k);
    var to := Try(at, id, i, k).value;
    forall choices, o | Completes(at, id, choices, o) && Takes(choices, i, k)
      ensures Covers(r', tasks, o)
    {
      assert Completes(to, to.cells[id].next, choices[1..], o);
    }
    forall x ensures Yields(to, to.cells[id].next, x) ==> Yields(at, id, x) { YieldsUp(at, id, i, k, x); }
  }

  // The rest of the chain is left to a task.
  lemma HandOver(r: Result, t: Task, at: Layout, id: nat, i: nat, k: nat)
    requires Try(at, id, i, k).Some? && Try(at, id, i, k).value.cells[id].next > 0
    requires var to := Try(at, id, i, k).value;
             t.parent == id && TaskStart(t) == to.cells[id].next &&
             forall x :: Yields(to, to.cells[id].next, x) <==> TaskYields(t, x)
    ensures OneMore(r, r, [t], at, id, i, k)
  {
    hide Area, Try;
    TryKeepsData(at, id, i, k);
    var to := Try(at, id, i, k).value;
    forall choices, o | Completes(at, id, choices, o) && Takes(choices, i, k)
      ensures Covers(r, [t], o)
    {
      assert Completes(to, to.cells[id].next, choices[1..], o);
      assert TaskYields(t, ResultOf(o));
    }
    forall x ensures TaskYields(t, x) ==> Yields(at, id, x) { YieldsUp(at, id, i, k, x); }
  }

  // Cells that agree where it matters yield the same placements.
  lemma YieldsAgree(a: Layout, b: Layout, chain: seq<nat>, placed: set<nat>, x: Result)
    requires IsChain(a.cells, chain, placed) && Agree(a.cells, b.cells, placed)
    requires a.board == b.board && a.foot == b.foot
    ensures Yields(a, chain[0], x) <==> Yields(b, chain[0], x)
  {
    hide Area, Follow, Agree;
    if Yields(a, chain[0], x) {
      var choices, o :| Completes(a, chain[0], choices, o) && x == ResultOf(o);
      FollowAgree(a, b, chain, placed, choices);
      assert Completes(b, chain[0], choices, Follow(b, chain[0], choices).value);
    }
    if Yields(b, chain[0], x) {
      var choices, o :| Completes(b, chain[0], choices, o) && x == ResultOf(o);
      FollowAgree(a, b, chain, placed, choices);
      assert Completes(a, chain[0], choices, Follow(a, chain[0], choices).value);
    }
  }

  // The minimum is determined by the input: two optimal results have the same area.
  lemma SameMinimum(r: Result, a: Result, b: Result, at: Layout, id: nat)
    requires Optimal(r, a, [], at, id) && Optimal(r, b, [], at, id)
    ensures a.area == b.area
  {
    hide Area, Follow;
    if a != r {
      var choices, o :| Completes(at, id, choices, o) && a == ResultOf(o);
      assert Covers(b, [], o);
    }
    if b != r {
      var choices, o :| Completes(at, id, choices, o) && b == ResultOf(o);
      assert Covers(a, [], o);
    }
  }

  // A search on cells that agree where it matters is a search on these.
  lemma OptimalAgree(r: Result, r': Result, tasks: seq<Task>, a: Layout, b: Layout, chain: seq<nat>, placed: set<nat>)
    requires IsChain(a.cells, chain, placed) && Agree(a.cells, b.cells, placed)
    requires a.board == b.board && a.foot == b.foot
    requires Optimal(r, r', tasks, a, chain[0])
    ensures Optimal(r, r', tasks, b, chain[0])
  {
    hide Area, Follow, Agree, Yields, TaskYields;
    forall x ensures Yields(a, chain[0], x) <==> Yields(b, chain[0], x) { YieldsAgree(a, b, chain, placed, x); }
    forall choices, o | Completes(b, chain[0], choices, o)
      ensures Covers(r', tasks, o)
    {
      FollowAgree(a, b, chain, placed, choices);
      var o' := Follow(a, chain[0], choices).value;
      assert Completes(a, chain[0], choices, o') && ResultOf(o') == ResultOf(o);
    }
  }

  /* ----- what the search demands of its input ----- */

  // Every start position that is enumerated, pruned or not, keeps the cell on the
  // board, and there are between 0 and DMAX of them.
  ghost predicate StaysOnBoard(at: Layout, chain: seq<nat>)
    requires chain != []
    decreases |chain|, 1
  {
    HasNeighbours(at.cells, chain[0]) &&
    (forall i :: 0 <= i < |at.cells[chain[0]].alt| ==>
       0 <= StartCount(at.cells, chain[0], at.cells[chain[0]].alt[i]) <= DMAX) &&
    (forall i, k :: IsChoice(at.cells, chain[0], i, k) ==> ChoiceStays(at, chain, i, k))
  }

  ghost predicate ChoiceStays(at: Layout, chain: seq<nat>, i: nat, k: nat)
    requires chain != [] && IsChoice(at.cells, chain[0], i, k)
    decreases |chain|, 0
  {
    var id := chain[0];
    var shape := at.cells[id].alt[i];
    OnBoard(Placed(at.cells[id], shape, StartAt(at.cells, id, shape, k))) &&
    (|chain| > 1 && Try(at, id, i, k).Some? ==> StaysOnBoard(Try(at, id, i, k).value, chain[1..]))
  }

  lemma {:induction false} StaysAgree(a: Layout, b: Layout, chain: seq<nat>, placed: set<nat>)
    requires IsChain(a.cells, chain, placed) && Agree(a.cells, b.cells, placed)
    requires a.board == b.board && a.foot == b.foot && StaysOnBoard(a, chain)
    ensures StaysOnBoard(b, chain)
    decreases |chain|
  {
    hide Free, Painted;
    var id := chain[0];
    assert SameData(a.cells[id], b.cells[id]);
    forall i | 0 <= i < |b.cells[id].alt|
      ensures StartCount(b.cells, id, b.cells[id].alt[i]) == StartCount(a.cells, id, a.cells[id].alt[i])
    {
    }
    forall i, k | IsChoice(b.cells, id, i, k)
      ensures ChoiceStays(b, chain, i, k)
    {
      assert ChoiceStays(a, chain, i, k);
      TryAgree(a, b, chain, placed, i, k);
      if |chain| > 1 && Try(b, id, i, k).Some? {
        TryKeepsData(a, id, i, k);
        ChainAgree(a.cells, Try(a, id, i, k).value.cells, chain[1..], placed + {id});
        StaysAgree(Try(a, id, i, k).value, Try(b, id, i, k).value, chain[1..], placed + {id});
      }
    }
  }
}
