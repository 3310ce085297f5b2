// The parallel knapsack drivers: the first items are decided by enumeration, every
// combination becomes an independent search, and the maximum is taken.
module KnapsackSplit {
  import opened Wrappers
  import opened Knapsack
  import Words

  datatype Task = Task(items: seq<Item>, c: int, v: int)

  // The tasks, in the order of dispatch: for each undecided item first without it,
  // then with it.
  function TaskList(split: nat, items: seq<Item>, c: int, v: int): seq<Task>
    requires 1 <= split <= |items|
    decreases |items|
  {
    var with := Task(items[1..], c - items[0].weight, v + items[0].value);
    if |items| == split then [Task(items[1..], c, v), with]
    else TaskList(split, items[1..], c, v) + TaskList(split, items[1..], with.c, with.v)
  }

  lemma {:induction false} TaskCount(split: nat, items: seq<Item>, c: int, v: int)
    requires 1 <= split <= |items|
    ensures |TaskList(split, items, c, v)| == Words.Pow2(|items| - split + 1)
    decreases |items|
  {
    if |items| > split {
      TaskCount(split, items[1..], c, v);
      TaskCount(split, items[1..], c - items[0].weight, v + items[0].value);
    }
  }

  // The items among the first m that number k takes: those of its binary digits that are
  // 1, the first item being the highest digit.
  function Taken(items: seq<Item>, m: nat, k: nat): seq<Item>
    requires m <= |items|
  {
    if m == 0 then []
    else
      var half := Words.Pow2(m - 1);
      (if k / half % 2 == 1 then [items[0]] else []) + Taken(items[1..], m - 1, k % half)
  }

  // Task k has decided the enumerated items by the binary digits of k.
  lemma {:induction false} TaskAt(split: nat, items: seq<Item>, c: int, v: int, k: nat)
    requires 1 <= split <= |items| && k < Words.Pow2(|items| - split + 1)
    ensures |TaskList(split, items, c, v)| == Words.Pow2(|items| - split + 1)
    ensures var m := |items| - split + 1;
            var taken := Taken(items, m, k);
            TaskList(split, items, c, v)[k] == Task(items[m..], c - TotalWeight(taken), v + TotalValue(taken))
    decreases |items|
  {
    hide Taken, TotalWeight, TotalValue, Words.Pow2;
    TaskCount(split, items, c, v);
    var m, rest := |items| - split + 1, items[1..];
    var half := Words.Pow2(m - 1);
    TakenStep(items, m, k);
    assert rest[m - 1..] == items[m..];
    if m == 1 {
      LastTaken(items, k);
    } else {
      TaskCount(split, rest, c, v);
      if k < half {
        TaskAt(split, rest, c, v, k);
      } else {
        TaskAt(split, rest, c - items[0].weight, v + items[0].value, k - half);
        TotalsCons(items[0], Taken(rest, m - 1, k - half));
      }
    }
  }

  lemma TakenStep(items: seq<Item>, m: nat, k: nat)
    requires 0 < m <= |items| && k < Words.Pow2(m)
    ensures var half := Words.Pow2(m - 1);
            && Words.Pow2(m) == 2 * half
            && Taken(items, m, k) == if k < half then Taken(items[1..], m - 1, k)
                                     else [items[0]] + Taken(items[1..], m - 1, k - half)
  {
    var half := Words.Pow2(m - 1);
    DivideIs(k, half, if k < half then 0 else 1);
  }

  lemma LastTaken(items: seq<Item>, k: nat)
    requires items != [] && k < Words.Pow2(1)
    ensures k < 2 && TotalWeight(Taken(items, 1, k)) == (if k == 0 then 0 else items[0].weight)
    ensures TotalValue(Taken(items, 1, k)) == (if k == 0 then 0 else items[0].value)
  {
    assert Words.Pow2(0) == 1 && Words.Pow2(1) == 2;
    assert Taken(items[1..], 0, 0) == [] && [items[0]][1..] == [];
  }

  lemma TotalsCons(item: Item, rest: seq<Item>)
    ensures TotalWeight([item] + rest) == item.weight + TotalWeight(rest)
    ensures TotalValue([item] + rest) == item.value + TotalValue(rest)
  {
    assert ([item] + rest)[1..] == rest;
  }

  // The largest of the values, as the drivers compute it.
  function MaxOf(values: seq<int>): int {
    if values == [] then INT_MIN else Max(values[|values| - 1], MaxOf(values[..|values| - 1]))
  }

  lemma {:induction false} MaxOfConcat(a: seq<int>, b: seq<int>)
    ensures MaxOf(a + b) == Max(MaxOf(a), MaxOf(b))
    ensures MaxOf(a) >= INT_MIN
  {
    if b == [] {
      assert a + b == a;
      if a != [] {
        assert a[..|a| - 1] + [] == a[..|a| - 1];
        MaxOfConcat(a[..|a| - 1], []);
      }
    } else {
      assert (a + b)[..|a + b| - 1] == a + b[..|b| - 1];
      MaxOfConcat(a, b[..|b| - 1]);
    }
  }

  function Optima(tasks: seq<Task>): (r: seq<int>)
    ensures |r| == |tasks| && forall k :: 0 <= k < |r| ==> r[k] == Opt(tasks[k].items, tasks[k].c, tasks[k].v)
  {
    seq(|tasks|, k requires 0 <= k < |tasks| => Opt(tasks[k].items, tasks[k].c, tasks[k].v))
  }

  // Deciding one item: the optimum is the better of the two searches, also when the
  // capacity is already negative.
  lemma OptStep(items: seq<Item>, c: int, v: int)
    requires Proper(items) && items != [] && v >= 0
    ensures Opt(items, c, v) == Max(Opt(items[1..], c, v), Opt(items[1..], c - items[0].weight, v + items[0].value))
  {
    if c >= 0 {
      BestBounds(items[1..], c);
      if c >= items[0].weight { BestBounds(items[1..], c - items[0].weight); }
    }
  }

  // Main result on the split: whatever the split, the best task reaches the optimum
  // and none exceeds it.
  lemma {:induction false} SplitIsOptimal(split: nat, items: seq<Item>, c: int, v: int)
    requires Proper(items) && 1 <= split <= |items| && v >= 0
    ensures MaxOf(Optima(TaskList(split, items, c, v))) == Opt(items, c, v)
    decreases |items|
  {
    hide Opt, Proper, MaxOf;
    var c', v' := c - items[0].weight, v + items[0].value;
    OptStep(items, c, v);
    ProperTail(items);
    if |items| == split {
      assert Optima(TaskList(split, items, c, v)) == [Opt(items[1..], c, v), Opt(items[1..], c', v')];
      OptAtLeast(items[1..], c, v);
      OptAtLeast(items[1..], c', v');
      MaxOfTwo(Opt(items[1..], c, v), Opt(items[1..], c', v'));
    } else {
      SplitIsOptimal(split, items[1..], c, v);
      SplitIsOptimal(split, items[1..], c', v');
      var a, b := TaskList(split, items[1..], c, v), TaskList(split, items[1..], c', v');
      assert Optima(a + b) == Optima(a) + Optima(b);
      MaxOfConcat(Optima(a), Optima(b));
    }
  }

  lemma ProperTail(items: seq<Item>)
    requires Proper(items) && items != []
    ensures Proper(items[1..]) && items[0].weight > 0 && items[0].value >= 0
  {
  }

  lemma MaxOfTwo(x: int, y: int)
    requires x >= INT_MIN && y >= INT_MIN
    ensures MaxOf([x, y]) == Max(x, y)
  {
    assert [x, y][..1] == [x] && [x][..0] == [];
    assert MaxOf([x]) == Max(x, MaxOf([x][..0]));
  }

  lemma OptAtLeast(items: seq<Item>, c: int, v: int)
    requires Proper(items) && v >= 0
    ensures Opt(items, c, v) >= INT_MIN
  {
    if c >= 0 { BestBounds(items, c); }
  }

  /* ----- the drivers ----- */

  // Whatever is decided, capacity and value stay within int. The searches stop where the
  // capacity is negative, so only the enumerated items can take it further down.
  predicate SplitFits(split: nat, items: seq<Item>, c: int, v: int)
    requires 1 <= split <= |items|
  {
    && INT_MIN <= c - TotalWeight(items[..|items| - split + 1]) && c <= INT_MAX
    && 0 <= v && v + TotalValue(items) <= INT_MAX
    && forall i :: 0 <= i < |items| ==> items[i].weight <= INT_MAX && (c >= 0 ==> c * items[i].value <= INT_MAX)
  }

  // One more item decided.
  lemma FitsBelow(split: nat, items: seq<Item>, c: int, v: int)
    requires Proper(items) && RatioSorted(items) && 1 <= split <= |items| && SplitFits(split, items, c, v)
    ensures Proper(items[1..]) && RatioSorted(items[1..])
    ensures var rest, c', v' := items[1..], c - items[0].weight, v + items[0].value;
            if |items| == split then NoOverflow(rest, c, v) && NoOverflow(rest, c', v')
            else SplitFits(split, rest, c, v) && SplitFits(split, rest, c', v')
  {
    var n, rest := |items| - split + 1, items[1..];
    assert items[..n][1..] == rest[..n - 1];
    TotalsNonNegative(rest[..n - 1]);
    forall i | 0 <= i < |rest|
      ensures rest[i].weight <= INT_MAX
      ensures c >= 0 ==> c * rest[i].value <= INT_MAX
      ensures c - items[0].weight >= 0 ==> (c - items[0].weight) * rest[i].value <= INT_MAX
    {
      assert rest[i] == items[i + 1];
      ProductBelow(c, items[0].weight, items[i + 1].value);
    }
  }

  predicate Runnable(t: Task) {
    Proper(t.items) && RatioSorted(t.items) && NoOverflow(t.items, t.c, t.v)
  }

  lemma {:induction false} TasksAreRunnable(split: nat, items: seq<Item>, c: int, v: int)
    requires Proper(items) && RatioSorted(items) && 1 <= split <= |items| && SplitFits(split, items, c, v)
    ensures forall t :: t in TaskList(split, items, c, v) ==> Runnable(t)
    decreases |items|
  {
    hide Proper, RatioSorted, SplitFits, NoOverflow;
    var c', v' := c - items[0].weight, v + items[0].value;
    FitsBelow(split, items, c, v);
    if |items| > split {
      TasksAreRunnable(split, items[1..], c, v);
      TasksAreRunnable(split, items[1..], c', v');
    }
  }

  // knapsack_threads / knapsack_dispatcher
  method Dispatch(split: nat, tasks: seq<Task>, items: seq<Item>, c: int, v: int) returns (tasks': seq<Task>)
    requires Proper(items) && RatioSorted(items) && 1 <= split <= |items| && SplitFits(split, items, c, v)
    ensures tasks' == tasks + TaskList(split, items, c, v)
    decreases |items|
  {
    hide Proper, RatioSorted, SplitFits;
    FitsBelow(split, items, c, v);
    var rest := items[1..];
    assert |rest| == |items| - 1;
    if |items| == split {
      tasks' := tasks + [Task(rest, c, v)];
      tasks' := tasks' + [Task(rest, c - items[0].weight, v + items[0].value)];
    } else {
      tasks' := Dispatch(split, tasks, rest, c, v);
      ghost var without := TaskList(split, rest, c, v);
      tasks' := Dispatch(split, tasks', rest, c - items[0].weight, v + items[0].value);
      ghost var with := TaskList(split, rest, c - items[0].weight, v + items[0].value);
      assert (tasks + without) + with == tasks + (without + with);
    }
  }

  // The tasks complete in any order, each with an incumbent of its own and into its
  // own slot.
  method RunTasks(tasks: seq<Task>) returns (results: seq<int>)
    requires forall t :: t in tasks ==> Runnable(t)
    ensures results == Optima(tasks)
  {
    hide NoOverflow, RatioSorted, Opt;
    var slots := new int[|tasks|](_ => 0);
    var pending := UpTo(|tasks|);
    while pending != {}
      invariant forall j :: j in pending ==> 0 <= j < |tasks|
      invariant forall j :: 0 <= j < |tasks| && j !in pending ==>
                  slots[j] == Opt(tasks[j].items, tasks[j].c, tasks[j].v)
      decreases pending
    {
      var j :| j in pending;
      var t := tasks[j];
      assert t in tasks;
      var r, bestSoFar := SerialSearch(INT_MIN, t.items, t.c, t.v);
      TaskOptimum(t);
      slots[j] := r;
      pending := pending - {j};
    }
    results := slots[..];
  }

  lemma TaskOptimum(t: Task)
    requires Runnable(t)
    ensures Opt(t.items, t.c, t.v) >= INT_MIN
  {
    OptAtLeast(t.items, t.c, t.v);
  }

  // knapsack (threads and dispatcher)
  method Parallel(split: nat, items: seq<Item>, capacity: int) returns (res: int)
    requires Proper(items) && RatioSorted(items) && 1 <= split <= |items| && SplitFits(split, items, capacity, 0)
    ensures res == Opt(items, capacity, 0)
    ensures if capacity >= 0 then IsOptimum(items, capacity, res) else res == -0x8000_0000
  {
    hide RatioSorted, SplitFits, Optima, IsOptimum, Runnable;
    var tasks := Dispatch(split, [], items, capacity, 0);
    TasksAreRunnable(split, items, capacity, 0);
    assert tasks == TaskList(split, items, capacity, 0);
    var results := RunTasks(tasks);
    res := INT_MIN;
    for j := 0 to |results|
      invariant res == MaxOf(results[..j])
    {
      assert results[..j + 1][..j] == results[..j];
      res := Max(results[j], res);
    }
    assert results[..|results|] == results;
    SplitIsOptimal(split, items, capacity, 0);
    if capacity >= 0 { BestIsOptimum(items, capacity); }
  }
}
