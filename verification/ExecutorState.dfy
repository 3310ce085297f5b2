// The state of one run of `await_all` as values: what notifying and propagating do
// to it, and the invariant that ties it to the task graph.
module ExecutorState {
  import opened Wrappers
  import opened TaskGraph

  // `running` are dispatched and not yet handed back, `done` have propagated their
  // value, `runs` lists the nodes in the order they were run.
  datatype RunState<V> = RunState(
    deps: seq<int>,
    slots: seq<seq<Option<V>>>,
    ready: seq<nat>,
    running: set<nat>,
    done: set<nat>,
    runs: seq<nat>)

  // notify
  function Notified<V>(st: RunState<V>, j: nat): RunState<V>
    requires j < |st.deps|
  {
    var left := st.deps[j] - 1;
    st.(deps := st.deps[j := left], ready := if left == 0 then st.ready + [j] else st.ready)
  }

  predicate HasSlot<V>(st: RunState<V>, e: Successor) {
    e.owner < |st.deps| && e.owner < |st.slots| &&
    (e.slot.Some? ==> e.slot.value < |st.slots[e.owner]|)
  }

  // set_value (unless the slot is empty), then notify
  function Deliver<V>(st: RunState<V>, e: Successor, v: Option<V>): RunState<V>
    requires HasSlot(st, e)
  {
    Notified(match e.slot
           case None => st
           case Some(k) => st.(slots := st.slots[e.owner := st.slots[e.owner][k := v]]),
           e.owner)
  }

  /* ----- the invariant ----- */

  ghost function ValueOf<V>(g: Graph<V>, i: nat): Option<V> {
    if WellFormed(g) && i < |g| && g[i].TaskNode? then Some(Value(g, i)) else None
  }

  function Arity<V>(g: Graph<V>, j: nat): nat
    requires j < |g|
  {
    if g[j].TaskNode? then g[j].task.arity else 0
  }

  // Nodes that have been run: `cur` is the one being run or propagated right now.
  ghost function Started<V>(st: RunState<V>, cur: set<nat>): set<nat> {
    st.running + st.done + cur
  }

  // `extra` are the slots of the propagating node that have been served already.
  ghost predicate CountsDeps<V>(g: Graph<V>, st: RunState<V>, extra: seq<Successor>) {
    |st.deps| == |g| &&
    forall j :: 0 <= j < |g| ==> st.deps[j] == Waiting(Senders(g, j), st.done) - CountOwner(extra, j)
  }

  ghost function Expected<V>(g: Graph<V>, j: nat, k: nat, done: set<nat>, extra: seq<Successor>): Option<V>
    requires j < |g|
  {
    var ids := ValueIds(Senders(g, j));
    if k < |ids| && (ids[k] in done || Successor(j, Some(k)) in extra) then ValueOf(g, ids[k]) else None
  }

  ghost predicate FillsSlots<V>(g: Graph<V>, st: RunState<V>, extra: seq<Successor>) {
    |st.slots| == |g| &&
    forall j :: 0 <= j < |g| ==>
      |st.slots[j]| == Arity(g, j) &&
      forall k :: 0 <= k < Arity(g, j) ==> st.slots[j][k] == Expected(g, j, k, st.done, extra)
  }

  ghost predicate Schedules<V>(g: Graph<V>, st: RunState<V>, cur: set<nat>) {
    && |st.deps| == |g|
    && NoDup(st.ready)
    && (forall j: nat :: j in st.ready <==> j < |g| && st.deps[j] == 0 && j !in Started(st, cur))
    && st.running !! st.done !! cur
    && (forall j: nat :: j in Started(st, cur) ==> j < |g| && st.deps[j] == 0)
    && NoDup(st.runs)
    && (forall j: nat :: j in st.runs <==> j in Started(st, cur))
  }

  ghost predicate Consistent<V>(g: Graph<V>, st: RunState<V>, cur: set<nat>, extra: seq<Successor>) {
    WellFormed(g) && CountsDeps(g, st, extra) && FillsSlots(g, st, extra) && Schedules(g, st, cur)
  }

  function StartState<V>(g: Graph<V>, ready: seq<nat>): RunState<V> {
    RunState(seq(|g|, j requires 0 <= j < |g| => |Senders(g, j)|),
             seq(|g|, j requires 0 <= j < |g| => seq(Arity(g, j), _ => None)),
             ready, {}, {}, [])
  }

  lemma StartFills<V>(g: Graph<V>, ready: seq<nat>)
    ensures FillsSlots(g, StartState(g, ready), [])
  {
    hide Value, Waiting;
    var st := StartState(g, ready);
    forall j, k | 0 <= j < |g| && 0 <= k < Arity(g, j)
      ensures st.slots[j][k] == Expected(g, j, k, {}, [])
    {
    }
  }

  lemma StartCounts<V>(g: Graph<V>, ready: seq<nat>)
    ensures CountsDeps(g, StartState(g, ready), [])
  {
    var st := StartState(g, ready);
    forall j | 0 <= j < |g|
      ensures st.deps[j] == Waiting(Senders(g, j), st.done) - CountOwner([], j)
    {
      WaitingZero(Senders(g, j), {});
    }
  }

  lemma StartConsistent<V>(g: Graph<V>, ready: seq<nat>)
    requires WellFormed(g) && NoDup(ready)
    requires forall j: nat :: j in ready <==> j < |g| && Senders(g, j) == []
    ensures Consistent(g, StartState(g, ready), {}, [])
  {
    hide FillsSlots, WellFormed, CountsDeps;
    StartFills(g, ready);
    StartCounts(g, ready);
    assert Schedules(g, StartState(g, ready), {});
  }

  // Serving one more slot of node `i`: its owner still waits for it, so the
  // counter was positive and the owner neither ready nor started.
  lemma OwnerWaits<V>(g: Graph<V>, st: RunState<V>, i: nat, extra: seq<Successor>, e: Successor)
    requires CountsDeps(g, st, extra) && i !in st.done
    requires extra + [e] <= Successors(g, i)
    ensures e.owner < |g| && st.deps[e.owner] >= 1 && IsEntry(Senders(g, e.owner), 0, i, e.slot)
  {
    var all := Successors(g, i);
    assert e in all by { assert all[|extra|] == e; }
    SuccessorsSlots(g, i, e);
    SuccessorsCount(g, i, e.owner);
    WaitingStep(Senders(g, e.owner), st.done, i);
    assert all == (extra + [e]) + all[|extra| + 1..];
    CountOwnerConcat(extra + [e], all[|extra| + 1..], e.owner);
    CountOwnerConcat(extra, [e], e.owner);
  }

  lemma DeliverCounts<V>(g: Graph<V>, st: RunState<V>, extra: seq<Successor>, e: Successor, v: Option<V>)
    requires CountsDeps(g, st, extra) && HasSlot(st, e)
    ensures CountsDeps(g, Deliver(st, e, v), extra + [e])
  {
    forall j | 0 <= j < |g|
      ensures CountOwner(extra + [e], j) == CountOwner(extra, j) + if e.owner == j then 1 else 0
    {
      CountOwnerConcat(extra, [e], j);
    }
  }

  lemma DeliverFills<V>(g: Graph<V>, st: RunState<V>, i: nat, extra: seq<Successor>, e: Successor, v: Option<V>)
    requires FillsSlots(g, st, extra) && HasSlot(st, e) && e.owner < |g|
    requires IsEntry(Senders(g, e.owner), 0, i, e.slot)
    requires e.slot.Some? ==> v == ValueOf(g, i)
    ensures FillsSlots(g, Deliver(st, e, v), extra + [e])
  {
    var t := Deliver(st, e, v);
    forall j, k | 0 <= j < |g| && 0 <= k < Arity(g, j)
      ensures |t.slots[j]| == Arity(g, j) && t.slots[j][k] == Expected(g, j, k, t.done, extra + [e])
    {
      assert Successor(j, Some(k)) in extra + [e] <==> Successor(j, Some(k)) in extra || Successor(j, Some(k)) == e;
    }
  }

  lemma DeliverSchedules<V>(g: Graph<V>, st: RunState<V>, cur: set<nat>, e: Successor, v: Option<V>)
    requires Schedules(g, st, cur) && HasSlot(st, e) && e.owner < |g| && st.deps[e.owner] >= 1
    ensures Schedules(g, Deliver(st, e, v), cur)
  {
    assert e.owner !in st.ready;
    var t := Deliver(st, e, v);
    assert forall j: nat :: j in t.ready <==> j in st.ready || (st.deps[e.owner] == 1 && j == e.owner);
  }

  lemma DeliverKeeps<V>(g: Graph<V>, st: RunState<V>, i: nat, extra: seq<Successor>, e: Successor, v: Option<V>)
    requires Consistent(g, st, {i}, extra)
    requires extra + [e] <= Successors(g, i) && v == ValueOf(g, i)
    ensures HasSlot(st, e) && Consistent(g, Deliver(st, e, v), {i}, extra + [e])
    ensures var t := Deliver(st, e, v); t.runs == st.runs && t.running == st.running && t.done == st.done
  {
    OwnerWaits(g, st, i, extra, e);
    CreatedAfterSenders(g, e.owner);
    DeliverCounts(g, st, extra, e, v);
    DeliverFills(g, st, i, extra, e, v);
    DeliverSchedules(g, st, {i}, e, v);
  }

  // All slots served: the node has propagated.
  function Finish<V>(st: RunState<V>, i: nat): RunState<V> {
    st.(done := st.done + {i})
  }

  lemma FinishCounts<V>(g: Graph<V>, st: RunState<V>, i: nat)
    requires i < |g| && CountsDeps(g, st, Successors(g, i)) && i !in st.done
    ensures CountsDeps(g, Finish(st, i), [])
  {
    var all := Successors(g, i);
    forall j | 0 <= j < |g|
      ensures Waiting(Senders(g, j), st.done + {i}) == Waiting(Senders(g, j), st.done) - CountOwner(all, j)
    {
      SuccessorsCount(g, i, j);
      WaitingStep(Senders(g, j), st.done, i);
    }
  }

  lemma FinishFills<V>(g: Graph<V>, st: RunState<V>, i: nat)
    requires i < |g| && FillsSlots(g, st, Successors(g, i))
    ensures FillsSlots(g, Finish(st, i), [])
  {
    hide WellFormed, Value;
    var all := Successors(g, i);
    forall j: nat, k: nat | j < |g| && k < Arity(g, j)
      ensures Expected(g, j, k, st.done, all) == Expected(g, j, k, st.done + {i}, [])
    {
      SuccessorsSlots(g, i, Successor(j, Some(k)));
    }
  }

  lemma FinishKeeps<V>(g: Graph<V>, st: RunState<V>, i: nat)
    requires i < |g| && Consistent(g, st, {i}, Successors(g, i))
    ensures Consistent(g, Finish(st, i), {}, [])
  {
    hide WellFormed, CountsDeps, FillsSlots;
    FinishCounts(g, st, i);
    FinishFills(g, st, i);
  }

  // Taking the last ready node off the stack to run it.
  function Pop<V>(st: RunState<V>): RunState<V>
    requires st.ready != []
  {
    var n := |st.ready| - 1;
    st.(ready := st.ready[..n], runs := st.runs + [st.ready[n]])
  }

  // Counters and slots do not depend on what is ready or running.
  lemma SameCounters<V>(g: Graph<V>, st: RunState<V>, t: RunState<V>, extra: seq<Successor>)
    requires CountsDeps(g, st, extra) && FillsSlots(g, st, extra)
    requires t.deps == st.deps && t.slots == st.slots && t.done == st.done
    ensures CountsDeps(g, t, extra) && FillsSlots(g, t, extra)
  {
  }

  lemma PopSchedules<V>(g: Graph<V>, st: RunState<V>)
    requires Schedules(g, st, {}) && st.ready != []
    ensures Schedules(g, Pop(st), {st.ready[|st.ready| - 1]})
    ensures st.ready[|st.ready| - 1] < |g| && st.ready[|st.ready| - 1] !in Started(st, {})
  {
    var n := |st.ready| - 1;
    var i, t := st.ready[n], Pop(st);
    assert i in st.ready;
    assert forall j: nat :: j in t.ready <==> j in st.ready && j != i;
    assert forall j: nat :: j in t.runs <==> j in st.runs || j == i;
  }

  lemma PopKeeps<V>(g: Graph<V>, st: RunState<V>)
    requires Consistent(g, st, {}, []) && st.ready != []
    ensures Consistent(g, Pop(st), {st.ready[|st.ready| - 1]}, [])
    ensures st.ready[|st.ready| - 1] < |g| && st.ready[|st.ready| - 1] !in Started(st, {})
  {
    hide CountsDeps, FillsSlots, WellFormed, Schedules;
    SameCounters(g, st, Pop(st), []);
    PopSchedules(g, st);
  }

  // A dispatched node waits for its result, and comes back when it is handed out.
  lemma ParkKeeps<V>(g: Graph<V>, st: RunState<V>, i: nat)
    requires Consistent(g, st, {i}, [])
    ensures Consistent(g, st.(running := st.running + {i}), {}, [])
  {
    var t := st.(running := st.running + {i});
    assert Started(t, {}) == Started(st, {i});
  }

  lemma UnparkKeeps<V>(g: Graph<V>, st: RunState<V>, i: nat)
    requires Consistent(g, st, {}, []) && i in st.running
    ensures Consistent(g, st.(running := st.running - {i}), {i}, [])
  {
    var t := st.(running := st.running - {i});
    assert Started(t, {i}) == Started(st, {});
  }

  /* ----- what the invariant gives ----- */

  // Safety: in every reachable state a counter is the number of incoming edges,
  // with multiplicity, whose sender has not propagated; so a node is started only
  // after all its senders have.
  lemma StartedAfterSenders<V>(g: Graph<V>, st: RunState<V>, cur: set<nat>, j: nat)
    requires Consistent(g, st, cur, []) && j in Started(st, cur)
    ensures j < |g| && forall s :: s in Senders(g, j) ==> s.id in st.done
  {
    WaitingZero(Senders(g, j), st.done);
  }

  // The arguments of a started node are all there, each from its own sender.
  lemma ArgumentsReady<V>(g: Graph<V>, st: RunState<V>, cur: set<nat>, j: nat)
    requires Consistent(g, st, cur, []) && j in Started(st, cur)
    requires j < |g| && g[j].TaskNode?
    ensures var ids := ValueIds(g[j].senders);
            |ids| <= |st.slots[j]| == g[j].task.arity &&
            (forall k :: 0 <= k < |ids| ==> st.slots[j][k].Some? && st.slots[j][k] == ValueOf(g, ids[k])) &&
            (forall k :: |ids| <= k < |st.slots[j]| ==> st.slots[j][k] == None)
  {
    var ids := ValueIds(g[j].senders);
    StartedAfterSenders(g, st, cur, j);
    CreatedAfterSenders(g, j);
    ValueIdsAreSenders(g[j].senders);
    forall k | 0 <= k < |ids|
      ensures st.slots[j][k].Some? && st.slots[j][k] == ValueOf(g, ids[k])
    {
      assert Sender(ids[k], false) in Senders(g, j);
    }
  }

  // No slot is unset, so reading the arguments does not throw.
  predicate HasAll<V>(slots: seq<Option<V>>) {
    forall k :: 0 <= k < |slots| ==> slots[k].Some?
  }

  function Unwrap<V>(slots: seq<Option<V>>): (r: seq<V>)
    requires HasAll(slots)
    ensures |r| == |slots| && forall k :: 0 <= k < |r| ==> r[k] == slots[k].value
  {
    if slots == [] then [] else [slots[0].value] + Unwrap(slots[1..])
  }

  // args(): every parameter is set exactly when every parameter is fed, and then
  // running the task on them yields the value of the node.
  lemma ArgsAreTheSendersValues<V>(g: Graph<V>, st: RunState<V>, cur: set<nat>, j: nat)
    requires Consistent(g, st, cur, []) && j in Started(st, cur)
    requires j < |g| && g[j].TaskNode?
    ensures HasAll(st.slots[j]) <==> Fed(g, j)
    ensures Fed(g, j) ==> g[j].task.body(Unwrap(st.slots[j])) == Value(g, j)
  {
    hide CountsDeps, Schedules, Expected, Value;
    ArgumentsReady(g, st, cur, j);
    var ids := ValueIds(g[j].senders);
    ValueIdsCount(g[j].senders);
    if |ids| == g[j].task.arity {
      SlotsAreValues(g, j, st.slots[j]);
    } else {
      assert st.slots[j][|ids|] == None;
    }
  }

  lemma SlotsAreValues<V>(g: Graph<V>, j: nat, slots: seq<Option<V>>)
    requires WellFormed(g) && j < |g| && g[j].TaskNode? && |slots| == |ValueIds(g[j].senders)|
    requires forall k :: 0 <= k < |slots| ==> slots[k].Some? && slots[k] == ValueOf(g, ValueIds(g[j].senders)[k])
    ensures g[j].task.body(Unwrap(slots)) == Value(g, j)
  {
    hide Senders;
    var ids := ValueIds(g[j].senders);
    CreatedAfterSenders(g, j);
    ValueIdsAreSenders(g[j].senders);
    assert Unwrap(slots) == Values(g, j, ids);
  }

  // Completion: with nothing ready and nothing running every node has propagated.
  lemma {:induction false} AllDone<V>(g: Graph<V>, st: RunState<V>, j: nat)
    requires Consistent(g, st, {}, []) && st.ready == [] && st.running == {} && j < |g|
    ensures j in st.done && st.deps[j] == 0
  {
    CreatedAfterSenders(g, j);
    forall s | s in Senders(g, j)
      ensures s.id in st.done
    {
      AllDone(g, st, s.id);
    }
    WaitingZero(Senders(g, j), st.done);
    assert CountOwner([], j) == 0;
    assert j !in st.ready;
  }

  lemma RunsBounded<V>(g: Graph<V>, st: RunState<V>, cur: set<nat>)
    requires Consistent(g, st, cur, [])
    ensures |st.runs| <= |g|
    ensures (forall x: nat :: x < |g| ==> x in st.runs) ==> |st.runs| == |g|
  {
    NoDupLength(st.runs, |g|);
  }
}
