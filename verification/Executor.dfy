// host_controller_executor: the work-list loop of `await_all` over the node
// objects, driving a dispatcher instance.
module HostController {
  import opened Wrappers
  import opened Dispatching
  import opened TaskGraph
  import opened ExecutorState

  // Invocation ids and task nodes correspond one to one, an invocation computes
  // the value of its node, and the running nodes are those not handed back yet.
  ghost predicate Linked<V>(
    g: Graph<V>, model: Protocol<V>, nodeOf: map<nat, nat>, idOf: map<nat, nat>, runs: seq<nat>, running: set<nat>)
  {
    && (forall id: nat :: id < |model.requests| ==>
          id in nodeOf && nodeOf[id] in idOf && idOf[nodeOf[id]] == id &&
          Some(model.requests[id]) == ValueOf(g, nodeOf[id]))
    && (forall n: nat :: n in idOf ==> idOf[n] < |model.requests| && nodeOf[idOf[n]] == n)
    && (forall n: nat :: n in idOf <==> n in runs && n < |g| && g[n].TaskNode?)
    && (forall n: nat :: n in running <==> n in idOf && idOf[n] !in model.returned)
  }

  lemma DispatchLinks<V>(
    g: Graph<V>, model: Protocol<V>, nodeOf: map<nat, nat>, idOf: map<nat, nat>, runs: seq<nat>,
    running: set<nat>, i: nat, v: V)
    requires Partitioned(model) && Linked(g, model, nodeOf, idOf, runs, running)
    requires i !in runs && i < |g| && g[i].TaskNode? && Some(v) == ValueOf(g, i)
    ensures var id := |model.requests|;
            Linked(g, Step(model, Dispatch(v)), nodeOf[id := i], idOf[i := id], runs + [i], running + {i})
  {
    hide Value, WellFormed;
    var id := |model.requests|;
    assert id !in model.returned;
    assert forall n: nat :: n in runs + [i] <==> n in runs || n == i;
  }

  lemma HandOutUnlinks<V>(
    g: Graph<V>, model: Protocol<V>, nodeOf: map<nat, nat>, idOf: map<nat, nat>, runs: seq<nat>,
    running: set<nat>, id: nat)
    requires Partitioned(model) && Linked(g, model, nodeOf, idOf, runs, running) && Enabled(model, HandOut(id))
    ensures id < |model.requests| && id in nodeOf && nodeOf[id] in running
    ensures nodeOf[id] < |g| && nodeOf[id] in idOf && idOf[nodeOf[id]] == id
    ensures Linked(g, Step(model, HandOut(id)), nodeOf, idOf, runs, running - {nodeOf[id]})
  {
    hide Value, WellFormed;
    assert id !in model.returned;
    assert forall x :: x in model.returned + [id] <==> x in model.returned || x == id;
  }

  lemma SourceLinks<V>(
    g: Graph<V>, model: Protocol<V>, nodeOf: map<nat, nat>, idOf: map<nat, nat>, runs: seq<nat>,
    running: set<nat>, i: nat)
    requires Linked(g, model, nodeOf, idOf, runs, running) && i < |g| && g[i].SourceNode?
    ensures Linked(g, model, nodeOf, idOf, runs + [i], running)
  {
    hide Value, WellFormed;
    assert forall n: nat :: n in runs + [i] <==> n in runs || n == i;
  }

  // Replies alone change neither the results to come nor what was handed back.
  lemma AbsorbLinks<V>(
    g: Graph<V>, model: Protocol<V>, nodeOf: map<nat, nat>, idOf: map<nat, nat>, runs: seq<nat>,
    running: set<nat>, replies: seq<Reply>)
    requires Partitioned(model) && Linked(g, model, nodeOf, idOf, runs, running)
    ensures Partitioned(Absorb(model, replies)) && Linked(g, Absorb(model, replies), nodeOf, idOf, runs, running)
  {
    hide Value, WellFormed, Partitioned;
    StillInFlight(model, replies, 0);
  }

  // Every running node has an invocation that is neither finished nor handed back.
  lemma RunningIsOutstanding<V>(
    g: Graph<V>, model: Protocol<V>, nodeOf: map<nat, nat>, idOf: map<nat, nat>, runs: seq<nat>,
    running: set<nat>, n: nat)
    requires Partitioned(model) && Linked(g, model, nodeOf, idOf, runs, running)
    requires n in running && model.finished == {}
    ensures n in idOf && (idOf[n] in model.inFlight || idOf[n] in model.lost)
  {
    hide Value, WellFormed;
  }

  // With no node running every invocation has been handed back.
  lemma NothingOutstanding<V>(
    g: Graph<V>, model: Protocol<V>, nodeOf: map<nat, nat>, idOf: map<nat, nat>, runs: seq<nat>, running: set<nat>)
    requires Partitioned(model) && Linked(g, model, nodeOf, idOf, runs, running) && running == {}
    ensures model.inFlight + model.lost == {}
  {
    hide Value, WellFormed;
    forall id: nat ensures id !in model.inFlight && id !in model.lost {
      if id < |model.requests| { assert nodeOf[id] !in running && id in model.returned; }
    }
  }

  // How await_all comes out.
  datatype Ending = Drained | Blocked | Threw(node: nat)

  class Executor<V> {
    const builder: Builder<V>
    const instance: Instance<V>
    var readyNodes: seq<nat>
    var futureNodeMap: map<nat, nat>
    var finishedNodes: nat

    constructor (builder: Builder<V>, instance: Instance<V>)
      ensures this.builder == builder && this.instance == instance
      ensures readyNodes == [] && futureNodeMap == map[] && finishedNodes == 0
    {
      this.builder := builder;
      this.instance := instance;
      readyNodes, futureNodeMap, finishedNodes := [], map[], 0;
    }

    // The counters, slots and ready stack are those of `st`.
    ghost predicate Mirrors(st: RunState<V>)
      reads this`readyNodes, builder, builder.nodes
    {
      && readyNodes == st.ready
      && |st.deps| == |st.slots| == |builder.nodes|
      && forall i :: 0 <= i < |builder.nodes| ==>
           builder.nodes[i].dependencyCount == st.deps[i] && builder.nodes[i].slots == st.slots[i]
    }

    // Result targets are the futures of the nodes; a node without an invocation
    // has an empty one.
    ghost predicate Targets(idOf: map<nat, nat>)
      reads this`futureNodeMap, builder, instance, set n | n in builder.nodes :: n.future
    {
      && (forall id :: 0 <= id < |instance.targets| ==>
            && id in futureNodeMap && futureNodeMap[id] < |builder.nodes|
            && instance.targets[id] == builder.nodes[futureNodeMap[id]].future)
      && (forall i :: 0 <= i < |builder.nodes| && i !in idOf ==> builder.nodes[i].future.value == None)
    }

    ghost predicate Invoked(idOf: map<nat, nat>, runs: seq<nat>, running: set<nat>)
      reads this`futureNodeMap, builder, instance, instance.targets, set n | n in builder.nodes :: n.future
    {
      && instance.Valid() && Targets(idOf)
      && Linked(builder.graph, instance.model, futureNodeMap, idOf, runs, running)
    }

    ghost predicate Valid(st: RunState<V>, idOf: map<nat, nat>, cur: set<nat>)
      reads this, builder, builder.nodes, instance, instance.targets, set n | n in builder.nodes :: n.future
    {
      && builder.Valid() && Mirrors(st) && Invoked(idOf, st.runs, st.running)
      && AllFed(builder.graph, st.runs) && Consistent(builder.graph, st, cur, [])
    }

    method Notify(id: nat, ghost st: RunState<V>)
      requires Mirrors(st) && NoDup(builder.nodes) && id < |builder.nodes|
      modifies builder.nodes`dependencyCount, this`readyNodes
      ensures Mirrors(Notified(st, id))
      ensures builder.nodes[id].dependencyCount == old(builder.nodes[id].dependencyCount) - 1
      ensures readyNodes == old(readyNodes) + if builder.nodes[id].dependencyCount == 0 then [id] else []
    {
      var node := builder.nodes[id];
      node.dependencyCount := node.dependencyCount - 1;
      if node.dependencyCount == 0 {
        readyNodes := readyNodes + [id];
      }
    }

    // set_value on the slot, then notify its owner
    method Serve(e: Successor, value: Option<V>, ghost st: RunState<V>)
      requires Mirrors(st) && NoDup(builder.nodes) && HasSlot(st, e)
      modifies builder.nodes`dependencyCount, builder.nodes`slots, this`readyNodes
      ensures Mirrors(Deliver(st, e, value))
    {
      ghost var filled := st;
      if e.slot.Some? {
        var owner := builder.nodes[e.owner];
        owner.slots := owner.slots[e.slot.value := value];
        filled := st.(slots := st.slots[e.owner := owner.slots]);
      }
      Notify(e.owner, filled);
    }

    // The loop of propagate_value: one slot after the other.
    method ServeAll(i: nat, value: Option<V>, ghost st: RunState<V>) returns (ghost st': RunState<V>)
      requires NoDup(builder.nodes) && Mirrors(st) && i < |builder.nodes|
      requires builder.nodes[i].successors == Successors(builder.graph, i)
      requires Consistent(builder.graph, st, {i}, []) && value == ValueOf(builder.graph, i)
      modifies this`readyNodes, builder.nodes`dependencyCount, builder.nodes`slots
      ensures Mirrors(st') && Consistent(builder.graph, st', {i}, Successors(builder.graph, i))
      ensures st'.runs == st.runs && st'.running == st.running && st'.done == st.done
    {
      hide Consistent, Value, Successors, Deliver;
      var node := builder.nodes[i];
      st' := st;
      for m := 0 to |node.successors|
        invariant Mirrors(st')
        invariant Consistent(builder.graph, st', {i}, node.successors[..m])
        invariant st'.runs == st.runs && st'.running == st.running && st'.done == st.done
      {
        ghost var seen, e := node.successors[..m], node.successors[m];
        assert node.successors[..m + 1] == seen + [e];
        DeliverKeeps(builder.graph, st', i, seen, e, value);
        Serve(node.successors[m], value, st');
        st' := Deliver(st', e, value);
      }
      assert node.successors[..|node.successors|] == node.successors;
    }

    // propagate_value of task and source nodes
    method PropagateValue(i: nat, value: Option<V>, ghost st: RunState<V>) returns (ghost st': RunState<V>)
      requires builder.Valid() && Mirrors(st) && i < |builder.nodes|
      requires Consistent(builder.graph, st, {i}, []) && value == ValueOf(builder.graph, i)
      modifies this`readyNodes, builder.nodes`dependencyCount, builder.nodes`slots
      ensures builder.Valid() && Mirrors(st') && Consistent(builder.graph, st', {}, [])
      ensures st'.runs == st.runs && st'.running == st.running && st'.done == st.done + {i}
    {
      hide Consistent, Value, WellFormed;
      st' := ServeAll(i, value, st);
      FinishKeeps(builder.graph, st', i);
      st' := Finish(st', i);
    }

    // A node without an invocation has a future nobody else fills.
    lemma FutureIsFree(idOf: map<nat, nat>, runs: seq<nat>, running: set<nat>, i: nat)
      requires builder.Valid() && Invoked(idOf, runs, running) && i < |builder.nodes| && i !in idOf
      ensures builder.nodes[i].future !in instance.targets && builder.nodes[i].future.value == None
      ensures |instance.targets| == |instance.model.requests| == instance.started
      ensures Partitioned(instance.model)
    {
      hide Partitioned, WellFormed, Value, Quiet;
    }

    // run of a task node: args(), then dispatch with the node's own future as the
    // result target.
    method Run(i: nat, ghost idOf: map<nat, nat>, ghost runs: seq<nat>, ghost running: set<nat>)
      returns (ghost idOf': map<nat, nat>)
      requires builder.Valid() && Invoked(idOf, runs, running) && i !in runs && i !in idOf
      requires i < |builder.nodes| == |builder.graph| && builder.graph[i].TaskNode?
      requires builder.nodes[i].task == Some(builder.graph[i].task)
      requires HasAll(builder.nodes[i].slots)
      requires Some(builder.graph[i].task.body(Unwrap(builder.nodes[i].slots))) == ValueOf(builder.graph, i)
      modifies this`futureNodeMap, instance
      ensures Invoked(idOf', runs + [i], running + {i})
    {
      hide WellFormed, Value, Linked, Partitioned, Step, Instance.Valid, Builder.Valid;
      FutureIsFree(idOf, runs, running, i);
      var node := builder.nodes[i];
      var result := node.task.value.body(Unwrap(node.slots));
      DispatchLinks(builder.graph, instance.model, futureNodeMap, idOf, runs, running, i, result);
      var id := instance.DispatchImpl(result, node.future);
      futureNodeMap := futureNodeMap[id := i];
      idOf' := idOf[i := id];
    }

    // What Valid says about a node that is about to run.
    lemma NodeFacts(st: RunState<V>, idOf: map<nat, nat>)
      requires Valid(st, idOf, {}) && st.ready != []
      ensures var g, i, t := builder.graph, st.ready[|st.ready| - 1], Pop(st);
              && i < |builder.nodes| == |g| && i !in st.runs && i !in st.running && i !in idOf
              && builder.nodes[i].task == (if g[i].TaskNode? then Some(g[i].task) else None)
              && Consistent(g, t, {i}, [])
              && (g[i].TaskNode? ==>
                    && (HasAll(builder.nodes[i].slots) <==> Fed(g, i))
                    && (Fed(g, i) ==> Some(g[i].task.body(Unwrap(builder.nodes[i].slots))) == ValueOf(g, i)))
    {
      hide Instance.Valid, Targets, WellFormed, Value, CountsDeps, FillsSlots;
      PopKeeps(builder.graph, st);
      var i := st.ready[|st.ready| - 1];
      if builder.graph[i].TaskNode? {
        ArgsAreTheSendersValues(builder.graph, Pop(st), {i}, i);
      }
    }

    // Between taking node `i` off the ready stack and its return from run().
    ghost predicate Popped(st: RunState<V>, idOf: map<nat, nat>, i: nat)
      reads this, builder, builder.nodes, instance, instance.targets, set n | n in builder.nodes :: n.future
    {
      && builder.Valid() && AllFed(builder.graph, st.runs) && Invoked(idOf, st.runs, st.running)
      && st.ready != [] && st.ready[|st.ready| - 1] == i && Mirrors(Pop(st))
      && i < |builder.nodes| == |builder.graph| && i !in st.runs && i !in idOf
      && Consistent(builder.graph, Pop(st), {i}, [])
    }

    // A source sends nothing and finishes at once.
    method RunSource(i: nat, ghost st: RunState<V>, ghost idOf: map<nat, nat>) returns (ghost st': RunState<V>)
      requires Popped(st, idOf, i) && builder.graph[i].SourceNode?
      modifies this, builder.nodes`dependencyCount, builder.nodes`slots
      ensures Valid(st', idOf, {}) && st'.runs == st.runs + [i] && st'.running == st.running
      ensures finishedNodes == old(finishedNodes) + 1
    {
      hide Consistent, WellFormed, Value, Invoked, AllFed, Builder.Valid;
      SourcePopped(st, idOf, i);
      finishedNodes := finishedNodes + 1;
      st' := PropagateValue(i, None, Pop(st));
    }

    // A source that has run needs no invocation and no arguments.
    lemma SourcePopped(st: RunState<V>, idOf: map<nat, nat>, i: nat)
      requires Popped(st, idOf, i) && builder.graph[i].SourceNode?
      ensures Invoked(idOf, Pop(st).runs, st.running) && AllFed(builder.graph, Pop(st).runs)
      ensures ValueOf(builder.graph, i) == None
    {
      hide Consistent, WellFormed, Value, Linked, Instance.Valid, Targets, Builder.Valid;
      SourceLinks(builder.graph, instance.model, futureNodeMap, idOf, st.runs, st.running, i);
    }

    // A task is dispatched and left running.
    method RunTask(i: nat, ghost st: RunState<V>, ghost idOf: map<nat, nat>)
      returns (ghost st': RunState<V>, ghost idOf': map<nat, nat>)
      requires Popped(st, idOf, i) && builder.graph[i].TaskNode? && Fed(builder.graph, i)
      requires builder.nodes[i].task == Some(builder.graph[i].task)
      requires HasAll(builder.nodes[i].slots)
      requires Some(builder.graph[i].task.body(Unwrap(builder.nodes[i].slots))) == ValueOf(builder.graph, i)
      modifies this`futureNodeMap, instance
      ensures Valid(st', idOf', {}) && st'.runs == st.runs + [i] && st'.running == st.running + {i}
    {
      hide Consistent, WellFormed, Value, Linked, Instance.Valid;
      idOf' := Run(i, idOf, st.runs, st.running);
      st' := Pop(st).(running := st.running + {i});
      ParkKeeps(builder.graph, Pop(st), i);
    }

    // args() of node `i`, the last ready one, has thrown: the node is off the stack,
    // and nothing else has changed since `st`.
    ghost predicate Thrown(st: RunState<V>, idOf: map<nat, nat>, i: nat)
      reads this, builder, builder.nodes, instance, instance.targets, set n | n in builder.nodes :: n.future
    {
      && builder.Valid() && AllFed(builder.graph, st.runs) && Invoked(idOf, st.runs, st.running)
      && st.ready != [] && st.ready[|st.ready| - 1] == i && Mirrors(Pop(st))
      && Consistent(builder.graph, st, {}, [])
      && i < |builder.graph| && !Fed(builder.graph, i)
    }

    // One turn of the inner loop: the last ready node is run.
    method RunLast(ghost st: RunState<V>, ghost idOf: map<nat, nat>)
      returns (threw: Option<nat>, started: Option<nat>, ghost st': RunState<V>, ghost idOf': map<nat, nat>)
      requires Valid(st, idOf, {}) && readyNodes != []
      modifies this, instance, builder.nodes`dependencyCount, builder.nodes`slots
      ensures threw.Some? ==> Thrown(st, idOf, threw.value) && started.None? && st' == st && idOf' == idOf
      ensures threw.None? ==>
                && Valid(st', idOf', {}) && st'.runs == st.runs + [old(readyNodes[|readyNodes| - 1])]
                && st'.running == (if started.Some? then st.running + {started.value} else st.running)
      ensures started.Some? ==> started.value !in st.running
      ensures finishedNodes == old(finishedNodes) + if started.Some? || threw.Some? then 0 else 1
    {
      hide Consistent, WellFormed, Value, Linked, Instance.Valid, Builder.Valid, Targets, HasAll, AllFed, Fed;
      NodeFacts(st, idOf);
      var i := readyNodes[|readyNodes| - 1];
      readyNodes := readyNodes[..|readyNodes| - 1];
      threw, started, st', idOf' := None, None, st, idOf;
      if builder.nodes[i].task.None? {
        st' := RunSource(i, st, idOf);
      } else if !HasAll(builder.nodes[i].slots) {
        threw := Some(i);
      } else {
        st', idOf' := RunTask(i, st, idOf);
        started := Some(i);
      }
    }

    // A node that was handed back holds its value.
    lemma ResultIsValue(idOf: map<nat, nat>, runs: seq<nat>, running: set<nat>, n: nat)
      requires builder.Valid() && Invoked(idOf, runs, running) && n in idOf && n !in running
      ensures n < |builder.nodes| && builder.nodes[n].future.value == ValueOf(builder.graph, n)
    {
      hide Value, WellFormed, Quiet;
      var id := idOf[n];
      assert id in instance.model.written;
    }

    // The part of await_all after wait_one has returned `id`.
    method FinishOne(id: nat, ghost st: RunState<V>, ghost idOf: map<nat, nat>) returns (n: nat, ghost st': RunState<V>)
      requires builder.Valid() && AllFed(builder.graph, st.runs) && Mirrors(st) && Consistent(builder.graph, st, {}, [])
      requires id in futureNodeMap && futureNodeMap[id] in st.running && futureNodeMap[id] in idOf
      requires Invoked(idOf, st.runs, st.running - {futureNodeMap[id]})
      modifies this`readyNodes, this`finishedNodes, builder.nodes`dependencyCount, builder.nodes`slots
      ensures Valid(st', idOf, {}) && n == futureNodeMap[id]
      ensures st'.runs == st.runs && st'.running == st.running - {n}
      ensures finishedNodes == old(finishedNodes) + 1
    {
      hide Consistent, WellFormed, Value, Linked, Instance.Valid, Builder.Valid, AllFed, Partitioned, Quiet, ValueOf;
      n := futureNodeMap[id];
      ResultIsValue(idOf, st.runs, st.running - {n}, n);
      UnparkKeeps(builder.graph, st, n);
      finishedNodes := finishedNodes + 1;
      st' := PropagateValue(n, builder.nodes[n].future.value, st.(running := st.running - {n}));
    }

    // wait_one, as the executor sees it: some running node is handed back, or the
    // instance is blocked for good.
    method WaitOne(ghost st: RunState<V>, ghost idOf: map<nat, nat>) returns (id: Option<nat>)
      requires Valid(st, idOf, {}) && st.running != {}
      modifies instance, instance.targets
      ensures builder.Valid() && Mirrors(st)
      ensures id.Some? ==>
                && id.value in futureNodeMap && futureNodeMap[id.value] in st.running && futureNodeMap[id.value] in idOf
                && Invoked(idOf, st.runs, st.running - {futureNodeMap[id.value]})
      ensures id.None? ==>
                && Invoked(idOf, st.runs, st.running) && instance.finished == {}
                && instance.clock == |instance.replies|
                && instance.pending + instance.model.lost != {}
    {
      hide Consistent, WellFormed, Value, Linked, Partitioned, Quiet, Absorb;
      ghost var before := instance.model;
      forall i | 0 <= i < |builder.nodes| && i !in idOf
        ensures builder.nodes[i].future !in instance.targets
      {
        FutureIsFree(idOf, st.runs, st.running, i);
      }
      id := instance.WaitOne();
      ghost var seen := instance.replies[old(instance.clock)..instance.clock];
      assert id.None? ==> seen == instance.replies[old(instance.clock)..];
      AbsorbLinks(builder.graph, before, futureNodeMap, idOf, st.runs, st.running, seen);
      if id.Some? {
        HandOutUnlinks(builder.graph, Absorb(before, seen), futureNodeMap, idOf, st.runs, st.running, id.value);
      } else {
        ghost var n :| n in st.running;
        RunningIsOutstanding(builder.graph, instance.model, futureNodeMap, idOf, st.runs, st.running, n);
      }
    }

    // The nodes without dependencies, in creation order.
    method Populate()
      requires builder.Valid() && builder.Unrun() && readyNodes == []
      modifies this`readyNodes
      ensures NoDup(readyNodes) && forall a, b :: 0 <= a < b < |readyNodes| ==> readyNodes[a] < readyNodes[b]
      ensures forall j: nat :: j in readyNodes <==> j < |builder.graph| && Senders(builder.graph, j) == []
      ensures Mirrors(StartState(builder.graph, readyNodes))
    {
      hide WellFormed, Successors;
      for i := 0 to |builder.nodes|
        invariant NoDup(readyNodes) && forall a, b :: 0 <= a < b < |readyNodes| ==> readyNodes[a] < readyNodes[b]
        invariant forall a :: 0 <= a < |readyNodes| ==> readyNodes[a] < i
        invariant forall j: nat :: j in readyNodes <==> j < i && Senders(builder.graph, j) == []
      {
        assert NotStarted(builder.graph, i, builder.nodes[i]);
        if builder.nodes[i].dependencyCount == 0 {
          readyNodes := readyNodes + [builder.nodes[i].id];
        }
      }
      assert forall i :: 0 <= i < |builder.nodes| ==> NotStarted(builder.graph, i, builder.nodes[i]);
    }

    // Runs everything that is ready, or up to the node whose args() throws.
    method RunReady(runningNodes: set<nat>, ghost st: RunState<V>, ghost idOf: map<nat, nat>)
      returns (threw: Option<nat>, running: set<nat>, ghost st': RunState<V>, ghost idOf': map<nat, nat>)
      requires Valid(st, idOf, {}) && runningNodes == st.running
      requires finishedNodes + |runningNodes| == |st.runs|
      modifies this, instance, builder.nodes`dependencyCount, builder.nodes`slots
      ensures threw.Some? ==> Thrown(st', idOf', threw.value)
      ensures threw.None? ==> Valid(st', idOf', {}) && st'.ready == []
      ensures running == st'.running && finishedNodes + |running| == |st'.runs|
      ensures 2 * |st'.runs| - |running| >= 2 * |st.runs| - |runningNodes|
    {
      hide Consistent, WellFormed, Value, Linked, Instance.Valid, Builder.Valid, Targets, Thrown, AllFed;
      threw, running, st', idOf' := None, runningNodes, st, idOf;
      while readyNodes != []
        invariant Valid(st', idOf', {}) && running == st'.running
        invariant finishedNodes + |running| == |st'.runs|
        invariant threw.None? && 2 * |st'.runs| - |running| >= 2 * |st.runs| - |runningNodes|
        decreases |builder.graph| - |st'.runs|
      {
        var started;
        threw, started, st', idOf' := RunLast(st', idOf');
        if threw.Some? { return; }
        if started.Some? {
          running := running + {started.value};
        }
        RunsBounded(builder.graph, st', {});
      }
    }

    // Everything the caller is promised about node `n` once it has propagated.
    ghost predicate Settled(n: nat)
      reads builder, builder.nodes, set n | n in builder.nodes :: n.future
    {
      n < |builder.nodes| && builder.nodes[n].future.value == ValueOf(builder.graph, n)
    }

    // The future of task node `n` holds what its task makes of arguments, each of which is
    // held by the future of the sender at the place it belongs to.
    ghost predicate Applied(n: nat, args: seq<V>)
      reads builder, builder.nodes, set n | n in builder.nodes :: n.future
    {
      n < |builder.nodes| == |builder.graph| && builder.graph[n].TaskNode? &&
      var senders := builder.graph[n].senders;
      && |args| == builder.graph[n].task.arity == ArgIndex(senders, |senders|)
      && builder.nodes[n].future.value == Some(builder.graph[n].task.body(args))
      && forall m :: 0 <= m < |senders| && !senders[m].isVoid ==>
           && senders[m].id < |builder.nodes| && ArgIndex(senders, m) < |args|
           && builder.nodes[senders[m].id].future.value == Some(args[ArgIndex(senders, m)])
    }

    ghost predicate Computed(n: nat)
      reads builder, builder.nodes, set n | n in builder.nodes :: n.future
    {
      && WellFormed(builder.graph) && n < |builder.graph|
      && (builder.graph[n].TaskNode? ==> Applied(n, ValueArgs(builder.graph, n)))
    }

    lemma SettledIsComputed(st: RunState<V>, n: nat)
      requires builder.Valid() && Consistent(builder.graph, st, {}, []) && AllFed(builder.graph, st.runs)
      requires n in st.done && n < |builder.graph| && forall i :: i in st.done ==> Settled(i)
      ensures Computed(n)
    {
      hide WellFormed, Value, CountsDeps, FillsSlots, ArgIndex, Chainable;
      var g := builder.graph;
      if g[n].SourceNode? { return; }
      var senders := g[n].senders;
      StartedAfterSenders(g, st, {}, n);
      CreatedAfterSenders(g, n);
      ValueIdsAreSenders(senders);
      ValueIdsCount(senders);
      assert n in Started(st, {}) && n in st.runs;
      var args := ValueArgs(g, n);
      forall m | 0 <= m < |senders| && !senders[m].isVoid
        ensures senders[m].id < |builder.nodes| && ArgIndex(senders, m) < |args|
        ensures builder.nodes[senders[m].id].future.value == Some(args[ArgIndex(senders, m)])
      {
        ValueIdsAt(senders, m);
        assert senders[m] in Senders(g, n) && Settled(senders[m].id);
      }
      assert Settled(n) && Applied(n, args);
    }

    lemma DoneIsSettled(st: RunState<V>, idOf: map<nat, nat>, n: nat)
      requires builder.Valid() && Invoked(idOf, st.runs, st.running) && Consistent(builder.graph, st, {}, [])
      requires n in st.done
      ensures n < |builder.graph| && Settled(n)
    {
      hide Instance.Valid, WellFormed, Value, CountsDeps, FillsSlots;
      assert n in Started(st, {}) && n in st.runs;
      if n in idOf {
        ResultIsValue(idOf, st.runs, st.running, n);
      } else {
        assert builder.graph[n].SourceNode?;
      }
    }

    // The state before the first turn of the loop.
    method Start() returns (ghost st: RunState<V>)
      requires builder.Valid() && builder.Unrun()
      requires instance.Valid() && instance.model == Initial()
      requires readyNodes == [] && futureNodeMap == map[]
      modifies this`readyNodes
      ensures Valid(st, map[], {}) && st.runs == [] && st.running == {}
    {
      hide Consistent, WellFormed, Value, Partitioned, Quiet;
      Populate();
      st := StartState(builder.graph, readyNodes);
      StartConsistent(builder.graph, readyNodes);
      assert forall i :: 0 <= i < |builder.nodes| ==> NotStarted(builder.graph, i, builder.nodes[i]);
    }

    lemma AllHandedBack(st: RunState<V>, idOf: map<nat, nat>)
      requires Valid(st, idOf, {}) && st.running == {}
      ensures instance.pending + instance.model.lost == {}
    {
      hide Partitioned, Linked, WellFormed, Value, Consistent, Quiet, Builder.Valid;
      NothingOutstanding(builder.graph, instance.model, futureNodeMap, idOf, st.runs, st.running);
    }

    // What has propagated is settled, whichever way the loop is left.
    lemma Settle(st: RunState<V>, idOf: map<nat, nat>)
      requires builder.Valid() && Invoked(idOf, st.runs, st.running) && Consistent(builder.graph, st, {}, [])
      requires AllFed(builder.graph, st.runs)
      ensures forall n :: n in st.done ==> Settled(n) && Computed(n)
    {
      hide Instance.Valid, WellFormed, Value, CountsDeps, FillsSlots, Targets, Linked, AllFed, Settled, Computed;
      forall n | n in st.done ensures n < |builder.graph| && Settled(n) { DoneIsSettled(st, idOf, n); }
      forall n | n in st.done ensures Computed(n) { SettledIsComputed(st, n); }
    }

    // With nothing ready and nothing running every node has run and propagated.
    lemma Conclude(st: RunState<V>, idOf: map<nat, nat>)
      requires Valid(st, idOf, {}) && st.ready == [] && st.running == {}
      ensures forall n: nat :: n < |builder.graph| ==> n in st.done && builder.nodes[n].dependencyCount == 0
      ensures |st.runs| == |builder.graph| && Saturated(builder.graph)
      ensures instance.pending + instance.model.lost == {}
    {
      hide Instance.Valid, WellFormed, Value, CountsDeps, FillsSlots, Targets, Linked, Fed;
      AllHandedBack(st, idOf);
      forall n: nat | n < |builder.graph|
        ensures n in st.done && n in st.runs && builder.nodes[n].dependencyCount == 0
      {
        AllDone(builder.graph, st, n);
      }
      RunsBounded(builder.graph, st, {});
    }

    // await_all: it comes to its end, blocks in wait_one for good, or args() of some
    // node throws. `st` is the state it ends in; in the last case, the one before that
    // node was taken off the ready stack. `idOf` are the invocations made, one for each
    // task node that was run.
    method AwaitAll() returns (ending: Ending, ghost st: RunState<V>, ghost idOf: map<nat, nat>)
      requires builder.Valid() && builder.Unrun()
      requires instance.Valid() && instance.model == Initial()
      requires readyNodes == [] && futureNodeMap == map[] && finishedNodes == 0
      modifies this, instance, instance.targets, builder.nodes`dependencyCount, builder.nodes`slots
      modifies set n | n in builder.nodes :: n.future
      ensures builder.Valid() && instance.Valid() && Consistent(builder.graph, st, {}, [])
      ensures ending.Threw? ==>
                && st.ready != [] && ending.node == st.ready[|st.ready| - 1] < |builder.graph|
                && !Fed(builder.graph, ending.node)
                && forall s :: s in Senders(builder.graph, ending.node) ==> s.id in st.done
      ensures Mirrors(if ending.Threw? then Pop(st) else st)
      ensures Invoked(idOf, st.runs, st.running)
      ensures forall n :: n in st.done ==> Settled(n) && Computed(n)
      ensures ending.Drained? <==> Saturated(builder.graph) && instance.pending + instance.model.lost == {}
      ensures NeverFails(instance.replies) ==>
                (ending.Drained? <==> Saturated(builder.graph) && instance.pending == {})
      ensures ending.Drained? ==>
                && (forall n: nat :: n < |builder.graph| ==> n in st.done && builder.nodes[n].dependencyCount == 0)
                && |st.runs| == |builder.graph| == finishedNodes
      ensures ending.Blocked? ==>
                && instance.clock == |instance.replies| && instance.finished == {}
                && instance.pending + instance.model.lost != {}
    {
      hide Consistent, WellFormed, Value, Linked, Partitioned, Quiet;
      hide Instance.Valid, Builder.Valid, Mirrors, Settled, Computed, Fed, Saturated;
      hide NeverFails;
      st := Start();
      idOf := map[];
      var runningNodes := {};
      while true
        invariant Valid(st, idOf, {}) && runningNodes == st.running
        invariant finishedNodes + |runningNodes| == |st.runs|
        decreases 2 * |builder.graph| - 2 * |st.runs| + |runningNodes|
      {
        var threw;
        threw, runningNodes, st, idOf := RunReady(runningNodes, st, idOf);
        if threw.Some? {
          ThrownLast(st, threw.value);
          Settle(st, idOf);
          NothingLost(instance);
          return Threw(threw.value), st, idOf;
        }
        RunsBounded(builder.graph, st, {});
        if runningNodes == {} {
          Settle(st, idOf);
          Conclude(st, idOf);
          return Drained, st, idOf;
        }
        var res := WaitOne(st, idOf);
        if res.None? {
          Settle(st, idOf);
          NothingLost(instance);
          return Blocked, st, idOf;
        }
        var n;
        n, st := FinishOne(res.value, st, idOf);
        runningNodes := runningNodes - {n};
      }
    }

    lemma ThrownLast(st: RunState<V>, i: nat)
      requires Consistent(builder.graph, st, {}, []) && st.ready != [] && st.ready[|st.ready| - 1] == i
      requires i < |builder.graph| && !Fed(builder.graph, i)
      ensures !Saturated(builder.graph)
      ensures forall s :: s in Senders(builder.graph, i) ==> s.id in st.done
    {
      hide WellFormed, CountsDeps, FillsSlots, Fed;
      PopKeeps(builder.graph, st);
      StartedAfterSenders(builder.graph, Pop(st), {i}, i);
    }
  }
}
