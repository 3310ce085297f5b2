// The task graph built by `schedule` and `then`: nodes, receiver slots, successor
// lists and dependency counters, and the graph they stand for.
module TaskGraph {
  import opened Wrappers
  import opened Dispatching

  datatype Task<!V> = Task(arity: nat, body: seq<V> -> V)

  // A node passed to `then`; whether it sends nothing is part of its type.
  datatype Sender = Sender(id: nat, isVoid: bool)

  // What a node was created from: a source, or a task and the senders it was
  // chained after, in argument order.
  datatype NodeSpec<!V> = SourceNode | TaskNode(task: Task<V>, senders: seq<Sender>)

  type Graph<!V> = seq<NodeSpec<V>>

  // A receiver slot: the node that owns it and, unless it is an empty slot, the
  // index of the argument it holds.
  datatype Successor = Successor(owner: nat, slot: Option<nat>)

  function Senders<V>(g: Graph<V>, j: nat): seq<Sender>
    requires j < |g|
  {
    match g[j] case SourceNode => [] case TaskNode(_, senders) => senders
  }

  // The ids of the senders that carry a value, in order.
  function ValueIds(senders: seq<Sender>): seq<nat> {
    if senders == [] then []
    else if senders[0].isVoid then ValueIds(senders[1..])
    else [senders[0].id] + ValueIds(senders[1..])
  }

  lemma {:induction false} ValueIdsAreSenders(senders: seq<Sender>)
    ensures forall k :: 0 <= k < |ValueIds(senders)| ==> Sender(ValueIds(senders)[k], false) in senders
  {
    if senders != [] { ValueIdsAreSenders(senders[1..]); }
  }

  // How many senders before place m carry a value: the index of the argument that the
  // sender at place m provides.
  ghost function ArgIndex(senders: seq<Sender>, m: nat): nat
    requires m <= |senders|
  {
    |set k | 0 <= k < m && !senders[k].isVoid|
  }

  lemma ArgIndexNext(senders: seq<Sender>, m: nat)
    requires m < |senders|
    ensures ArgIndex(senders, m + 1) == ArgIndex(senders, m) + if senders[m].isVoid then 0 else 1
  {
    var before := set k | 0 <= k < m && !senders[k].isVoid;
    var upTo := set k | 0 <= k < m + 1 && !senders[k].isVoid;
    assert upTo == if senders[m].isVoid then before else before + {m};
  }

  lemma {:induction false} ArgIndexTail(senders: seq<Sender>, m: nat)
    requires m < |senders|
    ensures ArgIndex(senders, m + 1) == ArgIndex(senders[1..], m) + if senders[0].isVoid then 0 else 1
    decreases m
  {
    ArgIndexNext(senders, m);
    if m > 0 {
      ArgIndexTail(senders, m - 1);
      ArgIndexNext(senders[1..], m - 1);
    }
  }

  // The sender at place m provides the argument of that index, and every argument has
  // such a sender.
  lemma {:induction false} ValueIdsAt(senders: seq<Sender>, m: nat)
    requires m < |senders| && !senders[m].isVoid
    ensures ArgIndex(senders, m) < |ValueIds(senders)| && ValueIds(senders)[ArgIndex(senders, m)] == senders[m].id
    decreases m
  {
    if m > 0 {
      ArgIndexTail(senders, m - 1);
      ValueIdsAt(senders[1..], m - 1);
    }
  }

  lemma {:induction false} ValueIdsCount(senders: seq<Sender>)
    ensures |ValueIds(senders)| == ArgIndex(senders, |senders|)
  {
    if senders != [] {
      ValueIdsCount(senders[1..]);
      ArgIndexTail(senders, |senders| - 1);
    }
  }

  lemma {:induction false} ValueIdFrom(senders: seq<Sender>, k: nat) returns (m: nat)
    requires k < |ValueIds(senders)|
    ensures m < |senders| && senders[m] == Sender(ValueIds(senders)[k], false) && ArgIndex(senders, m) == k
  {
    if senders[0].isVoid {
      m := ValueIdFrom(senders[1..], k);
      ArgIndexTail(senders, m);
      m := m + 1;
    } else if k == 0 {
      m := 0;
    } else {
      m := ValueIdFrom(senders[1..], k - 1);
      ArgIndexTail(senders, m);
      m := m + 1;
    }
  }

  // `then` needs a sender, existing senders, and a parameter for every value sent.
  predicate Chainable<V>(g: Graph<V>, x: NodeSpec<V>) {
    x.TaskNode? ==>
      && x.senders != []
      && |ValueIds(x.senders)| <= x.task.arity
      && forall s :: s in x.senders ==> s.id < |g| && (s.isVoid <==> g[s.id].SourceNode?)
  }

  // Every node was created after its senders.
  predicate WellFormed<V>(g: Graph<V>) {
    g == [] || (WellFormed(g[..|g| - 1]) && Chainable(g[..|g| - 1], g[|g| - 1]))
  }

  lemma {:induction false} CreatedAfterSenders<V>(g: Graph<V>, j: nat)
    requires WellFormed(g) && j < |g|
    ensures Chainable(g[..j], g[j]) && Chainable(g, g[j])
    ensures forall s :: s in Senders(g, j) ==> s.id < j
  {
    var n := |g| - 1;
    if j < n {
      CreatedAfterSenders(g[..n], j);
      assert g[..n][..j] == g[..j];
    }
  }

  // Every parameter of the task gets a value.
  ghost predicate Fed<V>(g: Graph<V>, j: nat)
    requires j < |g|
  {
    g[j].TaskNode? ==> ArgIndex(g[j].senders, |g[j].senders|) == g[j].task.arity
  }

  ghost predicate Saturated<V>(g: Graph<V>) {
    forall j :: 0 <= j < |g| ==> Fed(g, j)
  }

  ghost predicate AllFed<V>(g: Graph<V>, runs: seq<nat>) {
    forall n: nat :: n in runs ==> n < |g| && Fed(g, n)
  }

  // The slots that chaining `owner` after `senders` appends to node `i`; `slot` is
  // the next argument index.
  function Entries(owner: nat, senders: seq<Sender>, slot: nat, i: nat): seq<Successor> {
    if senders == [] then []
    else
      var rest := Entries(owner, senders[1..], NextSlot(slot, senders[0]), i);
      if senders[0].id == i then [Slot(owner, slot, senders[0])] + rest else rest
  }

  function NextSlot(slot: nat, sender: Sender): nat {
    if sender.isVoid then slot else slot + 1
  }

  function Slot(owner: nat, slot: nat, sender: Sender): Successor {
    Successor(owner, if sender.isVoid then None else Some(slot))
  }

  // The successor list of node `i` once all nodes of `g` have been created.
  function Successors<V>(g: Graph<V>, i: nat): seq<Successor> {
    if g == [] then []
    else
      var n := |g| - 1;
      Successors(g[..n], i) + Entries(n, Senders(g, n), 0, i)
  }

  // The meaning of the graph: the value of a task node is its task applied to the
  // values of its value-carrying senders, in argument order.
  ghost function Value<V>(g: Graph<V>, j: nat): V
    requires WellFormed(g) && j < |g| && g[j].TaskNode?
    decreases j, 1, 0
  {
    CreatedAfterSenders(g, j);
    ValueIdsAreSenders(g[j].senders);
    g[j].task.body(Values(g, j, ValueIds(g[j].senders)))
  }

  ghost function Values<V>(g: Graph<V>, j: nat, ids: seq<nat>): (r: seq<V>)
    requires WellFormed(g) && j < |g| && forall k :: 0 <= k < |ids| ==> ids[k] < j && g[ids[k]].TaskNode?
    ensures |r| == |ids| && forall k :: 0 <= k < |ids| ==> r[k] == Value(g, ids[k])
    decreases j, 0, |ids|
  {
    if ids == [] then [] else [Value(g, ids[0])] + Values(g, j, ids[1..])
  }

  // The arguments a task node is applied to.
  ghost function ValueArgs<V>(g: Graph<V>, j: nat): (r: seq<V>)
    requires WellFormed(g) && j < |g| && g[j].TaskNode?
    ensures Value(g, j) == g[j].task.body(r) && |r| == |ValueIds(g[j].senders)|
    ensures forall k :: 0 <= k < |r| ==>
              ValueIds(g[j].senders)[k] < j && g[ValueIds(g[j].senders)[k]].TaskNode? &&
              r[k] == Value(g, ValueIds(g[j].senders)[k])
  {
    CreatedAfterSenders(g, j);
    ValueIdsAreSenders(g[j].senders);
    Values(g, j, ValueIds(g[j].senders))
  }

  /* ----- counting ----- */

  function CountOf(senders: seq<Sender>, i: nat): nat {
    if senders == [] then 0 else (if senders[0].id == i then 1 else 0) + CountOf(senders[1..], i)
  }

  function CountOwner(slots: seq<Successor>, j: nat): nat {
    if slots == [] then 0 else (if slots[0].owner == j then 1 else 0) + CountOwner(slots[1..], j)
  }

  // Incoming edges, with multiplicity, whose sender is not in `done`.
  function Waiting(senders: seq<Sender>, done: set<nat>): nat {
    if senders == [] then 0 else (if senders[0].id in done then 0 else 1) + Waiting(senders[1..], done)
  }

  lemma {:induction false} CountOwnerConcat(a: seq<Successor>, b: seq<Successor>, j: nat)
    ensures CountOwner(a + b, j) == CountOwner(a, j) + CountOwner(b, j)
  {
    if a == [] {
      assert a + b == b;
    } else {
      assert (a + b)[1..] == a[1..] + b;
      CountOwnerConcat(a[1..], b, j);
    }
  }

  lemma {:induction false} WaitingStep(senders: seq<Sender>, done: set<nat>, i: nat)
    requires i !in done
    ensures Waiting(senders, done) == Waiting(senders, done + {i}) + CountOf(senders, i)
  {
    if senders != [] { WaitingStep(senders[1..], done, i); }
  }

  lemma {:induction false} WaitingZero(senders: seq<Sender>, done: set<nat>)
    ensures Waiting(senders, done) == 0 <==> forall s :: s in senders ==> s.id in done
    ensures Waiting(senders, {}) == |senders|
  {
    if senders != [] {
      WaitingZero(senders[1..], done);
      assert forall s :: s in senders <==> s == senders[0] || s in senders[1..];
    }
  }

  lemma {:induction false} EntriesCount(owner: nat, senders: seq<Sender>, slot: nat, i: nat, j: nat)
    ensures CountOwner(Entries(owner, senders, slot, i), j) == if j == owner then CountOf(senders, i) else 0
  {
    if senders != [] {
      EntriesCount(owner, senders[1..], NextSlot(slot, senders[0]), i, j);
    }
  }

  // Node i notifies node j once for every time i occurs among j's senders.
  lemma {:induction false} SuccessorsCount<V>(g: Graph<V>, i: nat, j: nat)
    ensures CountOwner(Successors(g, i), j) == if j < |g| then CountOf(Senders(g, j), i) else 0
  {
    if g != [] {
      var n := |g| - 1;
      SuccessorsCount(g[..n], i, j);
      EntriesCount(n, Senders(g, n), 0, i, j);
      CountOwnerConcat(Successors(g[..n], i), Entries(n, Senders(g, n), 0, i), j);
    }
  }

  // Slot `slot + k` stands for the k-th value, an empty slot for a void sender.
  ghost predicate IsEntry(senders: seq<Sender>, slot: nat, i: nat, e: Option<nat>) {
    match e
    case None => Sender(i, true) in senders
    case Some(k) => slot <= k < slot + |ValueIds(senders)| && ValueIds(senders)[k - slot] == i
  }

  lemma {:induction false} EntriesSlots(owner: nat, senders: seq<Sender>, slot: nat, i: nat, e: Successor)
    ensures e in Entries(owner, senders, slot, i) <==> e.owner == owner && IsEntry(senders, slot, i, e.slot)
  {
    if senders != [] {
      var rest, first := senders[1..], senders[0];
      EntriesSlots(owner, rest, NextSlot(slot, first), i, e);
      assert Sender(i, true) in senders <==> first == Sender(i, true) || Sender(i, true) in rest;
      assert e in Entries(owner, senders, slot, i) <==>
             (first.id == i && e == Slot(owner, slot, first)) || e in Entries(owner, rest, NextSlot(slot, first), i);
    }
  }

  // Slot k of node j is on the successor list of i exactly when i is the k-th
  // value-carrying sender of j; the other entries are empty slots.
  lemma {:induction false} SuccessorsSlots<V>(g: Graph<V>, i: nat, e: Successor)
    ensures e in Successors(g, i) <==> e.owner < |g| && IsEntry(Senders(g, e.owner), 0, i, e.slot)
  {
    if g != [] {
      var n := |g| - 1;
      SuccessorsSlots(g[..n], i, e);
      EntriesSlots(n, Senders(g, n), 0, i, e);
    }
  }

  // Sender `i` stands at a place whose argument has index `k`.
  ghost predicate Provides(senders: seq<Sender>, i: nat, k: nat) {
    exists m :: 0 <= m < |senders| && senders[m] == Sender(i, false) && ArgIndex(senders, m) == k
  }

  // The same by place: a slot is on the list of the senders whose argument it holds.
  lemma SlotsByPlace(senders: seq<Sender>, slot: nat, i: nat, k: nat)
    ensures IsEntry(senders, slot, i, Some(slot + k)) <==> Provides(senders, i, k)
  {
    hide ArgIndex;
    if k < |ValueIds(senders)| { var m := ValueIdFrom(senders, k); }
    if Provides(senders, i, k) {
      var m :| 0 <= m < |senders| && senders[m] == Sender(i, false) && ArgIndex(senders, m) == k;
      ValueIdsAt(senders, m);
    }
  }

  // What ThenConnect appends, by the places of the senders.
  lemma EntriesByPlace(owner: nat, senders: seq<Sender>, slot: nat, i: nat)
    ensures forall k: nat ::
              Successor(owner, Some(slot + k)) in Entries(owner, senders, slot, i) <==> Provides(senders, i, k)
    ensures Successor(owner, None) in Entries(owner, senders, slot, i) <==> Sender(i, true) in senders
  {
    hide Entries, Provides;
    forall k: nat
      ensures Successor(owner, Some(slot + k)) in Entries(owner, senders, slot, i) <==> Provides(senders, i, k)
    {
      EntriesSlots(owner, senders, slot, i, Successor(owner, Some(slot + k)));
      SlotsByPlace(senders, slot, i, k);
    }
    EntriesSlots(owner, senders, slot, i, Successor(owner, None));
  }

  lemma {:induction false} EntriesAbsent(owner: nat, senders: seq<Sender>, slot: nat, i: nat)
    requires forall s :: s in senders ==> s.id != i
    ensures Entries(owner, senders, slot, i) == []
  {
    if senders != [] {
      assert senders[0] in senders;
      EntriesAbsent(owner, senders[1..], NextSlot(slot, senders[0]), i);
    }
  }

  // A node that has just been created, or not yet, has no successors.
  lemma {:induction false} SuccessorsOfNew<V>(g: Graph<V>, i: nat)
    requires WellFormed(g) && |g| <= i + 1
    ensures Successors(g, i) == []
  {
    if g != [] {
      var n := |g| - 1;
      SuccessorsOfNew(g[..n], i);
      EntriesAbsent(n, Senders(g, n), 0, i);
    }
  }

  lemma WellFormedExtend<V>(g: Graph<V>, x: NodeSpec<V>)
    requires WellFormed(g) && Chainable(g, x)
    ensures WellFormed(g + [x])
  {
    assert (g + [x])[..|g|] == g;
  }

  // Creating a node appends its slots to its senders and nothing else.
  lemma GrowNode<V>(g: Graph<V>, x: NodeSpec<V>, i: nat)
    requires WellFormed(g) && Chainable(g, x) && i <= |g|
    ensures Successors(g + [x], i) ==
            Successors(g, i) + Entries(|g|, if x.TaskNode? then x.senders else [], 0, i)
    ensures i == |g| ==> Successors(g + [x], i) == []
    ensures i < |g| ==> Senders(g + [x], i) == Senders(g, i)
  {
    assert (g + [x])[..|g|] == g;
    if i == |g| {
      SuccessorsOfNew(g + [x], i);
    }
  }

  /* ----- the objects ----- */

  class Node<V> {
    const id: nat
    const task: Option<Task<V>>
    const future: Future<V>
    var dependencyCount: int
    var slots: seq<Option<V>>
    var successors: seq<Successor>

    constructor (id: nat, task: Option<Task<V>>)
      ensures this.id == id && this.task == task && fresh(future) && future.value == None
      ensures dependencyCount == 0 && successors == []
      ensures slots == seq(if task.Some? then task.value.arity else 0, _ => None)
    {
      this.id := id;
      this.task := task;
      var cell := new Future<V>();
      future := cell;
      dependencyCount := 0;
      slots := seq(if task.Some? then task.value.arity else 0, _ => None);
      successors := [];
    }
  }

  // The node is what was created for node `i` of `g`; running does not change this.
  ghost predicate Implements<V>(g: Graph<V>, i: nat, node: Node<V>)
    reads node
    requires i < |g|
  {
    && node.id == i
    && node.task == (if g[i].TaskNode? then Some(g[i].task) else None)
    && node.successors == Successors(g, i)
  }

  // The node has not run and nothing has reached it.
  ghost predicate NotStarted<V>(g: Graph<V>, i: nat, node: Node<V>)
    reads node, node.future
    requires i < |g|
  {
    && node.dependencyCount == |Senders(g, i)|
    && node.slots == seq(if g[i].TaskNode? then g[i].task.arity else 0, _ => None)
    && node.future.value == None
  }

  // Node `i` holds the slots of node `owner` that its places among the senders give it:
  // the argument of that index, or an empty slot.
  ghost predicate Serves<V>(node: Node<V>, i: nat, owner: nat, senders: seq<Sender>)
    reads node
  {
    && (forall k: nat :: Successor(owner, Some(k)) in node.successors <==> Provides(senders, i, k))
    && (Successor(owner, None) in node.successors <==> Sender(i, true) in senders)
  }

  ghost predicate DistinctFutures<V>(nodes: seq<Node<V>>) {
    forall i, j :: 0 <= i < j < |nodes| ==> nodes[i].future != nodes[j].future
  }

  // `graph::builder`; the graph it has built so far is kept as a ghost.
  class Builder<V> {
    var nodes: seq<Node<V>>
    ghost var graph: Graph<V>

    ghost predicate Valid()
      reads this, nodes
    {
      && WellFormed(graph) && |nodes| == |graph| && NoDup(nodes) && DistinctFutures(nodes)
      && (forall i :: 0 <= i < |nodes| ==> Implements(graph, i, nodes[i]))
    }

    // Nothing has run yet.
    ghost predicate Unrun()
      reads this, nodes, set n | n in nodes :: n.future
      requires |nodes| == |graph|
    {
      forall i :: 0 <= i < |nodes| ==> NotStarted(graph, i, nodes[i])
    }

    constructor ()
      ensures Valid() && Unrun() && graph == []
    {
      nodes, graph := [], [];
    }

    // Both creation methods push a new node object.
    method Push(task: Option<Task<V>>) returns (node: Node<V>)
      requires Valid() && Unrun()
      modifies this`nodes
      ensures nodes == old(nodes) + [node] && NoDup(nodes) && DistinctFutures(nodes)
      ensures fresh(node) && node.id == |graph| && node.task == task && node.future.value == None
      ensures node.dependencyCount == 0 && node.successors == []
      ensures node.slots == seq(if task.Some? then task.value.arity else 0, _ => None)
      ensures forall i :: 0 <= i < |graph| ==> Implements(graph, i, nodes[i]) && NotStarted(graph, i, nodes[i])
    {
      node := new Node<V>(|nodes|, task);
      nodes := nodes + [node];
      forall i | 0 <= i < |graph|
        ensures Implements(graph, i, nodes[i]) && NotStarted(graph, i, nodes[i])
      {
        assert old(Implements(graph, i, nodes[i]) && NotStarted(graph, i, nodes[i]));
      }
    }

    // schedule
    method CreateSourceNode() returns (sender: Sender)
      requires Valid() && Unrun()
      modifies this
      ensures Valid() && Unrun()
      ensures sender == Sender(|old(nodes)|, true) && graph == old(graph) + [SourceNode]
      ensures nodes[..|nodes| - 1] == old(nodes) && fresh(nodes[|nodes| - 1])
    {
      var node := Push(None);
      sender := Sender(node.id, true);
      ghost var g := graph + [SourceNode];
      forall i | 0 <= i <= node.id
        ensures Implements(g, i, nodes[i]) && NotStarted(g, i, nodes[i])
      {
        GrowNode(graph, SourceNode, i);
      }
      WellFormedExtend(graph, SourceNode);
      graph := g;
    }

    // then
    method Then(senders: seq<Sender>, task: Task<V>) returns (sender: Sender)
      requires Valid() && Unrun()
      requires Chainable(graph, TaskNode(task, senders))
      modifies this, nodes
      ensures Valid() && Unrun()
      ensures sender == Sender(|old(nodes)|, false) && graph == old(graph) + [TaskNode(task, senders)]
      ensures nodes[..|nodes| - 1] == old(nodes) && fresh(nodes[|nodes| - 1])
      ensures forall i :: 0 <= i < |nodes| ==> Serves(nodes[i], i, sender.id, senders)
      ensures nodes[sender.id].dependencyCount == |senders|
    {
      var node := CreateNode(senders, task);
      sender := Sender(node.id, false);
      WellFormedExtend(graph, TaskNode(task, senders));
      graph := graph + [TaskNode(task, senders)];
      ConnectedByPlace(node.id, senders);
    }

    // Creates the node of a task, then connects it to its senders one by one.
    method CreateNode(senders: seq<Sender>, task: Task<V>) returns (node: Node<V>)
      requires Valid() && Unrun()
      requires Chainable(graph, TaskNode(task, senders))
      modifies this`nodes, nodes
      ensures nodes == old(nodes) + [node] && fresh(node) && node.id == |graph|
      ensures NoDup(nodes) && DistinctFutures(nodes)
      ensures var g := graph + [TaskNode(task, senders)];
              forall i :: 0 <= i < |g| ==> Implements(g, i, nodes[i]) && NotStarted(g, i, nodes[i])
    {
      node := Push(Some(task));
      label pushed:
      ThenConnect(0, node, senders);
      ghost var g := graph + [TaskNode(task, senders)];
      forall i | 0 <= i <= node.id
        ensures Implements(g, i, nodes[i]) && NotStarted(g, i, nodes[i])
      {
        GrowNode(graph, TaskNode(task, senders), i);
        assert i < node.id ==> old@pushed(Implements(graph, i, nodes[i]) && NotStarted(graph, i, nodes[i]));
      }
    }

    // The successor lists of the last node created, by the places of its senders.
    lemma ConnectedByPlace(n: nat, senders: seq<Sender>)
      requires Valid() && Unrun() && n == |graph| - 1 && graph[n].TaskNode? && graph[n].senders == senders
      ensures forall i :: 0 <= i < |nodes| ==> Serves(nodes[i], i, n, senders)
      ensures nodes[n].dependencyCount == |senders|
    {
      hide Provides, Successors, WellFormed, NoDup;
      assert NotStarted(graph, n, nodes[n]);
      forall i | 0 <= i < |nodes| ensures Serves(nodes[i], i, n, senders) {
        assert Implements(graph, i, nodes[i]);
        forall k: nat ensures Successor(n, Some(k)) in nodes[i].successors <==> Provides(senders, i, k) {
          SuccessorsSlots(graph, i, Successor(n, Some(k)));
          SlotsByPlace(senders, 0, i, k);
        }
        SuccessorsSlots(graph, i, Successor(n, None));
      }
    }

    // then_connect, for a node that is not one of its own senders
    method ThenConnect(slot: nat, input: Node<V>, senders: seq<Sender>)
      requires NoDup(nodes) && forall s :: s in senders ==> s.id < |nodes| && nodes[s.id] != input
      modifies input`dependencyCount, nodes`successors
      ensures forall i :: 0 <= i < |nodes| ==>
                nodes[i].successors == old(nodes[i].successors) + Entries(input.id, senders, slot, i)
      ensures input.dependencyCount == old(input.dependencyCount) + |senders|
      decreases |senders|
    {
      if senders == [] { return; }
      assert senders[0] in senders;
      var head := nodes[senders[0].id];
      input.dependencyCount := input.dependencyCount + 1;
      head.successors := head.successors + [Slot(input.id, slot, senders[0])];
      ThenConnect(NextSlot(slot, senders[0]), input, senders[1..]);
    }
  }
}
