// The dispatcher instances: how a task invocation is started, answered (possibly
// after several "429 too many requests" refusals) and handed back by `wait_one`.
//
// The protocol is first described as a transition system over values; the two
// instance classes are then proved to take exactly its steps.
module Dispatching {
  import opened Wrappers

  // Number of HTTP/2 sessions, used round robin.
  const NUM_CONNS := 16

  // What the network may answer to a submitted request.
  datatype Outcome = Success | TooManyRequests | OtherError

  datatype Reply = Reply(id: nat, outcome: Outcome)

  // State of one instance. `requests[id]` is the value the remote function
  // computes for invocation `id`; `written` holds the result targets filled so far.
  datatype Protocol<V> = Protocol(
    requests: seq<V>,
    inFlight: set<nat>,
    lost: set<nat>,
    finished: set<nat>,
    returned: seq<nat>,
    written: map<nat, V>,
    submissions: nat)

  datatype Action<V> = Dispatch(result: V) | Answer(reply: Reply) | HandOut(id: nat)

  function Initial<V>(): Protocol<V> {
    Protocol([], {}, {}, {}, [], map[], 0)
  }

  // The network only answers requests that are in flight, and wait_one only
  // hands out a finished id; dispatching is always possible.
  predicate Enabled<V>(s: Protocol<V>, a: Action<V>) {
    match a
    case Dispatch(_) => true
    case Answer(reply) => reply.id in s.inFlight && reply.id < |s.requests|
    case HandOut(id) => id in s.finished
  }

  function Step<V>(s: Protocol<V>, a: Action<V>): Protocol<V>
    requires Enabled(s, a)
  {
    match a
    case Dispatch(v) =>
      s.(requests := s.requests + [v], inFlight := s.inFlight + {|s.requests|}, submissions := s.submissions + 1)
    case Answer(Reply(id, Success)) =>
      s.(inFlight := s.inFlight - {id}, finished := s.finished + {id}, written := s.written[id := s.requests[id]])
    case Answer(Reply(_, TooManyRequests)) =>
      s.(submissions := s.submissions + 1)
    case Answer(Reply(id, OtherError)) =>
      s.(inFlight := s.inFlight - {id}, lost := s.lost + {id})
    case HandOut(id) =>
      s.(finished := s.finished - {id}, returned := s.returned + [id])
  }

  // A run is a sequence of actions, each enabled where it is taken.
  predicate IsRun<V>(actions: seq<Action<V>>)
    decreases |actions|, 0
  {
    actions == [] ||
    (IsRun(actions[..|actions| - 1]) && Enabled(After(actions[..|actions| - 1]), actions[|actions| - 1]))
  }

  function After<V>(actions: seq<Action<V>>): Protocol<V>
    requires IsRun(actions)
    decreases |actions|, 1
  {
    if actions == [] then Initial()
    else Step(After(actions[..|actions| - 1]), actions[|actions| - 1])
  }

  // How often action `a` occurs in a run.
  function Occurrences<V(==)>(actions: seq<Action<V>>, a: Action<V>): nat {
    if actions == [] then 0
    else Occurrences(actions[..|actions| - 1], a) + (if actions[|actions| - 1] == a then 1 else 0)
  }

  function Retries<V>(actions: seq<Action<V>>): nat {
    if actions == [] then 0
    else Retries(actions[..|actions| - 1]) +
         (match actions[|actions| - 1] case Answer(Reply(_, TooManyRequests)) => 1 case _ => 0)
  }

  // The ids handed out so far are partitioned into in flight, lost, finished and
  // returned; exactly the finished and returned ones have their target written,
  // with their own result.
  ghost predicate Partitioned<V>(s: Protocol<V>) {
    && NoDup(s.returned)
    && (forall id: nat :: id < |s.requests| <==>
          id in s.inFlight || id in s.lost || id in s.finished || id in s.returned)
    && s.inFlight !! s.lost
    && s.inFlight !! s.finished
    && s.lost !! s.finished
    && (forall id :: id in s.returned ==> id !in s.inFlight && id !in s.lost && id !in s.finished)
    && (forall id :: id in s.written <==> id in s.finished || id in s.returned)
    && (forall id :: id in s.written ==> id < |s.requests| && s.written[id] == s.requests[id])
  }

  lemma StepKeepsPartition<V>(s: Protocol<V>, a: Action<V>)
    requires Partitioned(s) && Enabled(s, a)
    ensures Partitioned(Step(s, a))
  {
    var t := Step(s, a);
    match a
    case Dispatch(v) =>
      assert forall id :: id in s.written ==> id < |s.requests|;
      assert |s.requests| !in s.inFlight && |s.requests| !in s.lost && |s.requests| !in s.finished;
      assert |s.requests| !in s.returned;
    case Answer(Reply(id, Success)) =>
    case Answer(Reply(_, TooManyRequests)) =>
    case Answer(Reply(id, OtherError)) =>
    case HandOut(id) =>
      assert id !in s.returned;
      assert forall x :: x in t.returned <==> x in s.returned || x == id;
  }

  lemma NewId<V>(s: Protocol<V>)
    requires Partitioned(s)
    ensures |s.requests| !in s.written && |s.requests| !in s.inFlight
  {
  }

  lemma IdInFlight<V>(s: Protocol<V>, id: nat)
    requires Partitioned(s) && id in s.inFlight
    ensures id < |s.requests| && id !in s.written && id !in s.finished
  {
  }

  // Main result for the protocol: over every run, ids are partitioned, every id
  // is returned at most once and only after its one successful answer, and the
  // number of submissions is the number of ids plus the number of 429 answers.
  lemma {:induction false} ExactlyOnceDelivery<V>(actions: seq<Action<V>>)
    requires IsRun(actions)
    ensures Partitioned(After(actions))
    ensures After(actions).submissions == |After(actions).requests| + Retries(actions)
    ensures forall id: nat ::
              var s := After(actions);
              var answered := Occurrences(actions, Answer(Reply(id, Success)));
              var handedOut := Occurrences(actions, HandOut(id));
              && handedOut <= answered <= 1
              && (answered == 1 <==> id in s.finished || id in s.returned)
              && (handedOut == 1 <==> id in s.returned)
              && (id in s.returned ==> id in s.written && id < |s.requests| && s.written[id] == s.requests[id])
  {
    if actions != [] {
      var before, last := actions[..|actions| - 1], actions[|actions| - 1];
      ExactlyOnceDelivery(before);
      StepKeepsPartition(After(before), last);
      var s, t := After(before), After(actions);
      assert last.HandOut? ==> forall x :: x in t.returned <==> x in s.returned || x == last.id;
    }
  }

  // The run without its 429 answers.
  function WithoutRetries<V>(actions: seq<Action<V>>): seq<Action<V>> {
    if actions == [] then []
    else
      var n := |actions| - 1;
      match actions[n]
      case Answer(Reply(_, TooManyRequests)) => WithoutRetries(actions[..n])
      case _ => WithoutRetries(actions[..n]) + [actions[n]]
  }

  // Refusals never create, lose or reorder anything: without them the run is still a
  // run, and it ends in the same state with one submission for each id.
  lemma {:induction false} RetriesAreInvisible<V>(actions: seq<Action<V>>)
    requires IsRun(actions)
    ensures var s, calm := After(actions), WithoutRetries(actions);
            && IsRun(calm) && Retries(calm) == 0
            && After(calm) == s.(submissions := |s.requests|)
  {
    if actions != [] {
      var n := |actions| - 1;
      var before, last := actions[..n], actions[n];
      RetriesAreInvisible(before);
      var calm, t := WithoutRetries(before), WithoutRetries(actions);
      if last.Answer? && last.reply.outcome == TooManyRequests {
        assert t == calm;
      } else {
        assert t[..|t| - 1] == calm && t[|t| - 1] == last;
      }
    }
  }

  /* ----- sessions ----- */

  // The k-th submission, first or repeated, went to session k modulo the number of
  // sessions, and `next` is the session of the next one.
  ghost predicate RoundRobin(sessions: seq<nat>, next: nat) {
    next == |sessions| % NUM_CONNS && forall k :: 0 <= k < |sessions| ==> sessions[k] == k % NUM_CONNS
  }

  // Number of submissions a session has got.
  function Load(sessions: seq<nat>, c: nat): nat {
    if sessions == [] then 0
    else Load(sessions[..|sessions| - 1], c) + if sessions[|sessions| - 1] == c then 1 else 0
  }

  // The load is spread evenly: sessions differ by at most one submission, and the
  // first ones are ahead.
  lemma {:induction false} SessionsBalanced(sessions: seq<nat>, next: nat, c: nat)
    requires RoundRobin(sessions, next) && c < 16
    ensures Load(sessions, c) == |sessions| / 16 + if c < next then 1 else 0
  {
    if sessions != [] {
      var n := |sessions| - 1;
      SessionsBalanced(sessions[..n], n % NUM_CONNS, c);
    }
  }

  // One turn of the event loop: a reply for a request that is not in flight has
  // no handler and changes nothing.
  function Arrive<V>(s: Protocol<V>, reply: Reply): Protocol<V> {
    if Enabled(s, Answer(reply)) then Step(s, Answer(reply)) else s
  }

  lemma ArriveKeepsPartition<V>(s: Protocol<V>, reply: Reply)
    requires Partitioned(s)
    ensures var t := Arrive(s, reply);
            && Partitioned(t) && t.requests == s.requests && t.returned == s.returned
            && t.inFlight == if reply.outcome == TooManyRequests then s.inFlight else s.inFlight - {reply.id}
  {
    if Enabled(s, Answer(reply)) { StepKeepsPartition(s, Answer(reply)); }
  }

  // Replies are processed in order of arrival.
  function Absorb<V>(s: Protocol<V>, replies: seq<Reply>): Protocol<V> {
    if replies == [] then s
    else Arrive(Absorb(s, replies[..|replies| - 1]), replies[|replies| - 1])
  }

  lemma {:induction false} AbsorbOne<V>(s: Protocol<V>, replies: seq<Reply>, reply: Reply)
    ensures Absorb(s, replies + [reply]) == Arrive(Absorb(s, replies), reply)
  {
    var all := replies + [reply];
    assert all[..|all| - 1] == replies;
  }

  ghost predicate Answers(replies: seq<Reply>, id: nat) {
    exists k :: 0 <= k < |replies| && replies[k].id == id && replies[k].outcome != TooManyRequests
  }

  lemma {:induction false} AnswersOneMore(replies: seq<Reply>, reply: Reply, id: nat)
    ensures Answers(replies + [reply], id) <==>
            Answers(replies, id) || (reply.id == id && reply.outcome != TooManyRequests)
  {
    var all := replies + [reply];
    assert forall k :: 0 <= k < |replies| ==> all[k] == replies[k];
    assert all[|replies|] == reply;
  }

  // After any replies, a request is still in flight exactly when it was and none
  // of them answered it for good.
  lemma {:induction false} StillInFlight<V>(s: Protocol<V>, replies: seq<Reply>, id: nat)
    requires Partitioned(s)
    ensures Partitioned(Absorb(s, replies))
    ensures Absorb(s, replies).requests == s.requests && Absorb(s, replies).returned == s.returned
    ensures id in Absorb(s, replies).inFlight <==> id in s.inFlight && !Answers(replies, id)
  {
    if replies != [] {
      var before, last := replies[..|replies| - 1], replies[|replies| - 1];
      StillInFlight(s, before, id);
      AnswersOneMore(before, last, id);
      assert replies == before + [last];
      ArriveKeepsPartition(Absorb(s, before), last);
    }
  }

  // No request still in flight has been answered since it was dispatched.
  ghost predicate Quiet(replies: seq<Reply>, dispatchedAt: seq<nat>, clock: nat, pending: set<nat>)
    requires clock <= |replies|
  {
    forall id :: id in pending ==>
      id < |dispatchedAt| && dispatchedAt[id] <= clock && !Answers(replies[dispatchedAt[id]..clock], id)
  }

  lemma QuietOneMore(replies: seq<Reply>, dispatchedAt: seq<nat>, clock: nat, pending: set<nat>, pending': set<nat>)
    requires clock < |replies| && Quiet(replies, dispatchedAt, clock, pending) && pending' <= pending
    requires replies[clock].id in pending' ==> replies[clock].outcome == TooManyRequests
    ensures Quiet(replies, dispatchedAt, clock + 1, pending')
  {
    forall id | id in pending'
      ensures !Answers(replies[dispatchedAt[id]..clock + 1], id)
    {
      AnswersOneMore(replies[dispatchedAt[id]..clock], replies[clock], id);
      assert replies[dispatchedAt[id]..clock + 1] == replies[dispatchedAt[id]..clock] + [replies[clock]];
    }
  }

  lemma QuietNew(replies: seq<Reply>, dispatchedAt: seq<nat>, clock: nat, pending: set<nat>, id: nat)
    requires clock <= |replies| && Quiet(replies, dispatchedAt, clock, pending) && id == |dispatchedAt|
    ensures Quiet(replies, dispatchedAt + [clock], clock, pending + {id})
  {
    assert replies[clock..clock] == [];
  }

  // Every lost request was answered with an error.
  ghost predicate Reported(replies: seq<Reply>, clock: nat, lost: set<nat>)
    requires clock <= |replies|
  {
    forall id :: id in lost ==> Failed(replies, clock, id)
  }

  ghost predicate Failed(replies: seq<Reply>, clock: nat, id: nat)
    requires clock <= |replies|
  {
    exists k :: 0 <= k < clock && replies[k] == Reply(id, OtherError)
  }

  lemma ReportedOneMore<V>(replies: seq<Reply>, clock: nat, s: Protocol<V>)
    requires clock < |replies| && Reported(replies, clock, s.lost)
    ensures Reported(replies, clock + 1, Arrive(s, replies[clock]).lost)
  {
    forall id | id in Arrive(s, replies[clock]).lost
      ensures Failed(replies, clock + 1, id)
    {
      if id in s.lost {
        var k :| 0 <= k < clock && replies[k] == Reply(id, OtherError);
        assert 0 <= k < clock + 1;
      } else {
        assert replies[clock] == Reply(id, OtherError);
      }
    }
  }

  // The network answers with results and refusals only.
  ghost predicate NeverFails(replies: seq<Reply>) {
    forall k :: 0 <= k < |replies| ==> replies[k].outcome != OtherError
  }

  // Then nothing is ever lost.
  lemma NothingLost<V>(instance: Instance<V>)
    requires instance.Valid()
    ensures NeverFails(instance.replies) ==> instance.model.lost == {}
  {
    hide Partitioned, RoundRobin, Quiet, NoDup;
  }

  // The result target of an invocation.
  class Future<V> {
    var value: Option<V>

    constructor ()
      ensures value == None
    {
      value := None;
    }
  }

  // aws_lambda_nghttp2_dispatcher_instance. `replies` is everything the network
  // will ever answer, in order of arrival, and `clock` how much of it has arrived;
  // `pending` are the requests for which a handler is still registered. `model` is
  // the protocol state this instance implements.
  class Instance<V> {
    const replies: seq<Reply>
    var clock: nat
    var started: nat
    var requests: seq<V>
    var targets: seq<Future<V>>
    var pending: set<nat>
    var finished: set<nat>
    var nextSession: nat
    ghost var sessions: seq<nat>
    ghost var model: Protocol<V>
    ghost var dispatchedAt: seq<nat>

    ghost predicate Valid()
      reads this, targets
    {
      && Partitioned(model)
      && requests == model.requests && pending == model.inFlight && finished == model.finished
      && started == |requests| == |targets| == |dispatchedAt|
      && clock <= |replies|
      && |sessions| == model.submissions && RoundRobin(sessions, nextSession)
      && NoDup(targets)
      && (forall id :: 0 <= id < |targets| ==>
            targets[id].value == if id in model.written then Some(model.written[id]) else None)
      && Quiet(replies, dispatchedAt, clock, pending) && Reported(replies, clock, model.lost)
    }

    constructor (replies: seq<Reply>)
      ensures Valid()
      ensures this.replies == replies && clock == 0 && targets == [] && model == Initial()
    {
      this.replies := replies;
      clock, started, nextSession := 0, 0, 0;
      requests, targets, dispatchedAt, sessions := [], [], [], [];
      pending, finished := {}, {};
      model := Initial();
    }

    // Submitting goes round robin over the sessions.
    method Submit()
      requires RoundRobin(sessions, nextSession)
      modifies this`nextSession, this`sessions
      ensures RoundRobin(sessions, nextSession) && |sessions| == |old(sessions)| + 1
    {
      sessions := sessions + [nextSession];
      nextSession := (nextSession + 1) % NUM_CONNS;
    }

    method DispatchImpl(result: V, target: Future<V>) returns (id: nat)
      requires Valid()
      requires target !in targets && target.value == None
      modifies this
      ensures Valid()
      ensures id == old(started) && model == Step(old(model), Dispatch(result))
      ensures targets == old(targets) + [target]
      ensures clock == old(clock) && dispatchedAt == old(dispatchedAt) + [clock]
    {
      hide RoundRobin, Partitioned, Quiet, Reported, NoDup;
      id := started;
      NoDupAdd(targets, target);
      NewId(model);
      StepKeepsPartition(model, Dispatch(result));
      QuietNew(replies, dispatchedAt, clock, pending, id);
      started := started + 1;
      requests := requests + [result];
      targets := targets + [target];
      pending := pending + {id};
      Submit();
      model := Step(model, Dispatch(result));
      dispatchedAt := dispatchedAt + [clock];
    }

    // The handler of a successful answer: fills the result target.
    method OnResult(id: nat)
      requires Valid() && clock < |replies| && replies[clock] == Reply(id, Success) && id in pending
      modifies this, targets
      ensures Valid()
      ensures clock == old(clock) + 1 && model == Arrive(old(model), replies[old(clock)])
      ensures targets == old(targets) && dispatchedAt == old(dispatchedAt)
    {
      hide RoundRobin, Partitioned, Quiet, Reported;
      IdInFlight(model, id);
      StepKeepsPartition(model, Answer(replies[clock]));
      ReportedOneMore(replies, clock, model);
      QuietOneMore(replies, dispatchedAt, clock, pending, pending - {id});
      model := Step(model, Answer(replies[clock]));
      targets[id].value := Some(requests[id]);
      pending := pending - {id};
      finished := finished + {id};
      clock := clock + 1;
    }

    // The error handler: a 429 resubmits the same request, any other error is
    // only reported.
    method OnError(reply: Reply)
      requires Valid() && clock < |replies| && replies[clock] == reply
      requires reply.id in pending && reply.outcome != Success
      modifies this
      ensures Valid()
      ensures clock == old(clock) + 1 && model == Arrive(old(model), replies[old(clock)])
      ensures targets == old(targets) && dispatchedAt == old(dispatchedAt)
    {
      hide RoundRobin, Partitioned, Quiet, Reported;
      IdInFlight(model, reply.id);
      StepKeepsPartition(model, Answer(reply));
      ReportedOneMore(replies, clock, model);
      model := Step(model, Answer(reply));
      if reply.outcome == TooManyRequests {
        QuietOneMore(replies, dispatchedAt, clock, pending, pending);
        Submit();
      } else {
        QuietOneMore(replies, dispatchedAt, clock, pending, pending - {reply.id});
        pending := pending - {reply.id};
      }
      clock := clock + 1;
    }

    // One turn of the event loop: the next reply arrives and its handler runs.
    method RunOne()
      requires Valid() && clock < |replies|
      modifies this, targets
      ensures Valid()
      ensures clock == old(clock) + 1 && model == Arrive(old(model), replies[old(clock)])
      ensures targets == old(targets) && dispatchedAt == old(dispatchedAt)
    {
      hide RoundRobin, Partitioned, Quiet, Reported;
      var reply := replies[clock];
      if reply.id !in pending {
        QuietOneMore(replies, dispatchedAt, clock, pending, pending);
        ReportedOneMore(replies, clock, model);
        clock := clock + 1;
      } else if reply.outcome == Success {
        OnResult(reply.id);
      } else {
        OnError(reply);
      }
    }

    // The event loop, entered while nothing is finished.
    method RunUntilFinished()
      requires Valid()
      modifies this, targets
      ensures Valid()
      ensures old(clock) <= clock && targets == old(targets) && dispatchedAt == old(dispatchedAt)
      ensures model == Absorb(old(model), replies[old(clock)..clock])
      ensures finished == {} ==> clock == |replies|
      ensures old(finished) != {} ==> clock == old(clock)
    {
      hide RoundRobin, Partitioned, Quiet, Reported;
      assert replies[clock..clock] == [];
      while finished == {} && clock < |replies|
        invariant Valid() && targets == old(targets) && dispatchedAt == old(dispatchedAt)
        invariant old(clock) <= clock && model == Absorb(old(model), replies[old(clock)..clock])
        invariant old(finished) != {} ==> clock == old(clock)
      {
        ghost var seen := replies[old(clock)..clock];
        AbsorbOne(old(model), seen, replies[clock]);
        assert replies[old(clock)..clock + 1] == seen + [replies[clock]];
        RunOne();
      }
    }

    // Blocks until some invocation is finished and hands out an arbitrary one of
    // them; None when it would block for ever.
    method WaitOne() returns (id: Option<nat>)
      requires Valid()
      modifies this, targets
      ensures Valid()
      ensures old(clock) <= clock && targets == old(targets) && dispatchedAt == old(dispatchedAt)
      ensures id.Some? ==>
                var s := Absorb(old(model), replies[old(clock)..clock]);
                Enabled(s, HandOut(id.value)) && model == Step(s, HandOut(id.value))
      ensures id.Some? && old(finished) != {} ==> clock == old(clock)
      ensures id.None? ==>
                clock == |replies| && finished == {} && model == Absorb(old(model), replies[old(clock)..])
    {
      hide RoundRobin, Partitioned, Quiet, Reported, Absorb;
      RunUntilFinished();
      if finished == {} {
        assert replies[old(clock)..clock] == replies[old(clock)..];
        return None;
      }
      var it :| it in finished;
      StepKeepsPartition(model, HandOut(it));
      finished := finished - {it};
      model := Step(model, HandOut(it));
      return Some(it);
    }
  }

  // local_dispatcher::instance. Every method body runs under the mutex, so one
  // call is one step; `finished` is a stack.
  class LocalInstance<V> {
    var nextId: nat
    var requests: seq<V>
    var targets: seq<Future<V>>
    var finished: seq<nat>
    ghost var model: Protocol<V>

    ghost predicate Valid()
      reads this, targets
    {
      && Partitioned(model) && model.lost == {}
      && requests == model.requests && nextId == |requests| == |targets|
      && NoDup(finished) && Elements(finished) == model.finished
      && NoDup(targets)
      && (forall id :: 0 <= id < |targets| ==>
            targets[id].value == if id in model.written then Some(model.written[id]) else None)
    }

    constructor ()
      ensures Valid() && targets == [] && model == Initial()
    {
      nextId, requests, targets, finished := 0, [], [], [];
      model := Initial();
    }

    method DispatchImpl(result: V, target: Future<V>) returns (id: nat)
      requires Valid()
      requires target !in targets && target.value == None
      modifies this
      ensures Valid()
      ensures id == old(nextId) && model == Step(old(model), Dispatch(result))
      ensures targets == old(targets) + [target]
    {
      hide Partitioned;
      NewId(model);
      id := nextId;
      nextId := nextId + 1;
      requests := requests + [result];
      targets := targets + [target];
      StepKeepsPartition(model, Dispatch(result));
      model := Step(model, Dispatch(result));
    }

    // The completion callback, run by the thread that waited for the process.
    method Complete(id: nat)
      requires Valid() && id in model.inFlight
      modifies this, targets
      ensures Valid()
      ensures model == Step(old(model), Answer(Reply(id, Success)))
      ensures targets == old(targets) && finished == old(finished) + [id]
    {
      hide Partitioned;
      IdInFlight(model, id);
      StepKeepsPartition(model, Answer(Reply(id, Success)));
      model := Step(model, Answer(Reply(id, Success)));
      targets[id].value := Some(requests[id]);
      finished := finished + [id];
    }

    // The part of wait_one after the condition variable has let it through.
    method WaitOne() returns (id: nat)
      requires Valid() && finished != []
      modifies this
      ensures Valid()
      ensures Enabled(old(model), HandOut(id)) && model == Step(old(model), HandOut(id))
      ensures targets == old(targets) && old(finished) == finished + [id]
    {
      hide Partitioned;
      id := finished[|finished| - 1];
      assert forall x :: x in finished[..|finished| - 1] <==> x in finished && x != id;
      StepKeepsPartition(model, HandOut(id));
      model := Step(model, HandOut(id));
      finished := finished[..|finished| - 1];
    }
  }
}
