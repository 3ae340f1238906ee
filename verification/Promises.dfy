/**
 Promises.

 `fulfill` and `reject` settle a promise without looking at its state.  That a promise settles at
 most once depends on who may call them: whoever holds an unused pair of resolving functions, a
 resolve that is still in progress (it has called out to read the resolution's `then`), or a queued
 job that will hand the resolution of a thenable to a new pair.  User code may run between any two
 of these steps, so a run is any sequence of them.
 */
module Promises {

  datatype Value = NoValue | Plain(id: int) | Object(id: int) | PromiseObject(p: nat) | SelfResolutionError

  datatype PromiseState = Pending | Fulfilled | Rejected

  datatype Kind = OnFulfilled | OnRejected

  datatype TrackerOp = TrackReject | TrackHandle

  /** A promise; reactions are known by their registration number. */
  datatype Promise = Promise(state: PromiseState, result: Value, fulfillReactions: seq<nat>,
    rejectReactions: seq<nat>, handled: bool)

  /** A resolve and a reject function that share one `alreadyResolved` flag. */
  datatype Pair = Pair(p: nat, alreadyResolved: bool)

  datatype Job = ThenableJob(p: nat, thenable: Value) | ReactionJob(r: nat, kind: Kind, argument: Value)

  /** A call of a resolve function that is reading the `then` of its resolution. */
  datatype Resolving = Resolving(p: nat, resolution: Value)

  datatype State = State(
    promises: seq<Promise>,
    pairs: seq<Pair>,
    resolving: seq<Resolving>,
    queue: seq<Job>,                    // jobs waiting
    enqueued: seq<Job>,                 // all jobs ever queued
    tracker: seq<(nat, TrackerOp)>,     // calls of the host's rejection tracker
    registered: seq<nat>)               // for each registration, the promise

  // ---------------------------------------------------------------------------------------
  // The operations

  function Enqueue(s: State, jobs: seq<Job>): State {
    s.(queue := s.queue + jobs, enqueued := s.enqueued + jobs)
  }

  /** One job per reaction, in the order of the list. */
  function Jobs(rs: seq<nat>, kind: Kind, argument: Value): (js: seq<Job>)
    ensures |js| == |rs|
  {
    if rs == [] then [] else Jobs(rs[..|rs| - 1], kind, argument) + [ReactionJob(rs[|rs| - 1], kind, argument)]
  }

  function Settled(s: State, p: nat, state: PromiseState, v: Value): State
    requires p < |s.promises|
  {
    s.(promises := s.promises[p := s.promises[p].(state := state, result := v, fulfillReactions := [],
      rejectReactions := [])])
  }

  function Fulfill(s: State, p: nat, v: Value): State
    requires p < |s.promises|
  {
    Enqueue(Settled(s, p, Fulfilled, v), Jobs(s.promises[p].fulfillReactions, OnFulfilled, v))
  }

  function Reject(s: State, p: nat, v: Value): State
    requires p < |s.promises|
  {
    var t := Settled(s, p, Rejected, v);
    var u := if s.promises[p].handled then t else t.(tracker := t.tracker + [(p, TrackReject)]);
    Enqueue(u, Jobs(s.promises[p].rejectReactions, OnRejected, v))
  }

  /** `createResolvingFunctions`. */
  function AddPair(s: State, p: nat): State {
    s.(pairs := s.pairs + [Pair(p, false)])
  }

  function AddReactions(s: State, p: nat): State
    requires p < |s.promises|
  {
    var q, r := s.promises[p], |s.registered|;
    var s1 := s.(registered := s.registered + [p]);
    match q.state
    case Pending =>
      s1.(promises := s.promises[p := q.(fulfillReactions := q.fulfillReactions + [r],
        rejectReactions := q.rejectReactions + [r], handled := true)])
    case Fulfilled =>
      Enqueue(s1.(promises := s.promises[p := q.(handled := true)]), [ReactionJob(r, OnFulfilled, q.result)])
    case Rejected =>
      var s2 := if q.handled then s1 else s1.(tracker := s1.tracker + [(p, TrackHandle)]);
      Enqueue(s2.(promises := s.promises[p := q.(handled := true)]), [ReactionJob(r, OnRejected, q.result)])
  }

  /** How reading `then` of a resolution can come out. */
  datatype ThenOutcome = ThenThrew(ex: Value) | ThenCallable | ThenOther

  datatype Action =
    | NewPromise
    | CallResolve(k: nat, resolution: Value)
    | FinishResolve(i: nat, outcome: ThenOutcome)
    | CallReject(k: nat, reason: Value)
    | Then(p: nat)
    | RunJob

  /** One step.  An action that names something that does not exist changes nothing. */
  function Step(s: State, a: Action): State {
    match a
    case NewPromise =>
      AddPair(s.(promises := s.promises + [Promise(Pending, NoValue, [], [], false)]), |s.promises|)
    case CallResolve(k, v) =>
      if k >= |s.pairs| || s.pairs[k].p >= |s.promises| || s.pairs[k].alreadyResolved then s
      else
        var p := s.pairs[k].p;
        var t := s.(pairs := s.pairs[k := Pair(p, true)]);
        if v == PromiseObject(p) then Reject(t, p, SelfResolutionError)
        else if v.Object? || v.PromiseObject? then t.(resolving := t.resolving + [Resolving(p, v)])
        else Fulfill(t, p, v)
    case FinishResolve(i, outcome) =>
      if i >= |s.resolving| || s.resolving[i].p >= |s.promises| then s
      else
        var Resolving(p, v) := s.resolving[i];
        var t := s.(resolving := s.resolving[..i] + s.resolving[i + 1..]);
        (match outcome
         case ThenThrew(ex) => Reject(t, p, ex)
         case ThenCallable => Enqueue(t, [ThenableJob(p, v)])
         case ThenOther => Fulfill(t, p, v))
    case CallReject(k, v) =>
      if k >= |s.pairs| || s.pairs[k].p >= |s.promises| || s.pairs[k].alreadyResolved then s
      else Reject(s.(pairs := s.pairs[k := Pair(s.pairs[k].p, true)]), s.pairs[k].p, v)
    case Then(p) => if p >= |s.promises| then s else AddReactions(s, p)
    case RunJob =>
      if s.queue == [] then s
      else
        var t := s.(queue := s.queue[1..]);
        (match s.queue[0]
         case ThenableJob(p, _) => AddPair(t, p)
         case ReactionJob(_, _, _) => t)
  }

  const EMPTY := State([], [], [], [], [], [], [])

  function Run(s: State, actions: seq<Action>): State {
    if actions == [] then s else Step(Run(s, actions[..|actions| - 1]), actions[|actions| - 1])
  }

  // ---------------------------------------------------------------------------------------
  // Who may still settle a promise

  function PairRights(pairs: seq<Pair>, p: nat): nat {
    if pairs == [] then 0
    else PairRights(pairs[..|pairs| - 1], p) + if pairs[|pairs| - 1] == Pair(p, false) then 1 else 0
  }

  function ResolvingRights(rs: seq<Resolving>, p: nat): nat {
    if rs == [] then 0
    else ResolvingRights(rs[..|rs| - 1], p) + if rs[|rs| - 1].p == p then 1 else 0
  }

  function JobRights(js: seq<Job>, p: nat): nat {
    if js == [] then 0
    else JobRights(js[..|js| - 1], p) + if js[|js| - 1].ThenableJob? && js[|js| - 1].p == p then 1 else 0
  }

  function Rights(s: State, p: nat): nat {
    PairRights(s.pairs, p) + ResolvingRights(s.resolving, p) + JobRights(s.queue, p)
  }

  /**
   A pending promise has exactly one live right to settle it, a settled one none, and no right is to
   a promise that does not exist.
   */
  ghost predicate RightsOk(s: State) {
    forall p: nat :: Rights(s, p) == if p < |s.promises| && s.promises[p].state.Pending? then 1 else 0
  }

  lemma {:induction false} PairUsed(pairs: seq<Pair>, k: nat, p: nat)
    requires k < |pairs| && !pairs[k].alreadyResolved
    ensures PairRights(pairs, p) == PairRights(pairs[k := Pair(pairs[k].p, true)], p) + if pairs[k].p == p then 1 else 0
  {
    var n := |pairs| - 1;
    var pairs' := pairs[k := Pair(pairs[k].p, true)];
    if k < n {
      assert pairs'[..n] == pairs[..n][k := Pair(pairs[k].p, true)];
      PairUsed(pairs[..n], k, p);
    } else {
      assert pairs'[..n] == pairs[..n];
    }
  }

  lemma {:induction false} ResolvingRemoved(rs: seq<Resolving>, i: nat, p: nat)
    requires i < |rs|
    ensures ResolvingRights(rs, p) == ResolvingRights(rs[..i] + rs[i + 1..], p) + if rs[i].p == p then 1 else 0
  {
    var n := |rs| - 1;
    var rest := rs[..i] + rs[i + 1..];
    if i < n {
      var shorter := rs[..n];
      ResolvingRemoved(shorter, i, p);
      var fewer := shorter[..i] + shorter[i + 1..];
      assert rest == fewer + [rs[n]];
      ResolvingAdded(fewer, rs[n], p);
    } else {
      assert rest == rs[..n];
    }
  }

  lemma {:induction false} JobTaken(js: seq<Job>, p: nat)
    requires js != []
    ensures JobRights(js, p) == JobRights(js[1..], p) + if js[0].ThenableJob? && js[0].p == p then 1 else 0
  {
    var n := |js| - 1;
    if n > 0 {
      assert js[1..][..n - 1] == js[..n][1..];
      JobTaken(js[..n], p);
    } else {
      assert js[..0] == [] && js[1..] == [];
    }
  }

  lemma {:induction false} JobsAdded(js: seq<Job>, more: seq<Job>, p: nat)
    ensures JobRights(js + more, p) == JobRights(js, p) + JobRights(more, p)
  {
    if more == [] {
      assert js + more == js;
    } else {
      assert (js + more)[..|js + more| - 1] == js + more[..|more| - 1];
      JobsAdded(js, more[..|more| - 1], p);
    }
  }

  lemma {:induction false} ReactionJobsHaveNoRights(rs: seq<nat>, kind: Kind, v: Value, p: nat)
    ensures JobRights(Jobs(rs, kind, v), p) == 0
  {
    if rs != [] {
      var js := Jobs(rs, kind, v);
      assert js[..|js| - 1] == Jobs(rs[..|rs| - 1], kind, v);
      ReactionJobsHaveNoRights(rs[..|rs| - 1], kind, v, p);
    }
  }

  /** Settling leaves all rights as they are: the right that was used is already gone. */
  lemma SettlingKeepsRights(s: State, p: nat, v: Value, q: nat)
    requires p < |s.promises|
    ensures Rights(Fulfill(s, p, v), q) == Rights(s, q) && Rights(Reject(s, p, v), q) == Rights(s, q)
  {
    var f, r := Jobs(s.promises[p].fulfillReactions, OnFulfilled, v),
      Jobs(s.promises[p].rejectReactions, OnRejected, v);
    JobsAdded(s.queue, f, q);
    JobsAdded(s.queue, r, q);
    ReactionJobsHaveNoRights(s.promises[p].fulfillReactions, OnFulfilled, v, q);
    ReactionJobsHaveNoRights(s.promises[p].rejectReactions, OnRejected, v, q);
  }

  lemma OneJobAdded(js: seq<Job>, j: Job, p: nat)
    ensures JobRights(js + [j], p) == JobRights(js, p) + if j.ThenableJob? && j.p == p then 1 else 0
  {
    assert (js + [j])[..|js|] == js;
  }

  lemma PairAdded(pairs: seq<Pair>, x: Pair, p: nat)
    ensures PairRights(pairs + [x], p) == PairRights(pairs, p) + if x == Pair(p, false) then 1 else 0
  {
    assert (pairs + [x])[..|pairs|] == pairs;
  }

  lemma ResolvingAdded(rs: seq<Resolving>, x: Resolving, p: nat)
    ensures ResolvingRights(rs + [x], p) == ResolvingRights(rs, p) + if x.p == p then 1 else 0
  {
    assert (rs + [x])[..|rs|] == rs;
  }

  /** The one right to a promise is taken from `s`, giving `t`; then settling it is in order. */
  lemma SettleOnce(s: State, t: State, p: nat, v: Value)
    requires RightsOk(s) && t.promises == s.promises && p < |s.promises|
    requires forall q: nat :: Rights(s, q) == Rights(t, q) + if q == p then 1 else 0
    ensures s.promises[p].state.Pending?
    ensures RightsOk(Fulfill(t, p, v)) && RightsOk(Reject(t, p, v))
  {
    assert Rights(s, p) == Rights(t, p) + 1;
    assert s.promises[p].state.Pending?;
    forall q: nat
      ensures Rights(Fulfill(t, p, v), q) == Rights(t, q) && Rights(Reject(t, p, v), q) == Rights(t, q)
    {
      SettlingKeepsRights(t, p, v, q);
    }
    forall q: nat
      ensures Rights(Fulfill(t, p, v), q) == if q < |s.promises|
        && Fulfill(t, p, v).promises[q].state.Pending? then 1 else 0
      ensures Rights(Reject(t, p, v), q) == if q < |s.promises|
        && Reject(t, p, v).promises[q].state.Pending? then 1 else 0
    {
      assert Rights(s, q) == Rights(t, q) + if q == p then 1 else 0;
      hide Rights;
    }
  }

  lemma StepKeepsRights(s: State, a: Action)
    requires RightsOk(s)
    ensures RightsOk(Step(s, a))
  {
    hide PairRights, ResolvingRights, JobRights;
    match a
    case NewPromise =>
      forall q: nat ensures Rights(Step(s, a), q) == Rights(s, q) + if q == |s.promises| then 1 else 0 {
        PairAdded(s.pairs, Pair(|s.promises|, false), q);
      }
    case CallResolve(k, v) => ResolveKeepsRights(s, k, v);
    case FinishResolve(i, outcome) => FinishKeepsRights(s, i, outcome);
    case CallReject(k, v) =>
      if k < |s.pairs| && s.pairs[k].p < |s.promises| && !s.pairs[k].alreadyResolved {
        var t := s.(pairs := s.pairs[k := Pair(s.pairs[k].p, true)]);
        forall q: nat ensures Rights(s, q) == Rights(t, q) + if q == s.pairs[k].p then 1 else 0 {
          PairUsed(s.pairs, k, q);
        }
        SettleOnce(s, t, s.pairs[k].p, v);
      }
    case Then(p) =>
      if p < |s.promises| {
        forall q: nat ensures Rights(Step(s, a), q) == Rights(s, q) {
          OneJobAdded(s.queue, ReactionJob(|s.registered|, OnFulfilled, s.promises[p].result), q);
          OneJobAdded(s.queue, ReactionJob(|s.registered|, OnRejected, s.promises[p].result), q);
        }
      }
    case RunJob =>
      if s.queue != [] {
        forall q: nat ensures Rights(Step(s, a), q) == Rights(s, q) {
          JobTaken(s.queue, q);
          if s.queue[0].ThenableJob? { PairAdded(s.pairs, Pair(s.queue[0].p, false), q); }
        }
      }
  }

  lemma ResolveKeepsRights(s: State, k: nat, v: Value)
    requires RightsOk(s)
    ensures RightsOk(Step(s, CallResolve(k, v)))
  {
    hide PairRights, ResolvingRights, JobRights;
    if k < |s.pairs| && s.pairs[k].p < |s.promises| && !s.pairs[k].alreadyResolved {
      var p := s.pairs[k].p;
      var t := s.(pairs := s.pairs[k := Pair(p, true)]);
      forall q: nat ensures Rights(s, q) == Rights(t, q) + if q == p then 1 else 0 {
        PairUsed(s.pairs, k, q);
      }
      SettleOnce(s, t, p, v);
      SettleOnce(s, t, p, SelfResolutionError);
      var u := t.(resolving := t.resolving + [Resolving(p, v)]);
      forall q: nat ensures Rights(u, q) == Rights(s, q) {
        ResolvingAdded(t.resolving, Resolving(p, v), q);
      }
      assert RightsOk(u);
      hide Rights, RightsOk, Fulfill, Reject;
    }
  }

  lemma FinishKeepsRights(s: State, i: nat, outcome: ThenOutcome)
    requires RightsOk(s)
    ensures RightsOk(Step(s, FinishResolve(i, outcome)))
  {
    hide PairRights, ResolvingRights, JobRights;
    if i < |s.resolving| && s.resolving[i].p < |s.promises| {
      var Resolving(p, v) := s.resolving[i];
      var t := s.(resolving := s.resolving[..i] + s.resolving[i + 1..]);
      forall q: nat ensures Rights(s, q) == Rights(t, q) + if q == p then 1 else 0 {
        ResolvingRemoved(s.resolving, i, q);
      }
      SettleOnce(s, t, p, v);
      if outcome.ThenThrew? { SettleOnce(s, t, p, outcome.ex); }
      var u := Enqueue(t, [ThenableJob(p, v)]);
      forall q: nat ensures Rights(u, q) == Rights(s, q) {
        OneJobAdded(t.queue, ThenableJob(p, v), q);
      }
      assert RightsOk(u);
      hide Rights, RightsOk, Fulfill, Reject, Enqueue;
    }
  }

  // ---------------------------------------------------------------------------------------
  // Once settled, for ever

  /** Nothing that happened to a settled promise is undone. */
  ghost predicate Later(s: State, t: State) {
    && |s.promises| <= |t.promises|
    && forall p :: 0 <= p < |s.promises| && !s.promises[p].state.Pending? ==>
         t.promises[p].state == s.promises[p].state && t.promises[p].result == s.promises[p].result
  }

  /** A step settles a promise only if it was pending. */
  lemma StepIsLater(s: State, a: Action)
    requires RightsOk(s)
    ensures Later(s, Step(s, a))
  {
    hide PairRights, ResolvingRights, JobRights;
    match a
    case NewPromise =>
    case CallResolve(k, v) =>
      if k < |s.pairs| && s.pairs[k].p < |s.promises| && !s.pairs[k].alreadyResolved { UnusedMeansPending(s, k); }
    case FinishResolve(i, outcome) =>
      if i < |s.resolving| && s.resolving[i].p < |s.promises| { ResolvingMeansPending(s, i); }
    case CallReject(k, v) =>
      if k < |s.pairs| && s.pairs[k].p < |s.promises| && !s.pairs[k].alreadyResolved { UnusedMeansPending(s, k); }
    case Then(p) =>
    case RunJob =>
  }

  /** Whoever holds an unused resolving function holds it for a pending promise. */
  lemma UnusedMeansPending(s: State, k: nat)
    requires RightsOk(s) && k < |s.pairs| && !s.pairs[k].alreadyResolved
    ensures s.pairs[k].p < |s.promises| && s.promises[s.pairs[k].p].state.Pending?
  {
    PairUsed(s.pairs, k, s.pairs[k].p);
    assert Rights(s, s.pairs[k].p) >= 1;
  }

  lemma ResolvingMeansPending(s: State, i: nat)
    requires RightsOk(s) && i < |s.resolving|
    ensures s.resolving[i].p < |s.promises| && s.promises[s.resolving[i].p].state.Pending?
  {
    ResolvingRemoved(s.resolving, i, s.resolving[i].p);
    assert Rights(s, s.resolving[i].p) >= 1;
  }

  // ---------------------------------------------------------------------------------------
  // Reactions

  /** The registrations made on a promise, in order. */
  function RegisteredFor(registered: seq<nat>, p: nat): (rs: seq<nat>)
    ensures forall i :: 0 <= i < |rs| ==> rs[i] < |registered| && registered[rs[i]] == p
  {
    if registered == [] then []
    else
      var n := |registered| - 1;
      RegisteredFor(registered[..n], p) + if registered[n] == p then [n] else []
  }

  /** The reaction jobs queued so far for the registrations of a promise, in order. */
  function JobsFor(js: seq<Job>, registered: seq<nat>, p: nat): seq<Job> {
    if js == [] then []
    else
      var n := |js| - 1;
      JobsFor(js[..n], registered, p)
      + if js[n].ReactionJob? && js[n].r < |registered| && registered[js[n].r] == p then [js[n]] else []
  }

  /**
   What a promise's reactions amount to: waiting in both lists, or queued once each, with the kind
   and the result it settled with.
   */
  ghost predicate ReactionsOk(s: State, p: nat)
    requires p < |s.promises|
  {
    var q, rs := s.promises[p], RegisteredFor(s.registered, p);
    match q.state
    case Pending => q.fulfillReactions == rs && q.rejectReactions == rs && JobsFor(s.enqueued, s.registered, p) == []
    case Fulfilled => JobsFor(s.enqueued, s.registered, p) == Jobs(rs, OnFulfilled, q.result)
    case Rejected => JobsFor(s.enqueued, s.registered, p) == Jobs(rs, OnRejected, q.result)
  }

  ghost predicate AllReactionsOk(s: State) {
    && (forall j :: 0 <= j < |s.enqueued| && s.enqueued[j].ReactionJob? ==> s.enqueued[j].r < |s.registered|)
    && (forall r :: 0 <= r < |s.registered| ==> s.registered[r] < |s.promises|)
    && (forall p :: 0 <= p < |s.promises| ==> ReactionsOk(s, p))
  }

  lemma {:induction false} JobsForAppend(js: seq<Job>, more: seq<Job>, registered: seq<nat>, p: nat)
    ensures JobsFor(js + more, registered, p) == JobsFor(js, registered, p) + JobsFor(more, registered, p)
  {
    if more == [] {
      assert js + more == js;
    } else {
      assert (js + more)[..|js + more| - 1] == js + more[..|more| - 1];
      JobsForAppend(js, more[..|more| - 1], registered, p);
    }
  }

  /** The jobs made for the registrations of `p` are jobs of `p`, and of nobody else. */
  lemma {:induction false} JobsOfReactions(rs: seq<nat>, kind: Kind, v: Value, registered: seq<nat>, p: nat, q: nat)
    requires forall i :: 0 <= i < |rs| ==> rs[i] < |registered| && registered[rs[i]] == p
    ensures JobsFor(Jobs(rs, kind, v), registered, q) == if q == p then Jobs(rs, kind, v) else []
  {
    if rs != [] {
      var js := Jobs(rs, kind, v);
      assert js[..|js| - 1] == Jobs(rs[..|rs| - 1], kind, v);
      JobsOfReactions(rs[..|rs| - 1], kind, v, registered, p, q);
    }
  }

  /** A new registration does not change whose the earlier jobs are. */
  lemma {:induction false} JobsForExtended(js: seq<Job>, registered: seq<nat>, x: nat, p: nat)
    requires forall j :: 0 <= j < |js| && js[j].ReactionJob? ==> js[j].r < |registered|
    ensures JobsFor(js, registered + [x], p) == JobsFor(js, registered, p)
  {
    if js != [] {
      JobsForExtended(js[..|js| - 1], registered, x, p);
    }
  }

  lemma RegisteredExtended(registered: seq<nat>, x: nat, p: nat)
    ensures RegisteredFor(registered + [x], p) == RegisteredFor(registered, p) + if x == p then [|registered|] else []
  {
    assert (registered + [x])[..|registered|] == registered;
  }

  lemma OneMoreJob(rs: seq<nat>, r: nat, kind: Kind, v: Value)
    ensures Jobs(rs + [r], kind, v) == Jobs(rs, kind, v) + [ReactionJob(r, kind, v)]
  {
    assert (rs + [r])[..|rs|] == rs;
  }

  lemma JobsAreRegistered(rs: seq<nat>, kind: Kind, v: Value, n: nat)
    requires forall i :: 0 <= i < |rs| ==> rs[i] < n
    ensures forall j :: 0 <= j < |Jobs(rs, kind, v)| ==> Jobs(rs, kind, v)[j].ReactionJob? && Jobs(rs, kind, v)[j].r < n
  {
  }

  /** Settling a pending promise queues its reactions, once each, and touches no other promise's. */
  lemma SettlingKeepsReactions(s: State, p: nat, v: Value)
    requires AllReactionsOk(s) && p < |s.promises| && s.promises[p].state.Pending?
    ensures AllReactionsOk(Fulfill(s, p, v)) && AllReactionsOk(Reject(s, p, v))
  {
    hide JobsFor, Jobs;
    assert ReactionsOk(s, p);
    var rs := RegisteredFor(s.registered, p);
    JobsAreRegistered(rs, OnFulfilled, v, |s.registered|);
    JobsAreRegistered(rs, OnRejected, v, |s.registered|);
    forall q | 0 <= q < |s.promises| ensures ReactionsOk(Fulfill(s, p, v), q) && ReactionsOk(Reject(s, p, v), q) {
      SettledReactions(s, p, v, q);
    }
    hide ReactionsOk, RegisteredFor;
  }

  lemma SettledReactions(s: State, p: nat, v: Value, q: nat)
    requires AllReactionsOk(s) && p < |s.promises| && s.promises[p].state.Pending? && q < |s.promises|
    ensures ReactionsOk(Fulfill(s, p, v), q) && ReactionsOk(Reject(s, p, v), q)
  {
    hide Jobs, JobsFor, RegisteredFor;
    var rs := RegisteredFor(s.registered, p);
    assert ReactionsOk(s, p) && ReactionsOk(s, q);
    JobsForAppend(s.enqueued, Jobs(rs, OnFulfilled, v), s.registered, q);
    JobsForAppend(s.enqueued, Jobs(rs, OnRejected, v), s.registered, q);
    JobsOfReactions(rs, OnFulfilled, v, s.registered, p, q);
    JobsOfReactions(rs, OnRejected, v, s.registered, p, q);
  }

  lemma ThenKeepsReactions(s: State, p: nat)
    requires AllReactionsOk(s) && p < |s.promises|
    ensures AllReactionsOk(AddReactions(s, p))
  {
    hide ReactionsOk;
    forall q | 0 <= q < |s.promises| ensures ReactionsOk(AddReactions(s, p), q) {
      ReactionsAfterThen(s, p, q);
    }
  }

  lemma ReactionsAfterThen(s: State, p: nat, q: nat)
    requires AllReactionsOk(s) && p < |s.promises| && q < |s.promises|
    ensures ReactionsOk(AddReactions(s, p), q)
  {
    hide Jobs, JobsFor, RegisteredFor;
    var r, registered := |s.registered|, s.registered + [p];
    assert ReactionsOk(s, q);
    RegisteredExtended(s.registered, p, q);
    JobsForExtended(s.enqueued, s.registered, p, q);
    var kind := if s.promises[p].state.Fulfilled? then OnFulfilled else OnRejected;
    var j := ReactionJob(r, kind, s.promises[p].result);
    JobsForAppend(s.enqueued, [j], registered, q);
    OneJobFor(j, registered, q);
    OneMoreJob(RegisteredFor(s.registered, q), r, kind, s.promises[p].result);
    var rs := RegisteredFor(s.registered, q);
    assert q != p ==> RegisteredFor(registered, q) == rs;
    var js := JobsFor(s.enqueued, s.registered, q);
    assert q != p ==> JobsFor(s.enqueued + [j], registered, q) == js;
  }

  lemma OneJobFor(j: Job, registered: seq<nat>, q: nat)
    requires j.ReactionJob? && j.r < |registered|
    ensures JobsFor([j], registered, q) == if registered[j.r] == q then [j] else []
  {
    assert [j][..0] == [];
  }

  lemma OtherJobsKeepReactions(s: State, t: State, more: seq<Job>)
    requires AllReactionsOk(s) && t.promises == s.promises && t.registered == s.registered
    requires t.enqueued == s.enqueued + more
    requires forall j :: 0 <= j < |more| ==> more[j].ThenableJob?
    ensures AllReactionsOk(t)
  {
    forall q | 0 <= q < |s.promises| ensures ReactionsOk(t, q) {
      assert ReactionsOk(s, q);
      JobsForAppend(s.enqueued, more, s.registered, q);
      NoReactions(more, s.registered, q);
      hide Jobs, JobsFor, RegisteredFor;
    }
  }

  lemma {:induction false} NoReactions(js: seq<Job>, registered: seq<nat>, p: nat)
    requires forall j :: 0 <= j < |js| ==> js[j].ThenableJob?
    ensures JobsFor(js, registered, p) == []
  {
    if js != [] { NoReactions(js[..|js| - 1], registered, p); }
  }

  lemma NewKeepsReactions(s: State)
    requires AllReactionsOk(s)
    ensures AllReactionsOk(Step(s, NewPromise))
  {
    var t, n := Step(s, NewPromise), |s.promises|;
    forall q | 0 <= q < |t.promises| ensures ReactionsOk(t, q) {
      if q < n {
        assert ReactionsOk(s, q);
      } else {
        NobodyRegistered(s.registered, n);
        NobodysJobs(s.enqueued, s.registered, n);
      }
      hide Jobs, JobsFor, RegisteredFor;
    }
  }

  lemma {:induction false} NobodyRegistered(registered: seq<nat>, n: nat)
    requires forall r :: 0 <= r < |registered| ==> registered[r] < n
    ensures RegisteredFor(registered, n) == []
  {
    if registered != [] { NobodyRegistered(registered[..|registered| - 1], n); }
  }

  lemma {:induction false} NobodysJobs(js: seq<Job>, registered: seq<nat>, n: nat)
    requires forall r :: 0 <= r < |registered| ==> registered[r] < n
    ensures JobsFor(js, registered, n) == []
  {
    if js != [] { NobodysJobs(js[..|js| - 1], registered, n); }
  }

  lemma StepKeepsReactions(s: State, a: Action)
    requires RightsOk(s) && AllReactionsOk(s)
    ensures AllReactionsOk(Step(s, a))
  {
    hide Rights, ReactionsOk, Fulfill, Reject, AddReactions;
    match a
    case NewPromise => NewKeepsReactions(s);
    case CallResolve(k, v) =>
      if k < |s.pairs| && s.pairs[k].p < |s.promises| && !s.pairs[k].alreadyResolved {
        UnusedMeansPending(s, k);
        var p := s.pairs[k].p;
        var t := s.(pairs := s.pairs[k := Pair(p, true)]);
        OtherJobsKeepReactions(s, t, []);
        SettlingKeepsReactions(t, p, v);
        SettlingKeepsReactions(t, p, SelfResolutionError);
        OtherJobsKeepReactions(s, t.(resolving := t.resolving + [Resolving(p, v)]), []);
      }
    case FinishResolve(i, outcome) =>
      if i < |s.resolving| && s.resolving[i].p < |s.promises| {
        ResolvingMeansPending(s, i);
        var Resolving(p, v) := s.resolving[i];
        var t := s.(resolving := s.resolving[..i] + s.resolving[i + 1..]);
        OtherJobsKeepReactions(s, t, []);
        SettlingKeepsReactions(t, p, v);
        if outcome.ThenThrew? { SettlingKeepsReactions(t, p, outcome.ex); }
        OtherJobsKeepReactions(s, Enqueue(t, [ThenableJob(p, v)]), [ThenableJob(p, v)]);
      }
    case CallReject(k, v) =>
      if k < |s.pairs| && s.pairs[k].p < |s.promises| && !s.pairs[k].alreadyResolved {
        UnusedMeansPending(s, k);
        var t := s.(pairs := s.pairs[k := Pair(s.pairs[k].p, true)]);
        OtherJobsKeepReactions(s, t, []);
        SettlingKeepsReactions(t, s.pairs[k].p, v);
      }
    case Then(p) => if p < |s.promises| { ThenKeepsReactions(s, p); }
    case RunJob => OtherJobsKeepReactions(s, Step(s, a), []);
  }

  // ---------------------------------------------------------------------------------------
  // The host's rejection tracker

  /** The calls made for one promise. */
  function TraceFor(tracker: seq<(nat, TrackerOp)>, p: nat): seq<TrackerOp> {
    if tracker == [] then []
    else
      var n := |tracker| - 1;
      TraceFor(tracker[..n], p) + if tracker[n].0 == p then [tracker[n].1] else []
  }

  /** Nothing, or a rejection, or a rejection that was handled afterwards: decided by the promise's state. */
  ghost predicate TraceOk(s: State, p: nat)
    requires p < |s.promises|
  {
    var q, t := s.promises[p], TraceFor(s.tracker, p);
    match q.state
    case Pending => t == []
    case Fulfilled => t == []
    case Rejected => if q.handled then t == [] || t == [TrackReject, TrackHandle] else t == [TrackReject]
  }

  ghost predicate TrackerOk(s: State) {
    && (forall i :: 0 <= i < |s.tracker| ==> s.tracker[i].0 < |s.promises|)
    && (forall p :: 0 <= p < |s.promises| ==> TraceOk(s, p))
  }

  lemma TraceExtended(tracker: seq<(nat, TrackerOp)>, x: (nat, TrackerOp), p: nat)
    ensures TraceFor(tracker + [x], p) == TraceFor(tracker, p) + if x.0 == p then [x.1] else []
  {
    assert (tracker + [x])[..|tracker|] == tracker;
  }

  lemma {:induction false} NobodysTrace(tracker: seq<(nat, TrackerOp)>, n: nat)
    requires forall i :: 0 <= i < |tracker| ==> tracker[i].0 < n
    ensures TraceFor(tracker, n) == []
  {
    if tracker != [] { NobodysTrace(tracker[..|tracker| - 1], n); }
  }

  lemma SettlingKeepsTracker(s: State, p: nat, v: Value)
    requires TrackerOk(s) && p < |s.promises| && s.promises[p].state.Pending?
    ensures TrackerOk(Fulfill(s, p, v)) && TrackerOk(Reject(s, p, v))
  {
    hide TraceFor, Jobs;
    forall q | 0 <= q < |s.promises| ensures TraceOk(Fulfill(s, p, v), q) && TraceOk(Reject(s, p, v), q) {
      assert TraceOk(s, q) && TraceOk(s, p);
      TraceExtended(s.tracker, (p, TrackReject), q);
    }
  }

  lemma StepKeepsTracker(s: State, a: Action)
    requires RightsOk(s) && TrackerOk(s)
    ensures TrackerOk(Step(s, a))
  {
    hide Rights, TraceFor, Fulfill, Reject;
    match a
    case NewPromise =>
      NobodysTrace(s.tracker, |s.promises|);
      forall q | 0 <= q < |s.promises| ensures TraceOk(Step(s, a), q) { assert TraceOk(s, q); }
    case CallResolve(k, v) =>
      if k < |s.pairs| && s.pairs[k].p < |s.promises| && !s.pairs[k].alreadyResolved {
        UnusedMeansPending(s, k);
        var t := s.(pairs := s.pairs[k := Pair(s.pairs[k].p, true)]);
        SameTracker(s, t);
        SettlingKeepsTracker(t, s.pairs[k].p, v);
        SettlingKeepsTracker(t, s.pairs[k].p, SelfResolutionError);
        SameTracker(s, t.(resolving := t.resolving + [Resolving(s.pairs[k].p, v)]));
      }
    case FinishResolve(i, outcome) =>
      if i < |s.resolving| && s.resolving[i].p < |s.promises| {
        ResolvingMeansPending(s, i);
        var Resolving(p, v) := s.resolving[i];
        var t := s.(resolving := s.resolving[..i] + s.resolving[i + 1..]);
        SameTracker(s, t);
        SettlingKeepsTracker(t, p, v);
        if outcome.ThenThrew? { SettlingKeepsTracker(t, p, outcome.ex); }
        SameTracker(s, Enqueue(t, [ThenableJob(p, v)]));
      }
    case CallReject(k, v) =>
      if k < |s.pairs| && s.pairs[k].p < |s.promises| && !s.pairs[k].alreadyResolved {
        UnusedMeansPending(s, k);
        var t := s.(pairs := s.pairs[k := Pair(s.pairs[k].p, true)]);
        SameTracker(s, t);
        SettlingKeepsTracker(t, s.pairs[k].p, v);
      }
    case Then(p) => if p < |s.promises| { ThenKeepsTracker(s, p); }
    case RunJob => SameTracker(s, Step(s, a));
  }

  lemma SameTracker(s: State, t: State)
    requires TrackerOk(s) && t.promises == s.promises && t.tracker == s.tracker
    ensures TrackerOk(t)
  {
    hide TraceFor;
    forall q | 0 <= q < |s.promises| ensures TraceOk(t, q) { assert TraceOk(s, q); }
  }

  lemma ThenKeepsTracker(s: State, p: nat)
    requires TrackerOk(s) && p < |s.promises|
    ensures TrackerOk(AddReactions(s, p))
  {
    hide TraceFor;
    forall q | 0 <= q < |s.promises| ensures TraceOk(AddReactions(s, p), q) {
      assert TraceOk(s, q) && TraceOk(s, p);
      TraceExtended(s.tracker, (p, TrackHandle), q);
    }
  }

  // ---------------------------------------------------------------------------------------
  // Every run

  /** Resolving functions belong to promises that exist. */
  ghost predicate PairsOk(s: State) {
    forall k :: 0 <= k < |s.pairs| ==> s.pairs[k].p < |s.promises|
  }

  lemma StepKeepsPairs(s: State, a: Action)
    requires RightsOk(s) && PairsOk(s)
    ensures PairsOk(Step(s, a))
  {
    if a.RunJob? && s.queue != [] && s.queue[0].ThenableJob? {
      JobTaken(s.queue, s.queue[0].p);
      assert Rights(s, s.queue[0].p) >= 1;
    }
    hide Rights;
  }

  /** A promise counts as handled just if something has been registered on it. */
  ghost predicate HandledOk(s: State) {
    forall p :: 0 <= p < |s.promises| ==> (s.promises[p].handled <==> p in s.registered)
  }

  lemma StepKeepsHandled(s: State, a: Action)
    requires RightsOk(s) && AllReactionsOk(s) && HandledOk(s)
    ensures HandledOk(Step(s, a))
  {
    hide Rights, ReactionsOk, Jobs;
    if a.Then? && a.p < |s.promises| {
      assert Step(s, a).registered == s.registered + [a.p];
    }
  }

  /** The jobs waiting are the last ones queued: they are taken in the order in which they came. */
  ghost predicate QueueOk(s: State) {
    exists n: nat :: n <= |s.enqueued| && s.queue == s.enqueued[n..]
  }

  /** A step takes the first job or none, and adds jobs at the end. */
  lemma QueueMoves(s: State, a: Action) returns (taken: nat, more: seq<Job>)
    ensures taken <= |s.queue|
    ensures Step(s, a).queue == s.queue[taken..] + more && Step(s, a).enqueued == s.enqueued + more
  {
    hide Jobs;
    taken := if a.RunJob? && s.queue != [] then 1 else 0;
    more := Step(s, a).queue[|s.queue| - taken..];
  }

  lemma StepKeepsQueue(s: State, a: Action)
    requires QueueOk(s)
    ensures QueueOk(Step(s, a))
  {
    hide Step;
    var taken, more := QueueMoves(s, a);
    var n: nat :| n <= |s.enqueued| && s.queue == s.enqueued[n..];
    SuffixMoves(s.enqueued, n, taken, more);
  }

  lemma SuffixMoves(js: seq<Job>, n: nat, taken: nat, more: seq<Job>)
    requires n <= |js| && taken <= |js[n..]|
    ensures js[n..][taken..] + more == (js + more)[n + taken..]
  {
  }

  ghost predicate Invariant(s: State) {
    RightsOk(s) && AllReactionsOk(s) && TrackerOk(s) && PairsOk(s) && HandledOk(s) && QueueOk(s)
  }

  lemma StepKeepsInvariant(s: State, a: Action)
    requires Invariant(s)
    ensures Invariant(Step(s, a))
  {
    hide RightsOk, AllReactionsOk, TrackerOk, PairsOk, HandledOk, QueueOk, Step;
    StepKeepsPairs(s, a);
    StepKeepsRights(s, a);
    StepKeepsReactions(s, a);
    StepKeepsTracker(s, a);
    StepKeepsHandled(s, a);
    StepKeepsQueue(s, a);
  }

  /**
   In every run: one right per pending promise and none per settled one, each reaction queued as it
   should be, jobs taken in order, and a sane tracker trace.
   */
  lemma {:induction false} EveryRunKeepsInvariant(actions: seq<Action>)
    ensures Invariant(Run(EMPTY, actions))
  {
    if actions == [] {
      assert EMPTY.queue == EMPTY.enqueued[0..];
    } else {
      var s, a := Run(EMPTY, actions[..|actions| - 1]), actions[|actions| - 1];
      EveryRunKeepsInvariant(actions[..|actions| - 1]);
      StepKeepsInvariant(s, a);
      hide Invariant;
    }
  }

  /** In every run a promise that is settled at some point has that state and result at every later point. */
  lemma {:induction false} SettledForever(actions: seq<Action>, more: seq<Action>)
    ensures Later(Run(EMPTY, actions), Run(EMPTY, actions + more))
    decreases |more|
  {
    if more == [] {
      assert actions + more == actions;
    } else {
      var all, n := actions + more, |actions + more| - 1;
      assert all[..n] == actions + more[..|more| - 1];
      SettledForever(actions, more[..|more| - 1]);
      var s := Run(EMPTY, all[..n]);
      EveryRunKeepsInvariant(all[..n]);
      hide Step, RightsOk, AllReactionsOk, TrackerOk;
      StepIsLater(s, all[n]);
      LaterStill(Run(EMPTY, actions), s, Step(s, all[n]));
      hide Later;
    }
  }

  lemma LaterStill(s: State, t: State, u: State)
    requires Later(s, t) && Later(t, u)
    ensures Later(s, u)
  {
  }

  // ---------------------------------------------------------------------------------------
  // How promises come to be settled

  /** The step rejects `p` with `v`: by its reject function, because `then` threw, or being resolved with itself. */
  ghost predicate Rejects(s: State, a: Action, p: nat, v: Value) {
    match a
    case CallReject(k, reason) => k < |s.pairs| && s.pairs[k] == Pair(p, false) && reason == v
    case FinishResolve(i, outcome) => i < |s.resolving| && s.resolving[i].p == p && outcome == ThenThrew(v)
    case CallResolve(k, resolution) =>
      && k < |s.pairs| && s.pairs[k] == Pair(p, false)
      && resolution == PromiseObject(p) && v == SelfResolutionError
    case _ => false
  }

  /** The step fulfils `p` with `v`: resolved with what is no object, or with an object that has no method `then`. */
  ghost predicate Fulfills(s: State, a: Action, p: nat, v: Value) {
    match a
    case CallResolve(k, resolution) =>
      && k < |s.pairs| && s.pairs[k] == Pair(p, false)
      && resolution == v && !v.Object? && !v.PromiseObject?
    case FinishResolve(i, outcome) => i < |s.resolving| && s.resolving[i] == Resolving(p, v) && outcome == ThenOther
    case _ => false
  }

  ghost predicate Is(s: State, p: nat, state: PromiseState, v: Value) {
    p < |s.promises| && s.promises[p].state == state && s.promises[p].result == v
  }

  /** A step settles a pending promise exactly if it is one of these. */
  lemma StepSettles(s: State, a: Action, p: nat, v: Value)
    requires p < |s.promises| && s.promises[p].state.Pending?
    ensures Is(Step(s, a), p, Rejected, v) <==> Rejects(s, a, p, v)
    ensures Is(Step(s, a), p, Fulfilled, v) <==> Fulfills(s, a, p, v)
  {
    match a
    case CallResolve(_, _) => ResolveSettles(s, a, p, v);
    case FinishResolve(_, _) => FinishSettles(s, a, p, v);
    case _ => hide Jobs, Fulfill;
  }

  lemma ResolveSettles(s: State, a: Action, p: nat, v: Value)
    requires a.CallResolve? && p < |s.promises| && s.promises[p].state.Pending?
    ensures Is(Step(s, a), p, Rejected, v) <==> Rejects(s, a, p, v)
    ensures Is(Step(s, a), p, Fulfilled, v) <==> Fulfills(s, a, p, v)
  {
    hide Jobs;
  }

  lemma FinishSettles(s: State, a: Action, p: nat, v: Value)
    requires a.FinishResolve? && p < |s.promises| && s.promises[p].state.Pending?
    ensures Is(Step(s, a), p, Rejected, v) <==> Rejects(s, a, p, v)
    ensures Is(Step(s, a), p, Fulfilled, v) <==> Fulfills(s, a, p, v)
  {
    hide Jobs;
  }

  lemma SettlersArePending(s: State, a: Action, p: nat, v: Value)
    requires RightsOk(s) && (Rejects(s, a, p, v) || Fulfills(s, a, p, v))
    ensures p < |s.promises| && s.promises[p].state.Pending?
  {
    if a.FinishResolve? { ResolvingMeansPending(s, a.i); } else { UnusedMeansPending(s, a.k); }
  }

  ghost function Before(actions: seq<Action>, j: nat): State
    requires j < |actions|
  {
    Run(EMPTY, actions[..j])
  }

  lemma AfterStep(actions: seq<Action>, j: nat)
    requires j < |actions|
    ensures Run(EMPTY, actions[..j + 1]) == Step(Before(actions, j), actions[j])
  {
    assert actions[..j + 1][..j] == actions[..j];
  }

  /** What a step has settled stays so to the end of the run. */
  lemma SettledByStep(actions: seq<Action>, j: nat, p: nat, v: Value)
    requires j < |actions|
    ensures Rejects(Before(actions, j), actions[j], p, v) ==> Is(Run(EMPTY, actions), p, Rejected, v)
    ensures Fulfills(Before(actions, j), actions[j], p, v) ==> Is(Run(EMPTY, actions), p, Fulfilled, v)
  {
    EveryRunKeepsInvariant(actions[..j]);
    AfterStep(actions, j);
    hide Rejects, Fulfills, Step, Run, RightsOk, AllReactionsOk, TrackerOk, PairsOk, HandledOk, QueueOk;
    var s, a := Before(actions, j), actions[j];
    if Rejects(s, a, p, v) || Fulfills(s, a, p, v) {
      SettlersArePending(s, a, p, v);
      StepSettles(s, a, p, v);
      SettledStays(actions, j + 1, p, v);
    }
  }

  lemma SettledStays(actions: seq<Action>, j: nat, p: nat, v: Value)
    requires j <= |actions|
    ensures Is(Run(EMPTY, actions[..j]), p, Rejected, v) ==> Is(Run(EMPTY, actions), p, Rejected, v)
    ensures Is(Run(EMPTY, actions[..j]), p, Fulfilled, v) ==> Is(Run(EMPTY, actions), p, Fulfilled, v)
  {
    SettledForever(actions[..j], actions[j..]);
    assert actions[..j] + actions[j..] == actions;
    hide Run;
  }

  /** A new promise is pending. */
  lemma NewIsPending(s: State, a: Action, p: nat)
    requires |s.promises| <= p < |Step(s, a).promises|
    ensures Step(s, a).promises[p].state.Pending?
  {
    hide Jobs;
  }

  lemma {:induction false} SettlingStep(actions: seq<Action>, p: nat, v: Value, state: PromiseState) returns (j: nat)
    requires !state.Pending? && Is(Run(EMPTY, actions), p, state, v)
    ensures j < |actions|
    ensures if state.Rejected? then Rejects(Before(actions, j), actions[j], p, v)
            else Fulfills(Before(actions, j), actions[j], p, v)
  {
    hide Rejects, Fulfills, Step, RightsOk, AllReactionsOk, TrackerOk, PairsOk, HandledOk, QueueOk;
    var n := |actions| - 1;
    var s, a := Run(EMPTY, actions[..n]), actions[n];
    EveryRunKeepsInvariant(actions[..n]);
    StepIsLater(s, a);
    if p >= |s.promises| {
      NewIsPending(s, a, p);
      assert false;
    } else if s.promises[p].state.Pending? {
      StepSettles(s, a, p, v);
      j := n;
    } else {
      j := SettlingStep(actions[..n], p, v, state);
      assert actions[..n][..j] == actions[..j];
    }
  }

  /** In every run a promise is rejected with `v` exactly if some step rejected it with that. */
  lemma RejectedIff(actions: seq<Action>, p: nat, v: Value)
    ensures Is(Run(EMPTY, actions), p, Rejected, v) <==>
      exists j: nat :: j < |actions| && Rejects(Before(actions, j), actions[j], p, v)
  {
    hide Rejects, Before, Run;
    if Is(Run(EMPTY, actions), p, Rejected, v) {
      var j := SettlingStep(actions, p, v, Rejected);
    }
    forall j: nat | j < |actions| && Rejects(Before(actions, j), actions[j], p, v)
      ensures Is(Run(EMPTY, actions), p, Rejected, v)
    {
      SettledByStep(actions, j, p, v);
    }
  }

  /** And fulfilled with `v` exactly if some step fulfilled it with that. */
  lemma FulfilledIff(actions: seq<Action>, p: nat, v: Value)
    ensures Is(Run(EMPTY, actions), p, Fulfilled, v) <==>
      exists j: nat :: j < |actions| && Fulfills(Before(actions, j), actions[j], p, v)
  {
    hide Fulfills, Before, Run;
    if Is(Run(EMPTY, actions), p, Fulfilled, v) {
      var j := SettlingStep(actions, p, v, Fulfilled);
    }
    forall j: nat | j < |actions| && Fulfills(Before(actions, j), actions[j], p, v)
      ensures Is(Run(EMPTY, actions), p, Fulfilled, v)
    {
      SettledByStep(actions, j, p, v);
    }
  }

  /** In every run the tracker's trace for a promise is a beginning of [reject, handle]. */
  lemma TraceIsPrefix(actions: seq<Action>, p: nat)
    requires p < |Run(EMPTY, actions).promises|
    ensures TraceFor(Run(EMPTY, actions).tracker, p) <= [TrackReject, TrackHandle]
  {
    EveryRunKeepsInvariant(actions);
    hide Run, TraceFor;
    assert TraceOk(Run(EMPTY, actions), p);
  }

  // ---------------------------------------------------------------------------------------
  // The operations as they are written, on the runtime's own fields

  lemma NothingEnqueued(s: State, kind: Kind, v: Value)
    ensures Enqueue(s, Jobs([], kind, v)) == s
  {
    assert s.queue + [] == s.queue && s.enqueued + [] == s.enqueued;
  }

  lemma OneMoreEnqueued(s: State, rs: seq<nat>, r: nat, kind: Kind, v: Value)
    ensures Enqueue(s, Jobs(rs + [r], kind, v)) == Enqueue(Enqueue(s, Jobs(rs, kind, v)), [ReactionJob(r, kind, v)])
  {
    OneMoreJob(rs, r, kind, v);
    hide Jobs;
    var js, j := Jobs(rs, kind, v), [ReactionJob(r, kind, v)];
    assert s.queue + (js + j) == s.queue + js + j && s.enqueued + (js + j) == s.enqueued + js + j;
  }

  class Runtime {
    var promises: seq<Promise>
    var pairs: seq<Pair>
    var resolving: seq<Resolving>
    var jobQueue: seq<Job>
    ghost var enqueued: seq<Job>
    var tracker: seq<(nat, TrackerOp)>
    var registered: seq<nat>

    ghost function View(): State
      reads this
    {
      State(promises, pairs, resolving, jobQueue, enqueued, tracker, registered)
    }

    constructor ()
      ensures View() == EMPTY && Invariant(View())
    {
      promises, pairs, resolving, jobQueue, enqueued, tracker, registered := [], [], [], [], [], [], [];
      new;
      EveryRunKeepsInvariant([]);
    }

    method EnqueuePromiseJob(job: Job)
      modifies this
      ensures View() == Enqueue(old(View()), [job])
    {
      jobQueue := jobQueue + [job];
      enqueued := enqueued + [job];
    }

    method TriggerPromiseReactions(reactions: seq<nat>, kind: Kind, argument: Value)
      modifies this
      ensures View() == Enqueue(old(View()), Jobs(reactions, kind, argument))
    {
      NothingEnqueued(View(), kind, argument);
      hide Jobs, Enqueue;
      var i := 0;
      while i < |reactions|
        invariant i <= |reactions| && View() == Enqueue(old(View()), Jobs(reactions[..i], kind, argument))
      {
        OneMoreEnqueued(old(View()), reactions[..i], reactions[i], kind, argument);
        assert reactions[..i + 1] == reactions[..i] + [reactions[i]];
        EnqueuePromiseJob(ReactionJob(reactions[i], kind, argument));
        i := i + 1;
      }
      assert reactions[..i] == reactions;
    }

    method FulfillPromise(p: nat, value: Value)
      requires p < |promises|
      modifies this
      ensures View() == Fulfill(old(View()), p, value)
    {
      hide Jobs;
      var reactions := promises[p].fulfillReactions;
      promises := promises[p := promises[p].(result := value)];
      promises := promises[p := promises[p].(fulfillReactions := [], rejectReactions := [])];
      promises := promises[p := promises[p].(state := Fulfilled)];
      TriggerPromiseReactions(reactions, OnFulfilled, value);
    }

    method RejectPromise(p: nat, reason: Value)
      requires p < |promises|
      modifies this
      ensures View() == Reject(old(View()), p, reason)
    {
      hide Jobs;
      var reactions := promises[p].rejectReactions;
      promises := promises[p := promises[p].(result := reason)];
      promises := promises[p := promises[p].(fulfillReactions := [], rejectReactions := [])];
      promises := promises[p := promises[p].(state := Rejected)];
      if !promises[p].handled {
        tracker := tracker + [(p, TrackReject)];
      }
      TriggerPromiseReactions(reactions, OnRejected, reason);
    }

    method CreateResolvingFunctions(p: nat) returns (k: nat)
      modifies this
      ensures View() == AddPair(old(View()), p) && k == |old(pairs)|
    {
      k := |pairs|;
      pairs := pairs + [Pair(p, false)];
    }

    method NewPromiseCapability() returns (p: nat, k: nat)
      requires Invariant(View())
      modifies this
      ensures View() == Step(old(View()), NewPromise) && Invariant(View())
      ensures p == |old(promises)| && k == |old(pairs)|
    {
      StepKeepsInvariant(View(), NewPromise);
      p := |promises|;
      promises := promises + [Promise(Pending, NoValue, [], [], false)];
      hide Invariant;
      k := CreateResolvingFunctions(p);
    }

    /** The resolve function of pair `k`, up to the point where it reads the `then` of an object. */
    method CallResolveFunction(k: nat, resolution: Value)
      requires Invariant(View()) && k < |pairs|
      modifies this
      ensures View() == Step(old(View()), CallResolve(k, resolution)) && Invariant(View())
      ensures old(pairs)[k].alreadyResolved ==> View() == old(View())
      ensures var p := old(pairs)[k].p; !old(pairs)[k].alreadyResolved ==>
        && pairs == old(pairs)[k := Pair(p, true)] && p < |promises|
        && (if resolution == PromiseObject(p) then
              promises[p].state == Rejected && promises[p].result == SelfResolutionError
            else if resolution.Object? || resolution.PromiseObject? then
              promises == old(promises) && promises[p].state == Pending
              && resolving == old(resolving) + [Resolving(p, resolution)]
            else promises[p].state == Fulfilled && promises[p].result == resolution)
    {
      StepKeepsInvariant(View(), CallResolve(k, resolution));
      hide Rights, AllReactionsOk, TrackerOk, HandledOk, QueueOk, Jobs;
      if pairs[k].alreadyResolved {
        return;
      }
      UnusedMeansPending(View(), k);
      hide Invariant;
      var p := pairs[k].p;
      pairs := pairs[k := Pair(p, true)];
      if resolution == PromiseObject(p) {
        RejectPromise(p, SelfResolutionError);
        return;
      }
      if resolution.Object? || resolution.PromiseObject? {
        resolving := resolving + [Resolving(p, resolution)];
        return;
      }
      FulfillPromise(p, resolution);
    }

    /** The rest of a resolve function, once `then` has been read. */
    method FinishResolving(i: nat, outcome: ThenOutcome)
      requires Invariant(View()) && i < |resolving|
      modifies this
      ensures View() == Step(old(View()), FinishResolve(i, outcome)) && Invariant(View())
      ensures var Resolving(p, resolution) := old(resolving)[i];
        && resolving == old(resolving)[..i] + old(resolving)[i + 1..] && p < |promises|
        && (outcome.ThenThrew? ==> promises[p].state == Rejected && promises[p].result == outcome.ex)
        && (outcome.ThenOther? ==> promises[p].state == Fulfilled && promises[p].result == resolution)
        && (outcome.ThenCallable? ==>
            && promises == old(promises) && promises[p].state == Pending
            && jobQueue == old(jobQueue) + [ThenableJob(p, resolution)])
    {
      StepKeepsInvariant(View(), FinishResolve(i, outcome));
      ResolvingMeansPending(View(), i);
      hide Invariant, Jobs;
      var p, resolution := resolving[i].p, resolving[i].resolution;
      resolving := resolving[..i] + resolving[i + 1..];
      match outcome
      case ThenThrew(ex) => RejectPromise(p, ex);
      case ThenCallable => EnqueuePromiseJob(ThenableJob(p, resolution));
      case ThenOther => FulfillPromise(p, resolution);
    }

    method CallRejectFunction(k: nat, reason: Value)
      requires Invariant(View()) && k < |pairs|
      modifies this
      ensures View() == Step(old(View()), CallReject(k, reason)) && Invariant(View())
      ensures old(pairs)[k].alreadyResolved ==> View() == old(View())
      ensures var p := old(pairs)[k].p; !old(pairs)[k].alreadyResolved ==>
        && pairs == old(pairs)[k := Pair(p, true)] && p < |promises|
        && promises[p].state == Rejected && promises[p].result == reason
    {
      StepKeepsInvariant(View(), CallReject(k, reason));
      hide Rights, AllReactionsOk, TrackerOk, HandledOk, QueueOk, Jobs;
      if pairs[k].alreadyResolved {
        return;
      }
      UnusedMeansPending(View(), k);
      hide Invariant;
      pairs := pairs[k := Pair(pairs[k].p, true)];
      RejectPromise(pairs[k].p, reason);
    }

    method PerformThen(p: nat) returns (r: nat)
      requires Invariant(View()) && p < |promises|
      modifies this
      ensures View() == Step(old(View()), Then(p)) && Invariant(View()) && r == |old(registered)|
    {
      StepKeepsInvariant(View(), Then(p));
      hide Invariant;
      r := |registered|;
      registered := registered + [p];
      match promises[p].state {
      case Pending =>
        promises := promises[p := promises[p].(fulfillReactions := promises[p].fulfillReactions + [r])];
        promises := promises[p := promises[p].(rejectReactions := promises[p].rejectReactions + [r])];
      case Fulfilled =>
        EnqueuePromiseJob(ReactionJob(r, OnFulfilled, promises[p].result));
      case Rejected =>
        var reason := promises[p].result;
        if !promises[p].handled {
          tracker := tracker + [(p, TrackHandle)];
        }
        EnqueuePromiseJob(ReactionJob(r, OnRejected, reason));
      }
      promises := promises[p := promises[p].(handled := true)];
    }

    /** Takes the next job.  A thenable job starts by making a new pair, which it hands to the `then` method. */
    method TakeJob() returns (job: Job, k: nat)
      requires Invariant(View()) && jobQueue != []
      modifies this
      ensures View() == Step(old(View()), RunJob) && Invariant(View())
      ensures job == old(jobQueue)[0]
      ensures (job.ThenableJob? ==> k == |old(pairs)| < |pairs| && pairs[k] == Pair(job.p, false))
    {
      StepKeepsInvariant(View(), RunJob);
      hide Invariant;
      job, k := jobQueue[0], 0;
      jobQueue := jobQueue[1..];
      if job.ThenableJob? {
        k := CreateResolvingFunctions(job.p);
      }
    }
  }
}
